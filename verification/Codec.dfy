/** The variable-length encodings of the UE5 stream: SerializeIntPacked,
    SerializeInt, FString, compressed rotations and quantized vectors, each with
    its reader and the proof that the reader undoes it. */
module Codec {
  import opened Bits

  // ---- SerializeIntPacked -------------------------------------------------

  /** One SIP byte: seven data bits above a continuation bit. */
  function SipByte(v: nat): (b: Byte)
  {
    2 * (v % 128) + B2N(v >= 128)
  }

  function Sip(v: nat): (e: Bits)
    ensures |e| >= 8
    decreases v
  {
    if v < 128 then ToBits(SipByte(v), 8) else ToBits(SipByte(v), 8) + Sip(v / 128)
  }

  /** A number read and the cursor after it. */
  datatype NatRead = NatRead(value: nat, next: nat)

  /** The shared shape of the SIP readers: at most `tries` bytes, each read only
      while it ends at or before `lim`; returns the value and the new cursor. */
  function ReadSip(s: Bits, p: nat, lim: nat, tries: nat): (r: NatRead)
    ensures p <= r.next <= p + 8 * tries && (p <= lim ==> r.next <= lim)
    decreases tries
  {
    if tries == 0 || p + 8 > lim then NatRead(0, p)
    else
      var b := ReadN(s, p, 8);
      if b % 2 == 0 then NatRead(b / 2, p + 8)
      else
        var rest := ReadSip(s, p + 8, lim, tries - 1);
        NatRead(b / 2 + 128 * rest.value, rest.next)
  }

  /** How many seven-bit groups v needs. */
  function SipBytes(v: nat): nat
    decreases v
  {
    if v < 128 then 1 else 1 + SipBytes(v / 128)
  }

  function BitLength(v: nat): nat
    decreases v
  {
    if v == 0 then 0 else 1 + BitLength(v / 2)
  }

  lemma {:induction false} SipLength(v: nat)
    ensures |Sip(v)| == 8 * SipBytes(v)
    decreases v
  {
    if v >= 128 { SipLength(v / 128); }
  }

  lemma BitLengthBy128(v: nat)
    requires v >= 128
    ensures BitLength(v) == 7 + BitLength(v / 128)
  {
    var a := v / 2; var b := a / 2; var c := b / 2; var d := c / 2; var e := d / 2; var f := e / 2;
    var g := f / 2;
    assert g == v / 128 && g >= 1;
    assert BitLength(v) == 1 + BitLength(a) && BitLength(a) == 1 + BitLength(b);
    assert BitLength(b) == 1 + BitLength(c) && BitLength(c) == 1 + BitLength(d);
    assert BitLength(d) == 1 + BitLength(e) && BitLength(e) == 1 + BitLength(f);
    assert BitLength(f) == 1 + BitLength(g);
  }

  /** Length law: 8 bits for every started group of seven, and never none. */
  lemma {:induction false} SipLengthLaw(v: nat)
    ensures |Sip(v)| == 8 * (if v == 0 then 1 else (BitLength(v) + 6) / 7)
    decreases v
  {
    SipLength(v);
    SipBytesLaw(v);
  }

  lemma {:induction false} SipBytesLaw(v: nat)
    ensures SipBytes(v) == if v == 0 then 1 else (BitLength(v) + 6) / 7
    decreases v
  {
    if v >= 128 {
      SipBytesLaw(v / 128);
      BitLengthBy128(v);
    } else if v > 0 {
      BitLengthSmall(v, 7);
    }
  }

  lemma {:induction false} BitLengthSmall(v: nat, n: nat)
    requires v < Pow2(n)
    ensures BitLength(v) <= n && (v > 0 ==> BitLength(v) >= 1)
    decreases n
  {
    if n > 0 { BitLengthSmall(v / 2, n - 1); }
  }

  lemma {:induction false} SipBytesBound(v: nat, n: nat)
    requires n >= 1 && v < Pow2(7 * n)
    ensures SipBytes(v) <= n
    decreases n
  {
    Pow2Values();
    if v >= 128 {
      if n == 1 { assert false; }
      Pow2Add(7, 7 * (n - 1));
      assert v / 128 < Pow2(7 * (n - 1));
      SipBytesBound(v / 128, n - 1);
    }
  }

  lemma SipWidths(v: nat)
    ensures v < U32 ==> SipBytes(v) <= 5
    ensures v < U64 ==> SipBytes(v) <= 10
    ensures v < 0x1000_0000 ==> SipBytes(v) <= 4
  {
    Pow2Values();
    Pow2Add(32, 3); Pow2Add(64, 6); Pow2Add(14, 14);
    assert Pow2(3) == 8 && Pow2(6) == 64;
    if v < U32 { SipBytesBound(v, 5); }
    if v < U64 { SipBytesBound(v, 10); }
    if v < 0x1000_0000 { SipBytesBound(v, 4); }
  }

  lemma SipStep(v: nat)
    ensures Sip(v) == if v < 128 then ToBits(SipByte(v), 8) else ToBits(SipByte(v), 8) + Sip(v / 128)
    ensures SipBytes(v) == if v < 128 then 1 else 1 + SipBytes(v / 128)
  {}

  /** Reading a SIP back, before any suffix, returns the value and consumes
      exactly its bits, for every reader that allows enough bytes. */
  lemma {:induction false} SipRoundTrip(s: Bits, p: nat, v: nat, lim: nat, tries: nat)
    requires At(s, p, Sip(v)) && p + |Sip(v)| <= lim && SipBytes(v) <= tries
    ensures ReadSip(s, p, lim, tries) == NatRead(v, p + |Sip(v)|)
    decreases v
  {
    hide At, ReadN, ToBits, SipByte, Sip, SipBytes;
    SipStep(v);
    SipByteParts(v);
    if v < 128 {
      ReadByteAt(s, p, SipByte(v));
    } else {
      AtSplit(s, p, ToBits(SipByte(v), 8), Sip(v / 128));
      ReadByteAt(s, p, SipByte(v));
      SipRoundTrip(s, p + 8, v / 128, lim, tries - 1);
      assert p + 8 + |Sip(v / 128)| == p + |Sip(v)|;
    }
  }

  lemma SipByteParts(v: nat)
    ensures SipByte(v) % 2 == 0 <==> v < 128
    ensures v < 128 ==> SipByte(v) / 2 == v
    ensures v >= 128 ==> SipByte(v) / 2 + 128 * (v / 128) == v
  {}

  lemma ReadByteAt(s: Bits, p: nat, b: Byte)
    requires At(s, p, ToBits(b, 8))
    ensures ReadN(s, p, 8) == b
  {
    Pow2Of8();
    ReadNSmall(s, p, b, 8);
  }

  /** No SIP encoding is a prefix of another. */
  lemma SipPrefixFree(a: nat, b: nat)
    requires Sip(a) <= Sip(b)
    ensures a == b
  {
    var s := Sip(b);
    assert s[0..|Sip(a)|] == Sip(a) && s[0..|s|] == s;
    var t := SipBytes(a) + SipBytes(b);
    SipRoundTrip(s, 0, a, |s|, t);
    SipRoundTrip(s, 0, b, |s|, t);
  }

  // ---- SerializeInt with a fixed width ------------------------------------

  function IntWidth(max: nat): nat
  {
    if max <= 1 then 0 else BitLength(max - 1)
  }

  function SerializeInt(v: nat, max: nat): (e: Bits)
  {
    ToBits(v, IntWidth(max))
  }

  lemma {:induction false} BitLengthFits(v: nat)
    ensures v < Pow2(BitLength(v))
    ensures v > 0 ==> Pow2(BitLength(v) - 1) <= v
    decreases v
  {
    if v > 0 { BitLengthFits(v / 2); }
  }

  lemma {:induction false} BitLengthIs(v: nat, n: nat)
    requires n >= 1 && Pow2(n - 1) <= v < Pow2(n)
    ensures BitLength(v) == n
    decreases n
  {
    if n > 1 {
      assert Pow2(n - 2) <= v / 2 < Pow2(n - 1);
      BitLengthIs(v / 2, n - 1);
    }
  }

  lemma SerializeIntRoundTrip(s: Bits, p: nat, v: nat, max: nat)
    requires v < max && At(s, p, SerializeInt(v, max))
    ensures ReadN(s, p, IntWidth(max)) == v
  {
    if max > 1 {
      BitLengthFits(max - 1);
    }
    ReadNSmall(s, p, v, IntWidth(max));
  }

  lemma IntWidths()
    ensures IntWidth(5) == 3 && IntWidth(7) == 3 && IntWidth(15) == 4
    ensures IntWidth(128) == 7 && IntWidth(8192) == 13
  {
    Pow2Values();
    assert Pow2(6) == 64 && Pow2(12) == 4096 && Pow2(2) == 4 && Pow2(3) == 8 && Pow2(4) == 16;
    BitLengthIs(4, 3); BitLengthIs(6, 3); BitLengthIs(14, 4);
    BitLengthIs(127, 7); BitLengthIs(8191, 13);
  }

  // ---- FString ------------------------------------------------------------

  type Str = seq<Byte>

  function Chars(t: Str): (e: Bits)
    ensures |e| == 8 * |t|
  {
    if t == [] then [] else Chars(t[..|t| - 1]) + ToBits(t[|t| - 1], 8)
  }

  /** int32 length with the NUL, the characters, the NUL; an empty string is one zero. */
  function FString(t: Str): (e: Bits)
    ensures |e| == if |t| == 0 then 32 else 40 + 8 * |t|
  {
    if |t| == 0 then ToBits(0, 32)
    else ToBits((|t| + 1) % U32, 32) + Chars(t) + ToBits(0, 8)
  }

  function ReadBytes(s: Bits, p: nat, n: nat): (t: Str)
    ensures |t| == n
  {
    seq(n, i requires 0 <= i < n => Byte8(s, p + 8 * i))
  }

  function Byte8(s: Bits, p: nat): Byte
  {
    ReadNBound(s, p, 8); Pow2Values();
    ReadN(s, p, 8)
  }

  lemma Byte8At(s: Bits, p: nat, b: Byte)
    requires At(s, p, ToBits(b, 8))
    ensures Byte8(s, p) == b
  {
    hide At, ReadN, ToBits;
    ReadByteAt(s, p, b);
  }

  lemma {:induction false} CharsAt(s: Bits, p: nat, t: Str, i: nat)
    requires At(s, p, Chars(t)) && i < |t|
    ensures ReadN(s, p + 8 * i, 8) == t[i]
    decreases |t|
  {
    AtSplit(s, p, Chars(t[..|t| - 1]), ToBits(t[|t| - 1], 8));
    if i == |t| - 1 {
      ReadByteAt(s, p + 8 * i, t[i]);
    } else {
      CharsAt(s, p, t[..|t| - 1], i);
    }
  }

  lemma CharsRoundTrip(s: Bits, p: nat, t: Str)
    requires At(s, p, Chars(t))
    ensures ReadBytes(s, p, |t|) == t
  {
    hide At, Chars, ReadN;
    forall i: nat | i < |t| ensures ReadN(s, p + 8 * i, 8) == t[i] { CharsAt(s, p, t, i); }
    assert ReadBytes(s, p, |t|) == t;
  }

  lemma FStringAt(s: Bits, p: nat, t: Str)
    requires |t| > 0 && |t| + 1 < 0x8000_0000 && At(s, p, FString(t))
    ensures ReadN(s, p, 32) == |t| + 1
    ensures ReadBytes(s, p + 32, |t|) == t
    ensures ReadBytes(s, p + 32, |t| + 1) == t + [0]
  {
    hide At, Chars, ReadN, ToBits;
    AtSplit3(s, p, ToBits((|t| + 1) % U32, 32), Chars(t), ToBits(0, 8));
    Pow2Of32();
    ReadNSmall(s, p, |t| + 1, 32);
    CharsRoundTrip(s, p + 32, t);
    ReadByteAt(s, p + 32 + 8 * |t|, 0);
    BytesSnoc(s, p + 32, |t|);
  }

  lemma BytesSnoc(s: Bits, p: nat, n: nat)
    ensures ReadBytes(s, p, n + 1) == ReadBytes(s, p, n) + [Byte8(s, p + 8 * n)]
  {
    hide ReadN;
  }

  // ---- Compressed rotations -----------------------------------------------

  datatype Rotation = Rotation(pitch: nat, yaw: nat, roll: nat)

  predicate RotationFits(r: Rotation)
  {
    r.pitch < U16 && r.yaw < U16 && r.roll < U16
  }

  function Axis(v: nat): Bits
  {
    if v != 0 then ToBits(v, 16) else []
  }

  /** Three non-zero flags, then the 16-bit axes that are not zero. */
  function RotationBits(r: Rotation): Bits
  {
    [r.pitch != 0, r.yaw != 0, r.roll != 0] + Axis(r.pitch) + Axis(r.yaw) + Axis(r.roll)
  }

  function ReadAxis(s: Bits, p: nat, flag: bool): NatRead
  {
    if flag then NatRead(ReadN(s, p, 16), p + 16) else NatRead(0, p)
  }

  function Peek(s: Bits, p: nat): bool
  {
    p < |s| && s[p]
  }

  lemma PeekAt(s: Bits, p: nat, b: bool)
    requires At(s, p, [b])
    ensures Peek(s, p) == b
  {
    ReadBitAt(s, p, b);
  }

  datatype RotationRead = RotationRead(value: Rotation, next: nat)

  function ReadRotation(s: Bits, p: nat): RotationRead
  {
    var a := ReadAxis(s, p + 3, Peek(s, p));
    var b := ReadAxis(s, a.next, Peek(s, p + 1));
    var c := ReadAxis(s, b.next, Peek(s, p + 2));
    RotationRead(Rotation(a.value, b.value, c.value), c.next)
  }

  lemma AxisRoundTrip(s: Bits, p: nat, v: nat)
    requires At(s, p, Axis(v))
    ensures ReadAxis(s, p, v != 0).next == p + |Axis(v)|
    ensures ReadAxis(s, p, v != 0).value == v <==> v < U16
  {
    hide At, ReadN, ToBits, Pow2;
    Pow2Of16();
    if v != 0 {
      ReadNBound(s, p, 16);
      if v < U16 { ReadNSmall(s, p, v, 16); }
    }
  }

  lemma PeeksAt(s: Bits, p: nat, e: Bits)
    requires At(s, p, e)
    ensures forall i: nat :: i < |e| ==> Peek(s, p + i) == e[i]
  {
    var w := s[p..p + |e|];
    forall i: nat | i < |e| ensures Peek(s, p + i) == e[i] { assert w[i] == e[i]; }
  }

  /** A rotation is read back exactly if and only if its axes have 16 bits; the cursor
      always ends at the end. */
  lemma RotationRoundTrip(s: Bits, p: nat, r: Rotation)
    requires At(s, p, RotationBits(r))
    ensures ReadRotation(s, p).next == p + |RotationBits(r)|
    ensures ReadRotation(s, p).value == r <==> RotationFits(r)
  {
    hide At, Axis, ReadAxis, Peek;
    var f := [r.pitch != 0, r.yaw != 0, r.roll != 0];
    AtSplit(s, p, f + Axis(r.pitch) + Axis(r.yaw), Axis(r.roll));
    AtSplit(s, p, f + Axis(r.pitch), Axis(r.yaw));
    AtSplit(s, p, f, Axis(r.pitch));
    PeeksAt(s, p, f);
    assert Peek(s, p + 0) == f[0] && Peek(s, p + 1) == f[1] && Peek(s, p + 2) == f[2];
    AxisRoundTrip(s, p + 3, r.pitch);
    AxisRoundTrip(s, p + 3 + |Axis(r.pitch)|, r.yaw);
    AxisRoundTrip(s, p + 3 + |Axis(r.pitch)| + |Axis(r.yaw)|, r.roll);
  }

  // ---- Quantized vectors --------------------------------------------------

  datatype Vec = Vec(x: int, y: int, z: int)

  function Abs(i: int): nat { if i < 0 then -i else i }

  function AbsMax(v: Vec): nat
  {
    var m := if Abs(v.x) < Abs(v.y) then Abs(v.y) else Abs(v.x);
    if m < Abs(v.z) then Abs(v.z) else m
  }

  /** The width search, from a candidate width k on. */
  function CompBits(m: nat, k: nat): (r: nat)
    requires 2 <= k <= 32
    ensures k <= r <= 32
    decreases 32 - k
  {
    if k < 32 && Pow2(k - 1) <= m then CompBits(m, k + 1) else k
  }

  /** static_cast<uint32_t>(c + bias), for a signed scaled component. */
  function Biased(c: int, k: nat): nat
    requires k >= 1
  {
    (c + Pow2(k - 1)) % U32
  }

  function QVecBits(v: Vec): Bits
  {
    var k := CompBits(AbsMax(v), 2);
    SerializeInt(k - 2 + 32, 128)
    + ToBits(Biased(v.x, k), k) + ToBits(Biased(v.y, k), k) + ToBits(Biased(v.z, k), k)
  }

  function ReadComponent(s: Bits, p: nat, k: nat): int
    requires k >= 1
  {
    ReadN(s, p, k) - Pow2(k - 1)
  }

  datatype VecRead = VecRead(value: Vec, next: nat)

  /** Seven header bits whose low five give the width, then three biased components. */
  function ReadQVec(s: Bits, p: nat): VecRead
  {
    var k := ReadN(s, p, 7) % 32 + 2;
    VecRead(Vec(ReadComponent(s, p + 7, k), ReadComponent(s, p + 7 + k, k), ReadComponent(s, p + 7 + 2 * k, k)),
            p + 7 + 3 * k)
  }

  predicate Int32(c: int) { -0x8000_0000 <= c < 0x8000_0000 }

  /** The search stops at the least width whose bias exceeds every component. */
  lemma {:induction false} CompBitsLeast(m: nat, k: nat)
    requires 2 <= k <= 32
    ensures var r := CompBits(m, k);
            (r < 32 ==> m < Pow2(r - 1)) && (r > k ==> Pow2(r - 2) <= m)
    decreases 32 - k
  {
    if k < 32 && Pow2(k - 1) <= m { CompBitsLeast(m, k + 1); }
  }

  lemma WidthFits(m: nat)
    ensures var k := CompBits(m, 2);
            k == 32 || m < Pow2(k - 1)
  {
    CompBitsLeast(m, 2);
  }

  lemma ComponentAt(s: Bits, p: nat, c: int, k: nat)
    requires 2 <= k <= 32 && At(s, p, ToBits(Biased(c, k), k))
    requires k == 32 || Abs(c) < Pow2(k - 1)
    ensures ReadComponent(s, p, k) == c <==> k < 32 || Int32(c)
  {
    BiasedFits(c, k);
    hide At, ReadN, ToBits, Pow2, Biased;
    ReadNSmall(s, p, Biased(c, k), k);
  }

  lemma BiasedFits(c: int, k: nat)
    requires 2 <= k <= 32 && (k == 32 || Abs(c) < Pow2(k - 1))
    ensures Biased(c, k) < Pow2(k)
    ensures Biased(c, k) - Pow2(k - 1) == c <==> k < 32 || Int32(c)
  {
    Pow2Of32();
    Pow2Of31();
    if k < 32 {
      Pow2Monotone(k, 32);
      DivUnique(c + Pow2(k - 1), U32, 0, c + Pow2(k - 1));
    } else if Int32(c) {
      DivUnique(c + Pow2(31), U32, 0, c + Pow2(31));
    }
  }

  /** A quantized vector is read back exactly if and only if every scaled
      component is a 32-bit signed integer; the cursor always ends at the end. */
  lemma QVecRoundTrip(s: Bits, p: nat, v: Vec)
    requires At(s, p, QVecBits(v))
    ensures ReadQVec(s, p).next == p + |QVecBits(v)|
    ensures ReadQVec(s, p).value == v <==> Int32(v.x) && Int32(v.y) && Int32(v.z)
  {
    hide At, ToBits, ReadN, Pow2, Biased, ReadComponent, BitLength;
    var k := CompBits(AbsMax(v), 2);
    IntWidths();
    AtSplit4(s, p, SerializeInt(k - 2 + 32, 128),
             ToBits(Biased(v.x, k), k), ToBits(Biased(v.y, k), k), ToBits(Biased(v.z, k), k));
    SerializeIntRoundTrip(s, p, k - 2 + 32, 128);
    WidthFits(AbsMax(v));
    ComponentAt(s, p + 7, v.x, k);
    ComponentAt(s, p + 7 + k, v.y, k);
    ComponentAt(s, p + 7 + 2 * k, v.z, k);
    if k < 32 { AllInt32(v, k); }
  }

  lemma AllInt32(v: Vec, k: nat)
    requires 2 <= k < 32 && AbsMax(v) < Pow2(k - 1)
    ensures Int32(v.x) && Int32(v.y) && Int32(v.z)
  {
    Pow2Monotone(k - 1, 31);
    Pow2Of31();
  }

  // ---- Conditionally serialized vectors -----------------------------------

  datatype CondVec = Absent | Quantized(v: Vec) | Raw(x: nat, y: nat, z: nat)

  predicate CondVecFits(c: CondVec)
  {
    match c
    case Absent => true
    case Quantized(v) => Int32(v.x) && Int32(v.y) && Int32(v.z)
    case Raw(x, y, z) => x < U64 && y < U64 && z < U64
  }

  function CondVecBits(c: CondVec): Bits
  {
    match c
    case Absent => [false]
    case Quantized(v) => [true, true] + QVecBits(v)
    case Raw(x, y, z) => [true, false] + ToBits(x, 64) + ToBits(y, 64) + ToBits(z, 64)
  }

  datatype CondVecRead = CondVecRead(value: CondVec, next: nat)

  function ReadCondVec(s: Bits, p: nat): CondVecRead
  {
    if !Peek(s, p) then CondVecRead(Absent, p + 1)
    else if Peek(s, p + 1) then
      var q := ReadQVec(s, p + 2);
      CondVecRead(Quantized(q.value), q.next)
    else CondVecRead(Raw(ReadN(s, p + 2, 64), ReadN(s, p + 66, 64), ReadN(s, p + 130, 64)), p + 194)
  }

  /** A conditional vector is read back exactly if and only if it fits its fields; its
      form and the end of its bits come back in every case. */
  lemma CondVecRoundTrip(s: Bits, p: nat, c: CondVec)
    requires At(s, p, CondVecBits(c))
    ensures var r := ReadCondVec(s, p);
            && r.next == p + |CondVecBits(c)| && (r.value == c <==> CondVecFits(c))
            && r.value.Absent? == c.Absent? && r.value.Quantized? == c.Quantized?
  {
    hide At, QVecBits, ReadQVec, ToBits, ReadN, Peek;
    match c
    case Absent =>
      PairAt(s, p, false, false, []);
    case Quantized(v) =>
      PairAt(s, p, true, true, QVecBits(v));
      QVecRoundTrip(s, p + 2, v);
    case Raw(x, y, z) =>
      Assoc([true, false] + ToBits(x, 64), ToBits(y, 64), ToBits(z, 64));
      Assoc([true, false], ToBits(x, 64), ToBits(y, 64) + ToBits(z, 64));
      PairAt(s, p, true, false, ToBits(x, 64) + (ToBits(y, 64) + ToBits(z, 64)));
      RawRoundTrip(s, p + 2, x, y, z);
  }

  lemma PairAt(s: Bits, p: nat, a: bool, b: bool, e: Bits)
    requires At(s, p, if a then [a, b] + e else [a])
    ensures Peek(s, p) == a
    ensures a ==> Peek(s, p + 1) == b && At(s, p + 2, e)
  {
    if a {
      AtSplit(s, p, [a, b], e);
      PeeksAt(s, p, [a, b]);
      assert Peek(s, p + 0) == [a, b][0] && Peek(s, p + 1) == [a, b][1];
    } else {
      PeeksAt(s, p, [a]);
      assert Peek(s, p + 0) == [a][0];
    }
  }

  lemma RawRoundTrip(s: Bits, p: nat, x: nat, y: nat, z: nat)
    requires At(s, p, ToBits(x, 64) + (ToBits(y, 64) + ToBits(z, 64)))
    ensures ReadN(s, p, 64) == x <==> x < U64
    ensures ReadN(s, p + 64, 64) == y <==> y < U64
    ensures ReadN(s, p + 128, 64) == z <==> z < U64
  {
    hide At, ToBits, ReadN, Pow2;
    AtSplit(s, p, ToBits(x, 64), ToBits(y, 64) + ToBits(z, 64));
    AtSplit(s, p + 64, ToBits(y, 64), ToBits(z, 64));
    Read64At(s, p, x);
    Read64At(s, p + 64, y);
    Read64At(s, p + 128, z);
  }

  lemma Read64At(s: Bits, p: nat, v: nat)
    requires At(s, p, ToBits(v, 64))
    ensures ReadN(s, p, 64) == v <==> v < U64
  {
    hide At, ToBits, ReadN, Pow2;
    Pow2Of64();
    ReadNBound(s, p, 64);
    if v < U64 { ReadNSmall(s, p, v, 64); }
  }

  // ---- What the quantization costs, over the reals -------------------------

  /** std::round: halves away from zero. */
  function Round(r: real): int
  {
    if r >= 0.0 then (r + 0.5).Floor else -((-r + 0.5).Floor)
  }

  function AbsReal(r: real): real { if r < 0.0 then -r else r }

  lemma RoundError(r: real)
    ensures AbsReal(Round(r) as real - r) <= 0.5
  {}

  /** The coordinate a reader computes from a scaled integer. */
  function Unscale(c: int, k: real): real
    requires k > 0.0
  {
    c as real / k
  }

  /** Dividing the scaled integer again misses the coordinate by at most half a step. */
  lemma QuantizationError(x: real, scale: real)
    requires scale > 0.0
    ensures AbsReal(Unscale(Round(x * scale), scale) - x) <= 0.5 / scale
  {
    RoundError(x * scale);
    ScaleDown(Round(x * scale) as real, x * scale, scale);
    MulDivCancel(x, scale);
    assert Unscale(Round(x * scale), scale) == Round(x * scale) as real / scale;
  }

  lemma MulDivCancel(x: real, k: real)
    requires k > 0.0
    ensures x * k / k == x
  {}

  lemma ScaleDown(a: real, b: real, k: real)
    requires k > 0.0 && AbsReal(a - b) <= 0.5
    ensures AbsReal(a / k - b / k) <= 0.5 / k
  {
    assert a / k - b / k == (a - b) / k;
    RealDivMono(a - b, 0.5, k);
    RealDivMono(b - a, 0.5, k);
    assert (b - a) / k == -((a - b) / k);
  }

  lemma RealDivMono(a: real, b: real, k: real)
    requires k > 0.0 && a <= b
    ensures a / k <= b / k
  {}

  /** C's fmod: the remainder of a division truncated toward zero. */
  function Fmod360(a: real): real
  {
    var q := a / 360.0;
    a - 360.0 * (if q >= 0.0 then q.Floor as real else -((-q).Floor as real))
  }

  /** The 16-bit compression of one rotation axis, in degrees. */
  function CompressAngle(a: real): nat
  {
    var n := Fmod360(a);
    Round((if n < 0.0 then n + 360.0 else n) * 65536.0 / 360.0) % 0x1_0000
  }

  /** A compressed angle stays within half a step of the angle, up to full turns. */
  lemma AngleError(a: real) returns (turns: int)
    ensures CompressAngle(a) < U16
    ensures AbsReal(a - (CompressAngle(a) as real * 360.0 / 65536.0 + 360.0 * turns as real)) <= 180.0 / 65536.0
  {
    var q := a / 360.0;
    var t := if q >= 0.0 then q.Floor else -((-q).Floor);
    var n := Fmod360(a);
    var m := if n < 0.0 then n + 360.0 else n;
    var w := if n < 0.0 then t - 1 else t;
    assert a == m + 360.0 * w as real;
    var r := Round(m * 65536.0 / 360.0);
    RoundError(m * 65536.0 / 360.0);
    var j := r / 0x1_0000;
    assert r == 0x1_0000 * j + CompressAngle(a);
    turns := w + j;
    assert r as real == 65536.0 * j as real + CompressAngle(a) as real;
  }
}
