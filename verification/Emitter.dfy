/** UdpPacketEmitter::wrap_and_send_with_state: the second packet framer, and its
    agreement with PacketAssembler. */
module Emitter {
  import opened Bits
  import opened Codec
  import opened BitWriters
  import opened Bunches
  import opened ReplayDecoder
  import opened Packet
  import W = WireFormats

  datatype OuterState = OuterState(magic: nat, sessionId: nat, clientIdBits: nat, outSeq: nat, inAckSeq: nat,
                                   customPresent: bool, customField: Str, reserveHint: nat)

  predicate StateFits(o: OuterState)
  {
    && o.magic < U32 && o.sessionId < 256 && o.clientIdBits < 256
    && o.outSeq < U16 && o.inAckSeq < U16 && |o.customField| == 6
  }

  /** The configuration that makes PacketAssembler write the same fields. */
  function AsConfig(o: OuterState): PacketConfig
  {
    PacketConfig(o.magic, o.sessionId, o.clientIdBits, o.outSeq, o.inAckSeq, 1, o.customField, o.customPresent,
                 true, 1023, false, 0)
  }

  /** The emitter's prefix: one history word of ones instead of zeros. */
  function EmitterPrefix(o: OuterState): Bits
  {
    var c := AsConfig(o);
    OuterBits(c) + (ToBits(Packed(c), 32) + ToBits(0xFFFF_FFFF, 32)) + CustomBits(c) + InfoBits(c)
  }

  function EmitterBits(o: OuterState, bunch: Bits): Bits
  {
    Terminated(EmitterPrefix(o) + bunch)
  }

  lemma HoldsWith(d: seq<bv8>, c: Bits, on: bool)
    requires Holds(d, c) && |c| < 8 * |d|
    ensures Holds(d[|c| / 8 := ByteWith(d[|c| / 8], |c| % 8, on)], c + [on])
  {
    var k := |c|;
    BufUpdate(d, k, on);
    var e := d[k / 8 := ByteWith(d[k / 8], k % 8, on)];
    forall i: nat | i < 8 * |e| ensures BufBit(e, i) == (i < |c + [on]| && (c + [on])[i]) {
      assert BufBit(d, i) == (i < |c| && c[i]);
    }
  }

  /** ue5::write_bits on a zeroed tail. The C++ code skips bits that do not fit; the
      precondition says that there are none, and every call below has to prove it. */
  method WriteBits(buf: array<bv8>, ghost c: Bits, off: nat, value: nat, count: nat) returns (next: nat)
    requires Holds(buf[..], c) && off == |c| && off + count <= 8 * buf.Length
    modifies buf
    ensures next == off + count && Holds(buf[..], c + ToBits(value, count))
  {
    hide Holds, ToBits, Mask, Pow2;
    ghost var e := ToBits(value, count);
    assert c + e[..0] == c;
    for i := 0 to count
      invariant Holds(buf[..], c + e[..i])
    {
      ToBitsAt(value, count, i);
      ghost var before := buf[..];
      HoldsWith(before, c + e[..i], e[i]);
      TakeSnoc(e, i);
      Assoc(c, e[..i], [e[i]]);
      SetBufferBit(buf, off + i, (value / Pow2(i)) % 2 == 1);
    }
    assert e[..count] == e;
    next := off + count;
  }

  function Max(a: nat, b: nat): nat { if a < b then b else a }

  /** std::vector::resize: keep the front, and fill with zeros. */
  method Resize(buf: array<bv8>, n: nat) returns (r: array<bv8>)
    ensures fresh(r) && r.Length == n
    ensures forall j :: 0 <= j < n ==> r[j] == if j < buf.Length then buf[j] else 0
  {
    r := new bv8[n](_ => 0);
    forall j | 0 <= j < n && j < buf.Length { r[j] := buf[j]; }
  }

  lemma HoldsResized(d: seq<bv8>, e: seq<bv8>, c: Bits)
    requires Holds(d, c) && |c| <= 8 * |e|
    requires forall j :: 0 <= j < |e| ==> e[j] == if j < |d| then d[j] else 0
    ensures Holds(e, c)
  {
    forall i: nat | i < 8 * |e| ensures BufBit(e, i) == (i < |c| && c[i]) {
      if i < 8 * |d| { assert BufBit(d, i) == (i < |c| && c[i]); } else { ZeroByteBit(i % 8); }
    }
  }

  /** The bytes handed to the send callback: a packet with the emitter's prefix. */
  method WrapPacket(o: OuterState, bw: seq<bv8>, bunchBits: nat) returns (buf: array<bv8>)
    requires StateFits(o) && bunchBits <= 8 * |bw|
    ensures BytesToBits(buf[..]) == EmitterBits(o, BytesToBits(bw)[..bunchBits])
    ensures buf.Length == (116 + (if o.customPresent then 48 else 0) + bunchBits + 7) / 8
  {
    hide Holds, EmitterPrefix, BytesToBits, StateFits;
    ghost var bunch := BytesToBits(bw)[..bunchBits];
    ghost var prefix := EmitterPrefix(o);
    var bunchBytes := (bunchBits + 7) / 8;
    buf := new bv8[Max(o.reserveHint, bunchBytes + 64)](_ => 0);
    HoldsZero(buf[..]);
    var off := EmitPrefix(o, buf);
    var neededBytes := (off + bunchBits + 1 + 7) / 8 + 2;
    if buf.Length < neededBytes {
      ghost var before := buf[..];
      buf := Resize(buf, neededBytes);
      HoldsResized(before, buf[..], prefix);
    }
    PrefixLength(o);
    off := EmitBunch(buf, prefix, off, bw, bunchBits);
    ghost var body := prefix + bunch;
    off := WriteBits(buf, body, off, 1, 1);
    off := WriteBits(buf, body + ToBits(1, 1), off, 1, 1);
    TwoOnes(body);
    var finalBytes := (off + 7) / 8;
    ghost var full := buf[..];
    buf := Resize(buf, finalBytes);
    HoldsResized(full, buf[..], body + [true, true]);
    HoldsPadded(buf[..], body);
  }

  /** The reserve is always enough: with at least 64 bytes beyond the bunch, the
      buffer never has to grow between the prefix and the bunch. */
  lemma ReserveSuffices(o: OuterState, bunchBits: nat)
    requires StateFits(o)
    ensures (|EmitterPrefix(o)| + bunchBits + 1 + 7) / 8 + 2 <= Max(o.reserveHint, (bunchBits + 7) / 8 + 64)
  {
    hide EmitterPrefix;
    PrefixLength(o);
  }

  lemma TwoOnes(body: Bits)
    ensures body + ToBits(1, 1) + ToBits(1, 1) == body + [true, true]
  {
    assert ToBits(1, 1) == [true];
  }

  lemma HoldsPadded(d: seq<bv8>, body: Bits)
    requires Holds(d, body + [true, true]) && |d| == (|body| + 2 + 7) / 8
    ensures BytesToBits(d) == Terminated(body)
  {
    var c := body + [true, true];
    forall i: nat | i < 8 * |d| ensures BytesToBits(d)[i] == Terminated(body)[i] {
      assert BufBit(d, i) == (i < |c| && c[i]);
    }
  }

  lemma PrefixLength(o: OuterState)
    requires StateFits(o)
    ensures |EmitterPrefix(o)| == if o.customPresent then 162 else 114
  {
    hide ToBits, Chars;
  }

  method EmitPrefix(o: OuterState, buf: array<bv8>) returns (off: nat)
    requires StateFits(o) && Holds(buf[..], []) && buf.Length >= 64
    modifies buf
    ensures off == |EmitterPrefix(o)| && Holds(buf[..], EmitterPrefix(o))
  {
    hide Holds, ToBits, Chars, Packed, OuterBits, CustomBits, InfoBits;
    ghost var c := AsConfig(o);
    OuterLength(c);
    off := EmitOuter(o, buf);
    var packed := o.outSeq % 0x4000 * 0x4_0000 + o.inAckSeq % 0x4000 * 16 + (1 - 1) % 16;
    PackedIs(o);
    off := WriteBits(buf, OuterBits(c), off, packed, 32);
    off := WriteBits(buf, OuterBits(c) + ToBits(packed, 32), off, 0xFFFF_FFFF, 32);
    ghost var d := OuterBits(c) + (ToBits(packed, 32) + ToBits(0xFFFF_FFFF, 32));
    Assoc(OuterBits(c), ToBits(packed, 32), ToBits(0xFFFF_FFFF, 32));
    CustomLength(o);
    off := EmitCustom(o, buf, d, off);
    off := EmitInfo(o, buf, d + CustomBits(c), off);
  }

  lemma CustomLength(o: OuterState)
    requires StateFits(o)
    ensures |CustomBits(AsConfig(o))| <= 48
  {
    hide ToBits;
  }

  lemma PackedIs(o: OuterState)
    ensures Packed(AsConfig(o)) == o.outSeq % 0x4000 * 0x4_0000 + o.inAckSeq % 0x4000 * 16 + (1 - 1) % 16
  {}

  lemma OuterLength(c: PacketConfig)
    ensures |OuterBits(c)| == 38
  {
    hide ToBits;
  }

  method EmitOuter(o: OuterState, buf: array<bv8>) returns (off: nat)
    requires StateFits(o) && Holds(buf[..], []) && buf.Length >= 64
    modifies buf
    ensures off == |OuterBits(AsConfig(o))| && Holds(buf[..], OuterBits(AsConfig(o)))
  {
    hide Holds, ToBits;
    ghost var a, b, c := ToBits(o.magic, 32), ToBits(o.sessionId, 2), ToBits(o.clientIdBits, 3);
    off := WriteBits(buf, [], 0, o.magic, 32);
    assert [] + a == a;
    off := WriteBits(buf, a, off, o.sessionId, 2);
    off := WriteBits(buf, a + b, off, o.clientIdBits, 3);
    off := WriteBits(buf, a + b + c, off, 0, 1);
    OneBit(false);
  }

  lemma OneBit(b: bool)
    ensures ToBits(B2N(b), 1) == [b]
  {}

  method EmitCustom(o: OuterState, buf: array<bv8>, ghost d: Bits, off: nat) returns (next: nat)
    requires StateFits(o) && Holds(buf[..], d) && off == |d| && off + 48 <= 8 * buf.Length
    modifies buf
    ensures next == |d + CustomBits(AsConfig(o))| && Holds(buf[..], d + CustomBits(AsConfig(o)))
  {
    hide Holds, ToBits;
    next := off;
    var t := o.customField;
    assert d + [] == d;
    if o.customPresent {
      for i := 0 to 6
        invariant next == off + 8 * i && Holds(buf[..], d + Chars(t[..i]))
      {
        next := WriteBits(buf, d + Chars(t[..i]), next, t[i], 8);
        assert t[..i + 1][..i] == t[..i];
        Assoc(d, Chars(t[..i]), ToBits(t[i], 8));
      }
      assert t[..6] == t;
    }
  }

  method EmitInfo(o: OuterState, buf: array<bv8>, ghost d: Bits, off: nat) returns (next: nat)
    requires Holds(buf[..], d) && off == |d| && off + 12 <= 8 * buf.Length
    modifies buf
    ensures next == |d + InfoBits(AsConfig(o))| && Holds(buf[..], d + InfoBits(AsConfig(o)))
  {
    hide Holds, ToBits;
    next := WriteBits(buf, d, off, 1, 1);
    OneBit(true);
    next := WriteBits(buf, d + [true], next, 1023, 10);
    Assoc(d, [true], ToBits(1023, 10));
    next := WriteBits(buf, d + ([true] + ToBits(1023, 10)), next, 0, 1);
    OneBit(false);
    Assoc(d, [true] + ToBits(1023, 10), [false]);
  }

  /** Copy the bunch bits one at a time. */
  method EmitBunch(buf: array<bv8>, ghost d: Bits, off: nat, bw: seq<bv8>, bunchBits: nat) returns (next: nat)
    requires Holds(buf[..], d) && off == |d| && bunchBits <= 8 * |bw| && off + bunchBits <= 8 * buf.Length
    modifies buf
    ensures next == off + bunchBits && Holds(buf[..], d + BytesToBits(bw)[..bunchBits])
  {
    hide Holds, ToBits, ByteBit;
    ghost var e := BytesToBits(bw);
    next := off;
    assert d + e[..0] == d;
    for i := 0 to bunchBits
      invariant next == off + i && Holds(buf[..], d + e[..i])
    {
      var bit := ByteBit(bw[i / 8], i % 8);
      assert e[i] == bit;
      next := WriteBits(buf, d + e[..i], next, if bit then 1 else 0, 1);
      OneBit(bit);
      TakeSnoc(e, i);
      Assoc(d, e[..i], [e[i]]);
    }
  }

  // ---- The two framers agree ------------------------------------------------------------

  lemma {:induction false} OnesBits(n: nat, i: nat)
    requires i < n
    ensures ToBits(Pow2(n) - 1, n)[i]
  {
    var v := Pow2(n) - 1;
    assert v % 2 == 1 && v / 2 == Pow2(n - 1) - 1;
    hide Pow2;
    if i > 0 { OnesBits(n - 1, i - 1); }
    assert ToBits(v, n) == [true] + ToBits(Pow2(n - 1) - 1, n - 1);
  }

  /** Bit for bit the two prefixes differ only in the history word: bits 70 to 101. */
  lemma PrefixesAgree(o: OuterState)
    requires StateFits(o)
    ensures EmitterPrefix(o) == Overwrite(PrefixBits(AsConfig(o)), 70, ToBits(0xFFFF_FFFF, 32))
    ensures |PrefixBits(AsConfig(o))| == |EmitterPrefix(o)| >= 102
  {
    hide ToBits, Chars, Packed;
    var c := AsConfig(o);
    OuterLength(c);
    var tail := CustomBits(c) + InfoBits(c);
    var front := OuterBits(c) + ToBits(Packed(c), 32);
    assert PrefixBits(c) == front + Zeros(32) + tail by {
      Assoc(OuterBits(c), ToBits(Packed(c), 32), Zeros(32));
      Assoc(front + Zeros(32), CustomBits(c), InfoBits(c));
    }
    assert EmitterPrefix(o) == front + ToBits(0xFFFF_FFFF, 32) + tail by {
      Assoc(OuterBits(c), ToBits(Packed(c), 32), ToBits(0xFFFF_FFFF, 32));
      Assoc(front + ToBits(0xFFFF_FFFF, 32), CustomBits(c), InfoBits(c));
    }
    SpliceWord(front, Zeros(32), ToBits(0xFFFF_FFFF, 32), tail);
  }

  lemma SpliceWord(front: Bits, old_: Bits, word: Bits, tail: Bits)
    requires |old_| == |word|
    ensures Overwrite(front + old_ + tail, |front|, word) == front + word + tail
  {}

  lemma OverwriteInFront(a: Bits, b: Bits, pos: nat, e: Bits)
    requires pos + |e| <= |a|
    ensures Overwrite(a + b, pos, e) == Overwrite(a, pos, e) + b
  {}

  /** What the emitter's bits say: the fields of the state at their places, a history of
      one word of ones, jitter 1023 and no server frame. */
  lemma EmitterWire(o: OuterState, bunch: Bits)
    requires StateFits(o)
    ensures var b := EmitterBits(o, bunch); var q := if o.customPresent then 150 else 102;
            && q + 12 + |bunch| + 2 <= |b| < q + 12 + |bunch| + 10 && |b| % 8 == 0
            && At(b, 0, ToBits(o.magic, 32))
            && At(b, 32, ToBits(o.sessionId, 2)) && At(b, 34, ToBits(o.clientIdBits, 3))
            && !b[37] && At(b, 38, ToBits(0, 4)) && At(b, 42, ToBits(o.inAckSeq, 14)) && At(b, 56, ToBits(o.outSeq, 14))
            && (forall i: nat :: 70 <= i < 102 ==> b[i])
            && (o.customPresent ==> At(b, 102, Chars(o.customField)))
            && b[q] && At(b, q + 1, ToBits(1023, 10)) && !b[q + 11] && At(b, q + 12, bunch)
            && b[q + 12 + |bunch|] && b[q + 12 + |bunch| + 1]
  {
    hide *;
    var b, c := EmitterBits(o, bunch), AsConfig(o);
    EmitterParts(o, bunch);
    AtSplit4(b, 0, ToBits(o.magic, 32), ToBits(o.sessionId, 2), ToBits(o.clientIdBits, 3), [false]);
    W.PackedWire(c);
    AtSplit3(b, 38, ToBits(0, 4), ToBits(o.inAckSeq, 14), ToBits(o.outSeq, 14));
    W.AtBit(b, 37, false);
    OnesAt(b, 70);
    W.InfoWire(b, if o.customPresent then 150 else 102, c);
  }

  lemma OnesAt(b: Bits, p: nat)
    requires At(b, p, ToBits(0xFFFF_FFFF, 32))
    ensures p + 32 <= |b| && forall i: nat :: p <= i < p + 32 ==> b[i]
  {
    hide ToBits;
    var w := b[p..p + 32];
    Pow2Of32();
    forall i: nat | p <= i < p + 32 ensures b[i] {
      OnesBits(32, i - p);
      assert b[i] == w[i - p];
    }
  }

  lemma EmitterParts(o: OuterState, bunch: Bits)
    requires StateFits(o)
    ensures var b := EmitterBits(o, bunch); var c := AsConfig(o); var q := if o.customPresent then 150 else 102;
            && q + 12 + |bunch| + 2 <= |b| < q + 12 + |bunch| + 10 && |b| % 8 == 0
            && At(b, 0, ToBits(o.magic, 32) + ToBits(o.sessionId, 2) + ToBits(o.clientIdBits, 3) + [false])
            && At(b, 38, ToBits(Packed(c), 32)) && At(b, 70, ToBits(0xFFFF_FFFF, 32))
            && (o.customPresent ==> At(b, 102, Chars(o.customField))) && At(b, q, InfoBits(c))
            && At(b, q + 12, bunch) && b[q + 12 + |bunch|] && b[q + 12 + |bunch| + 1]
            && c.outSeq == o.outSeq && c.inAckSeq == o.inAckSeq && (c.histCount - 1) % 16 == 0
            && c.hasPktInfo && c.jitterMs == 1023 && !c.hasSrvFrame
  {
    hide ToBits, At, Chars, Packed;
    var b, c, prefix := EmitterBits(o, bunch), AsConfig(o), EmitterPrefix(o);
    PrefixLength(o);
    W.Whole(b);
    var tail := [true, true] + Zeros(Pad(|prefix + bunch| + 2));
    Assoc(prefix + bunch, [true, true], Zeros(Pad(|prefix + bunch| + 2)));
    AtSplit3(b, 0, prefix, bunch, tail);
    var notify := ToBits(Packed(c), 32) + ToBits(0xFFFF_FFFF, 32);
    AtSplit4(b, 0, OuterBits(c), notify, CustomBits(c), InfoBits(c));
    AtSplit(b, 38, ToBits(Packed(c), 32), ToBits(0xFFFF_FFFF, 32));
  }

  /** So a reader of packets finds exactly the state, masked to the field widths. */
  lemma EmitterRoundTrip(o: OuterState, bunch: Bits)
    requires StateFits(o)
    ensures ReadPrefix(EmitterBits(o, bunch), o.customPresent)
         == PacketRead(o.magic, o.sessionId % 4, o.clientIdBits % 8, false, o.outSeq % 0x4000, o.inAckSeq % 0x4000, 1,
                       if o.customPresent then o.customField else [], true, 1023, false, 0,
                       if o.customPresent then 162 else 114)
  {
    hide ToBits, At, Chars, Packed, ReadN, Peek, ReadInfo, ReadBytes, EmitterBits, InfoBits, StateFits;
    var b, c := EmitterBits(o, bunch), AsConfig(o);
    EmitterParts(o, bunch);
    assert ConfigFits(c) by { ConfigOf(o); }
    OuterIs(b, c);
    WordIs(b, 38, c);
    PackedFields(c);
    HistCountExact(c);
    if o.customPresent { CharsRoundTrip(b, 102, o.customField); }
    InfoIs(b, if o.customPresent then 150 else 102, c);
    TwelveBits(c);
    SixBytes(o);
  }

  lemma ConfigOf(o: OuterState)
    requires StateFits(o)
    ensures ConfigFits(AsConfig(o))
  {}

  lemma SixBytes(o: OuterState)
    requires StateFits(o)
    ensures |o.customField| == 6
  {}

  lemma TwelveBits(c: PacketConfig)
    requires c.hasPktInfo && !c.hasSrvFrame
    ensures |InfoBits(c)| == 12
  {
    hide ToBits;
  }

  lemma WordIs(b: Bits, p: nat, c: PacketConfig)
    requires At(b, p, ToBits(Packed(c), 32))
    ensures ReadN(b, p, 32) == Packed(c)
  {
    hide At, ToBits, ReadN, Packed;
    PackedFields(c);
    Pow2Of32();
    ReadNSmall(b, p, Packed(c), 32);
  }

  /** A configuration with the fields of the state, one history word, jitter 1023 and no
      server frame. */
  predicate SameFields(o: OuterState, c: PacketConfig)
  {
    && c.magic == o.magic && c.sessionId == o.sessionId && c.clientId == o.clientIdBits
    && c.outSeq == o.outSeq && c.inAckSeq == o.inAckSeq && c.histCount == 1
    && c.customValid == o.customPresent && (o.customPresent ==> c.customField == o.customField)
    && c.hasPktInfo && c.jitterMs == 1023 && !c.hasSrvFrame
  }

  /** Main law: for every configuration with the same fields, the emitter's bytes are the
      assembler's but for bits 70 to 101, which are ones in the one and zeros in the other. */
  lemma FramersAgree(o: OuterState, c: PacketConfig, bs: seq<Bunch>, d: seq<bv8>, e: seq<bv8>)
    requires StateFits(o) && SameFields(o, c)
    requires BytesToBits(d) == EmitterBits(o, BunchesBits(bs)) && BytesToBits(e) == PacketBits(c, bs)
    ensures |d| == |e|
    ensures 102 <= 8 * |e| && BytesToBits(d) == Overwrite(BytesToBits(e), 70, ToBits(0xFFFF_FFFF, 32))
    ensures forall k: nat :: 70 <= k < 102 ==> BytesToBits(d)[k] && !BytesToBits(e)[k]
    ensures forall k: nat :: k < 8 * |d| && !(70 <= k < 102) ==> BytesToBits(d)[k] == BytesToBits(e)[k]
    ensures forall j: nat :: j < |d| && (8 * j + 8 <= 70 || 102 <= 8 * j) ==> d[j] == e[j]
  {
    hide EmitterBits, PacketBits, BunchesBits, ToBits, At, AsConfig, StateFits, Chars;
    SameBits(o, c, bs);
    BitsAgree(o, bs);
    EmitterWire(o, BunchesBits(bs));
    ConfigOf(o);
    forall k: nat | 70 <= k < 102 ensures !BytesToBits(e)[k] {
      OneWord(o);
      W.HistoryClear(AsConfig(o), bs, k - 70);
    }
    var word := ToBits(0xFFFF_FFFF, 32);
    forall j: nat | j < |d| && (8 * j + 8 <= 70 || 102 <= 8 * j) ensures d[j] == e[j] {
      SameByte(d, e, word, j);
    }
  }

  lemma OneWord(o: OuterState)
    ensures AsConfig(o).histCount == 1
  {}

  lemma SameBits(o: OuterState, c: PacketConfig, bs: seq<Bunch>)
    requires SameFields(o, c)
    ensures PacketBits(c, bs) == PacketBits(AsConfig(o), bs)
  {
    hide ToBits, Chars, BunchesBits, Terminated;
  }

  lemma BitsAgree(o: OuterState, bs: seq<Bunch>)
    requires StateFits(o)
    ensures 102 <= |PacketBits(AsConfig(o), bs)|
    ensures EmitterBits(o, BunchesBits(bs)) == Overwrite(PacketBits(AsConfig(o), bs), 70, ToBits(0xFFFF_FFFF, 32))
  {
    hide ToBits, EmitterPrefix, PrefixBits, BunchesBits, Overwrite;
    var p, q, x, word := PrefixBits(AsConfig(o)), EmitterPrefix(o), BunchesBits(bs), ToBits(0xFFFF_FFFF, 32);
    PrefixesAgree(o);
    OverwriteInFront(p, x, 70, word);
    OverwriteInFront(p + x, [true, true], 70, word);
    OverwriteInFront(p + x + [true, true], Zeros(Pad(|p + x| + 2)), 70, word);
  }

  lemma SameByte(d: seq<bv8>, e: seq<bv8>, word: Bits, j: nat)
    requires |word| == 32 && 102 <= 8 * |e| && BytesToBits(d) == Overwrite(BytesToBits(e), 70, word)
    requires j < |d| && (8 * j + 8 <= 70 || 102 <= 8 * j)
    ensures j < |e| && d[j] == e[j]
  {
    forall k: nat | k < 8 ensures ByteBit(d[j], k) == ByteBit(e[j], k) {
      assert BytesToBits(d)[8 * j + k] == BufBit(d, 8 * j + k);
      assert BytesToBits(e)[8 * j + k] == BufBit(e, 8 * j + k);
    }
    ByteExt(d[j], e[j]);
  }
}
