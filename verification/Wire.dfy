/** The wire formats themselves, field by field and at literal positions: what each
    writer puts where, said of the values alone. */
module WireFormats {
  import opened Bits
  import opened Codec
  import opened Adaptive
  import opened Bunches
  import B = BunchBuffers
  import X = Exports
  import N = NewActor
  import K = Packet

  lemma Whole(e: Bits)
    ensures At(e, 0, e)
  {}

  /** Only the low bits of a number are written. */
  lemma ToBitsMod(v: nat, n: nat)
    ensures ToBits(v % Pow2(n), n) == ToBits(v, n)
  {
    FromToBits(v, n);
    ToFromBits(ToBits(v, n));
  }

  lemma {:induction false} ToBitsSplit(v: nat, m: nat, q: nat, n: nat)
    requires q == v / Pow2(m)
    ensures ToBits(v, m + n) == ToBits(v, m) + ToBits(q, n)
    decreases m
  {
    if m > 0 {
      HalfShift(v, m - 1);
      ToBitsSplit(v / 2, m - 1, q, n);
    }
  }

  // ---- Numbers ---------------------------------------------------------------------------

  /** Byte i of a SIP: its lowest bit says whether another byte follows, and the seven
      above it are bits 7i to 7i + 6 of the number. */
  lemma {:induction false} SipWire(v: nat, i: nat, j: nat)
    requires i < SipBytes(v) && j < 7
    ensures |Sip(v)| == 8 * SipBytes(v)
    ensures Sip(v)[8 * i] == (i + 1 < SipBytes(v))
    ensures Sip(v)[8 * i + 1 + j] == ((v / Pow2(7 * i + j)) % 2 == 1)
    decreases i
  {
    hide ToBits, Sip, SipBytes, Pow2;
    SipStep(v);
    SipLength(v);
    if i == 0 {
      SipFirst(v, j);
      SipBytesPositive(v);
    } else {
      SipWire(v / 128, i - 1, j);
      SipLength(v / 128);
      ShiftSeven(v, i, j);
    }
  }

  lemma SipBytesPositive(v: nat)
    ensures SipBytes(v) >= 1 && (SipBytes(v) > 1 <==> v >= 128)
  {}

  lemma SipFirst(v: nat, j: nat)
    requires j < 7
    ensures ToBits(SipByte(v), 8)[0] == (v >= 128)
    ensures ToBits(SipByte(v), 8)[1 + j] == ((v / Pow2(j)) % 2 == 1)
  {
    var b := SipByte(v);
    assert ToBits(b, 8) == [b % 2 == 1] + ToBits(b / 2, 7);
    assert b / 2 == v % 128 && Pow2(7) == 128 by { Pow2Values(); }
    hide ToBits;
    ToBitsMod(v, 7);
    ToBitsAt(v, 7, j);
  }

  lemma ShiftSeven(v: nat, i: nat, j: nat)
    requires i > 0
    ensures v / 128 / Pow2(7 * (i - 1) + j) == v / Pow2(7 * i + j)
  {
    Pow2Add(7, 7 * (i - 1) + j);
    assert Pow2(7) == 128 by { Pow2Values(); }
    assert 7 + (7 * (i - 1) + j) == 7 * i + j;
    DivDiv(v, 128, Pow2(7 * (i - 1) + j));
  }

  /** Bit i of an adaptive integer is bit i of the number. */
  lemma AdaptiveWire(v: nat, max: nat, i: nat)
    requires i < |AdaptiveInt(v, max)|
    ensures AdaptiveInt(v, max)[i] == ((v / Pow2(i)) % 2 == 1)
  {
    AdaptiveWireFrom(v, max, 0, 0, i);
  }

  lemma {:induction false} AdaptiveWireFrom(v: nat, max: nat, k: nat, acc: nat, i: nat)
    requires i < |AdaptiveFrom(v, max, k, acc)|
    ensures AdaptiveFrom(v, max, k, acc)[i] == BitOf(v, k + i)
    decreases i
  {
    hide BitOf, Plus, Pow2;
    if i > 0 { AdaptiveWireFrom(v, max, k + 1, Plus(acc, k, BitOf(v, k)), i - 1); }
  }

  /** A string: its length with the NUL in 32 bits, then the characters and the NUL in
      eight bits each; for the empty string the zero length alone. */
  lemma FStringWire(t: Str, i: nat)
    ensures At(FString(t), 0, ToBits(if |t| == 0 then 0 else |t| + 1, 32))
    ensures |FString(t)| == if |t| == 0 then 32 else 40 + 8 * |t|
    ensures i < |t| ==> At(FString(t), 32 + 8 * i, ToBits(t[i], 8))
    ensures |t| > 0 ==> At(FString(t), 32 + 8 * |t|, ToBits(0, 8))
  {
    hide ToBits, At, Chars;
    var e := FString(t);
    Whole(e);
    if |t| > 0 {
      assert ToBits((|t| + 1) % U32, 32) == ToBits(|t| + 1, 32) by {
        Pow2Of32();
        ToBitsMod(|t| + 1, 32);
      }
      AtSplit3(e, 0, ToBits(|t| + 1, 32), Chars(t), ToBits(0, 8));
      if i < |t| { CharAt(e, 32, t, i); }
    }
  }

  lemma {:induction false} CharAt(s: Bits, p: nat, t: Str, i: nat)
    requires At(s, p, Chars(t)) && i < |t|
    ensures At(s, p + 8 * i, ToBits(t[i], 8))
    decreases |t|
  {
    hide ToBits, At;
    var n := |t| - 1;
    AtSplit(s, p, Chars(t[..n]), ToBits(t[n], 8));
    if i < n { CharAt(s, p, t[..n], i); }
  }

  // ---- Vectors and rotations ---------------------------------------------------------------

  /** A quantized vector: five bits of width less two, the scaled-value bit set, the
      extra-info bit clear, and three components biased by half the range. The width is
      the least from 2 to 32 whose bias exceeds every component, or 32. */
  lemma QVecWire(v: Vec)
    ensures var e := QVecBits(v); var k := (|e| - 7) / 3;
            && |e| == 7 + 3 * k && 2 <= k <= 32
            && FromBits(e[..5]) == k - 2 && e[5] && !e[6]
            && At(e, 7, ToBits((v.x + Pow2(k - 1)) % U32, k))
            && At(e, 7 + k, ToBits((v.y + Pow2(k - 1)) % U32, k))
            && At(e, 7 + 2 * k, ToBits((v.z + Pow2(k - 1)) % U32, k))
            && (k < 32 ==> Abs(v.x) < Pow2(k - 1) && Abs(v.y) < Pow2(k - 1) && Abs(v.z) < Pow2(k - 1))
            && (k > 2 ==> Abs(v.x) >= Pow2(k - 2) || Abs(v.y) >= Pow2(k - 2) || Abs(v.z) >= Pow2(k - 2))
  {
    hide ToBits, At, BitLength, Pow2;
    var e := QVecBits(v);
    var k := CompBits(AbsMax(v), 2);
    IntWidths();
    Whole(e);
    AtSplit4(e, 0, SerializeInt(k - 2 + 32, 128),
             ToBits(Biased(v.x, k), k), ToBits(Biased(v.y, k), k), ToBits(Biased(v.z, k), k));
    CompBitsLeast(AbsMax(v), 2);
    QVecHeader(k);
    assert e[..7] == ToBits(k + 30, 7) by { AtPrefix(e, ToBits(k + 30, 7)); }
    assert e[..5] == e[..7][..5] && e[5] == e[..7][5] && e[6] == e[..7][6];
  }

  lemma AtPrefix(e: Bits, x: Bits)
    requires At(e, 0, x)
    ensures |x| <= |e| && e[..|x|] == x
  {}

  lemma QVecHeader(k: nat)
    requires 2 <= k <= 32
    ensures FromBits(ToBits(k + 30, 7)[..5]) == k - 2 && ToBits(k + 30, 7)[5] && !ToBits(k + 30, 7)[6]
  {
    hide ToBits;
    assert Pow2(5) == 32 && Pow2(6) == 64;
    ToBitsSplit(k + 30, 5, (k + 30) / 32, 2);
    FromToBits(k + 30, 5);
    ToBitsAt(k + 30, 7, 5);
    ToBitsAt(k + 30, 7, 6);
  }

  /** A rotation: whether pitch, yaw and roll are non-zero, then those that are, in that
      order, in 16 bits each. */
  lemma RotationWire(r: Rotation)
    ensures var e := RotationBits(r);
            var y := if r.pitch != 0 then 19 else 3;
            var z := if r.yaw != 0 then y + 16 else y;
            && |e| == (if r.roll != 0 then z + 16 else z)
            && e[0] == (r.pitch != 0) && e[1] == (r.yaw != 0) && e[2] == (r.roll != 0)
            && (r.pitch != 0 ==> At(e, 3, ToBits(r.pitch, 16)))
            && (r.yaw != 0 ==> At(e, y, ToBits(r.yaw, 16)))
            && (r.roll != 0 ==> At(e, z, ToBits(r.roll, 16)))
  {
    hide ToBits, At;
    var e := RotationBits(r);
    var f := [r.pitch != 0, r.yaw != 0, r.roll != 0];
    Whole(e);
    AtSplit4(e, 0, f, Axis(r.pitch), Axis(r.yaw), Axis(r.roll));
    AtPrefix(e, f);
    assert f == e[..3];
  }

  /** The other layout of a rotation: each axis' flag stands right before its value. */
  lemma RotatorWire(r: Rotation)
    ensures var e := B.RotatorBits(r);
            var y := if r.pitch != 0 then 17 else 1;
            var z := if r.yaw != 0 then y + 17 else y + 1;
            && |e| == (if r.roll != 0 then z + 17 else z + 1)
            && e[0] == (r.pitch != 0) && e[y] == (r.yaw != 0) && e[z] == (r.roll != 0)
            && (r.pitch != 0 ==> At(e, 1, ToBits(r.pitch, 16)))
            && (r.yaw != 0 ==> At(e, y + 1, ToBits(r.yaw, 16)))
            && (r.roll != 0 ==> At(e, z + 1, ToBits(r.roll, 16)))
  {
    hide ToBits, At;
    var e := B.RotatorBits(r);
    Whole(e);
    AtSplit3(e, 0, B.FlaggedAxis(r.pitch), B.FlaggedAxis(r.yaw), B.FlaggedAxis(r.roll));
    var y := |B.FlaggedAxis(r.pitch)|;
    FlaggedAxisWire(e, 0, r.pitch);
    FlaggedAxisWire(e, y, r.yaw);
    FlaggedAxisWire(e, y + |B.FlaggedAxis(r.yaw)|, r.roll);
  }

  lemma FlaggedAxisWire(e: Bits, p: nat, v: nat)
    requires At(e, p, B.FlaggedAxis(v))
    ensures p < |e| && e[p] == (v != 0) && (v != 0 ==> At(e, p + 1, ToBits(v, 16)))
  {
    hide ToBits, At;
    if v != 0 { AtSplit(e, p, [true], ToBits(v, 16)); }
    AtBit(e, p, v != 0);
  }

  /** A conditional vector: one clear bit when absent; otherwise a set bit, whether it is
      quantized, and the quantized vector or three 64-bit values. */
  lemma CondVecWire(c: CondVec)
    ensures var e := CondVecBits(c);
            match c
            case Absent => e == [false]
            case Quantized(v) => e == [true, true] + QVecBits(v)
            case Raw(x, y, z) =>
              |e| == 194 && e[0] && !e[1]
              && At(e, 2, ToBits(x, 64)) && At(e, 66, ToBits(y, 64)) && At(e, 130, ToBits(z, 64))
  {
    hide ToBits, At, QVecBits;
    if c.Raw? {
      var e := CondVecBits(c);
      Whole(e);
      AtSplit4(e, 0, [true, false], ToBits(c.x, 64), ToBits(c.y, 64), ToBits(c.z, 64));
      AtPrefix(e, [true, false]);
      assert e[..2] == [true, false];
    }
  }

  // ---- Exports -------------------------------------------------------------------------------

  /** An export: a null id is one SIP. Otherwise the id and the flags byte; and when bit 0
      of the written byte is set, the outer, the name, and, when bit 2 of the written byte
      is set too, the 32-bit checksum. */
  lemma ObjectWire(e: X.GuidExport)
    ensures e.guid == 0 ==> X.ObjectBits(e) == ToBits(0, 8)
    ensures e.guid != 0 ==>
      var b := X.ObjectBits(e); var f := ToBits(e.flags, 8); var g := |Sip(e.guid)|;
      && At(b, 0, Sip(e.guid)) && At(b, g, f)
      && (!f[0] ==> |b| == g + 8)
      && (f[0] ==>
            var n := g + 8 + |OuterWire(e)| + |FString(e.name)|;
            && At(b, g + 8, OuterWire(e)) && At(b, g + 8 + |OuterWire(e)|, FString(e.name))
            && n <= |b| && b[n..] == if f[2] then ToBits(e.checksum, 32) else [])
  {
    hide *;
    ObjectParts(e);
    if e.guid != 0 {
      var b, f := X.ObjectBits(e), ToBits(e.flags, 8);
      Whole(b);
      if f[0] {
        var front := Sip(e.guid) + f + OuterWire(e) + FString(e.name);
        var check := if f[2] then ToBits(e.checksum, 32) else [];
        AtSplit(b, 0, front, check);
        AtSplit4(b, 0, Sip(e.guid), f, OuterWire(e), FString(e.name));
        TailOf(front, check);
      } else {
        AtSplit(b, 0, Sip(e.guid), f);
      }
    }
  }

  /** The outer of an export: the first of its chain, or an id and a zero flags byte, or
      a null id. */
  function OuterWire(e: X.GuidExport): Bits
  {
    if |e.outerChain| > 0 then X.ObjectBits(e.outerChain[0])
    else if e.outerGuid == 0 then ToBits(0, 8) else Sip(e.outerGuid) + ToBits(0, 8)
  }

  lemma TailOf(a: Bits, b: Bits)
    ensures (a + b)[|a|..] == b
  {}

  lemma ObjectParts(e: X.GuidExport)
    ensures e.guid == 0 ==> X.ObjectBits(e) == ToBits(0, 8)
    ensures e.guid != 0 ==>
      var f := ToBits(e.flags, 8);
      && (!f[0] ==> X.ObjectBits(e) == Sip(e.guid) + f)
      && (f[0] ==> X.ObjectBits(e) == Sip(e.guid) + f + OuterWire(e) + FString(e.name)
                                      + (if f[2] then ToBits(e.checksum, 32) else []))
  {
    hide ToBits, Sip, FString;
    NullSip();
    ToBitsAt(e.flags, 8, 0);
    ToBitsAt(e.flags, 8, 2);
    assert Pow2(0) == 1 && Pow2(2) == 4;
  }

  lemma NullSip()
    ensures Sip(0) == ToBits(0, 8)
  {}

  /** An export list: a clear layout bit, the 32-bit count, and the exports one after another. */
  lemma ExportListWire(e: X.GuidExport, es: seq<X.GuidExport>)
    ensures !X.ExportListBits(es)[0] && At(X.ExportListBits(es), 1, ToBits(|es|, 32))
    ensures |X.ExportListBits([])| == 33
    ensures X.ExportListBits([e] + es)[33..] == X.ObjectBits(e) + X.ExportListBits(es)[33..]
  {
    hide ToBits, X.ObjectBits;
    assert ([e] + es)[1..] == es;
  }

  /** A RepLayout field: handle and checksum in 32 bits each, the export bit, and for an
      exported field its name and its type byte. */
  lemma FieldWire(f: X.RepField)
    ensures var b := X.FieldBits(f);
            && At(b, 0, ToBits(f.handle, 32)) && At(b, 32, ToBits(f.compat, 32)) && |b| >= 65 && b[64] == f.exported
            && b[65..] == if f.exported then FString(f.name) + ToBits(f.kind, 8) else []
  {
    hide ToBits, FString, At;
    var b := X.FieldBits(f);
    var rest := if f.exported then FString(f.name) + ToBits(f.kind, 8) else [];
    if f.exported { Assoc([true], FString(f.name), ToBits(f.kind, 8)); }
    assert X.FieldTail(f) == [f.exported] + rest;
    Assoc(ToBits(f.handle, 32) + ToBits(f.compat, 32), [f.exported], rest);
    Whole(b);
    AtSplit4(b, 0, ToBits(f.handle, 32), ToBits(f.compat, 32), [f.exported], rest);
    AtBit(b, 64, f.exported);
    TailOf(ToBits(f.handle, 32) + ToBits(f.compat, 32) + [f.exported], rest);
  }

  /** A RepLayout export: its path index in 32 bits, the export bit, and for an exported
      one its path name, its 32-bit field count and its fields. */
  lemma RepWire(e: X.RepExport)
    ensures var b := X.RepBits(e);
            && At(b, 0, ToBits(e.pathIndex, 32)) && |b| >= 33 && b[32] == e.exported
            && b[33..] == if e.exported then FString(e.pathName) + (ToBits(|e.fields|, 32) + X.FieldsBits(e.fields))
                          else []
  {
    hide ToBits, FString, X.FieldsBits, At;
    var b := X.RepBits(e);
    var rest := if e.exported then FString(e.pathName) + (ToBits(|e.fields|, 32) + X.FieldsBits(e.fields)) else [];
    if e.exported { Assoc3([true], FString(e.pathName), ToBits(|e.fields|, 32), X.FieldsBits(e.fields)); }
    assert X.RepTail(e) == [e.exported] + rest;
    Assoc(ToBits(e.pathIndex, 32), [e.exported], rest);
    Whole(b);
    AtSplit3(b, 0, ToBits(e.pathIndex, 32), [e.exported], rest);
    AtBit(b, 32, e.exported);
    TailOf(ToBits(e.pathIndex, 32) + [e.exported], rest);
  }

  lemma RepListWire(e: X.RepExport, es: seq<X.RepExport>, f: X.RepField, fs: seq<X.RepField>)
    ensures X.RepListBits(es)[0] && At(X.RepListBits(es), 1, ToBits(|es|, 32)) && |X.RepListBits([])| == 33
    ensures X.RepListBits([e] + es)[33..] == X.RepBits(e) + X.RepListBits(es)[33..]
    ensures X.FieldsBits([]) == [] && X.FieldsBits([f] + fs) == X.FieldBits(f) + X.FieldsBits(fs)
  {
    hide ToBits, X.RepBits, X.FieldBits;
    assert ([e] + es)[1..] == es && ([f] + fs)[1..] == fs;
  }

  /** A must-be-mapped list: the low 16 bits of its count, and the SIPs of its ids. */
  lemma MustMapWire(g: nat, gs: seq<nat>)
    ensures At(X.MustMapBits(gs), 0, ToBits(|gs|, 16)) && |X.MustMapBits([])| == 16
    ensures X.MustMapBits([g] + gs)[16..] == Sip(g) + X.MustMapBits(gs)[16..]
  {
    ToBitsMod(|gs|, 16);
    Pow2Of16();
    hide ToBits, Sip;
    assert ([g] + gs)[1..] == gs;
  }

  // ---- Actors --------------------------------------------------------------------------------

  /** An actor: its id, and for a dynamic one the archetype, the level, the location, the
      rotation bit with its rotation, the scale and the velocity, in this order. */
  lemma ActorWire(a: N.Actor)
    ensures !a.isDynamic ==> N.ActorBits(a) == Sip(a.guid)
    ensures a.isDynamic ==>
      N.ActorBits(a) == Sip(a.guid) + Sip(a.archetype) + Sip(a.level)
                        + (CondVecBits(a.location)
                           + (if a.hasRotation then [true] + RotationBits(a.rotation) else [false])
                           + CondVecBits(if a.hasScale then Quantized(a.scale) else Absent)
                           + CondVecBits(if a.hasVelocity then Quantized(a.velocity) else Absent))
  {
    hide Sip, CondVecBits, RotationBits;
  }

  /** A movement delta: the flags byte 0x2C, the SIP of the number of bits behind it, and
      location, pitch, yaw, roll and velocity. */
  lemma MovementWire(m: N.Movement)
    ensures var b := N.MovementBits(m); var l := |QVecBits(m.location)|;
            var rest := l + 24 + |QVecBits(m.velocity)|; var q := 8 + |Sip(rest)|;
            && |b| == q + rest && At(b, 0, ToBits(0x2C, 8)) && At(b, 8, Sip(rest))
            && At(b, q, QVecBits(m.location)) && At(b, q + l, ToBits(m.pitch, 8))
            && At(b, q + l + 8, ToBits(m.yaw, 8)) && At(b, q + l + 16, ToBits(m.roll, 8))
            && At(b, q + l + 24, QVecBits(m.velocity))
  {
    hide ToBits, Sip, QVecBits, At;
    var b := N.MovementBits(m);
    var body := N.MovementBody(m);
    var q := 8 + |Sip(|body|)|;
    var angles := ToBits(m.pitch, 8) + ToBits(m.yaw, 8) + ToBits(m.roll, 8);
    Whole(b);
    AtSplit3(b, 0, ToBits(0x2C, 8), Sip(|body|), body);
    AtSplit3(b, q, QVecBits(m.location), angles, QVecBits(m.velocity));
    AtSplit3(b, q + |QVecBits(m.location)|, ToBits(m.pitch, 8), ToBits(m.yaw, 8), ToBits(m.roll, 8));
  }

  // ---- Bunches ---------------------------------------------------------------------------------

  /** The control bits of a bunch: control, and under it open, close, and under that the
      three low bits of the reason; then paused and reliable. */
  lemma ControlWire(h: BunchHeader)
    ensures var b := ControlBits(h); var q := if !h.control then 1 else if !h.close then 3 else 6;
            && |b| == q + 2 && b[0] == h.control && b[q] == h.replPaused && b[q + 1] == h.reliable
            && (h.control ==> b[1] == h.open && b[2] == h.close)
            && (h.control && h.close ==> At(b, 3, ToBits(h.closeReason, 3)))
  {
    IntWidths();
    hide ToBits;
  }

  /** A bunch: its control bits, the channel's SIP, exports, must-map and partial, ten
      sequence bits when reliable, the name when reliable or open, with its kind in front,
      and the payload behind its length. */
  lemma BunchWire(h: BunchHeader, payload: Bits)
    ensures var b := BunchBits(h, payload);
            var c := |ControlBits(h)|; var f := c + |Sip(h.chIndex)|;
            var m := if h.reliable then f + 13 else f + 3;
            var name := if !h.reliable && !h.open then []
                        else if h.nameHardcoded then [true] + Sip(h.nameIndex) else [false] + FString(h.nameString);
            && At(b, 0, ControlBits(h)) && At(b, c, Sip(h.chIndex))
            && m <= |b| && b[f] == h.hasExports && b[f + 1] == h.hasMustMap && b[f + 2] == h.partial
            && (h.reliable ==> At(b, f + 3, ToBits(h.chSequence, 10)))
            && b[m..] == name + PayloadBits(payload)
  {
    hide ToBits, Sip, FString, At, ControlBits, PayloadBits;
    var b := BunchBits(h, payload);
    var tail := PayloadBits(payload);
    assert b == ControlBits(h) + Sip(h.chIndex) + FlagBits(h) + NameBits(h) + tail;
    Whole(b);
    AtSplit(b, 0, ControlBits(h) + Sip(h.chIndex) + FlagBits(h) + NameBits(h), tail);
    AtSplit4(b, 0, ControlBits(h), Sip(h.chIndex), FlagBits(h), NameBits(h));
    var f := |ControlBits(h)| + |Sip(h.chIndex)|;
    FlagsSplit(b, f, h);
    Assoc(ControlBits(h) + Sip(h.chIndex) + FlagBits(h), NameBits(h), tail);
  }

  /** A payload: the low 13 bits of its length and all its bits; of one with 65536 bits or
      more, what is left of the length after a cast to 16 bits, and so many bits. */
  lemma PayloadWire(payload: Bits, n: nat)
    requires n == |payload| % 0x1_0000 && n <= |payload|
    ensures PayloadBits(payload) == ToBits(n, 13) + payload[..n]
    ensures |payload| < 0x1_0000 ==> PayloadBits(payload) == ToBits(|payload|, 13) + payload
  {
    hide ToBits;
    if |payload| < 0x1_0000 { assert payload[..|payload|] == payload; }
  }

  lemma FlagsSplit(b: Bits, f: nat, h: BunchHeader)
    requires At(b, f, FlagBits(h))
    ensures |FlagBits(h)| == (if h.reliable then 13 else 3) && f + |FlagBits(h)| <= |b|
    ensures b[f] == h.hasExports && b[f + 1] == h.hasMustMap && b[f + 2] == h.partial
    ensures h.reliable ==> At(b, f + 3, ToBits(h.chSequence, 10))
  {
    hide ToBits;
    var g := [h.hasExports, h.hasMustMap, h.partial];
    AtSplit(b, f, g, SequenceBits(h));
    assert b[f..f + 3] == g;
  }

  // ---- Packets ---------------------------------------------------------------------------------

  /** The bits in front of the bunches, at their places: magic, session, client and a clear
      handshake bit; the notify word, lowest field first; a clear word for each history
      entry; the custom bytes; the packet info and the server frame. */
  lemma PrefixWire(c: K.PacketConfig)
    requires K.ConfigFits(c)
    ensures var b := K.PrefixBits(c);
            var q := 70 + 32 * c.histCount; var r := if c.customValid then q + 48 else q;
            var t := if c.hasPktInfo then r + 11 else r + 1;
            && |b| == (if c.hasSrvFrame then t + 9 else t + 1)
            && At(b, 0, ToBits(c.magic, 32)) && At(b, 32, ToBits(c.sessionId, 2)) && At(b, 34, ToBits(c.clientId, 3))
            && !b[37]
            && At(b, 38, ToBits((c.histCount - 1) % 16, 4)) && At(b, 42, ToBits(c.inAckSeq, 14))
            && At(b, 56, ToBits(c.outSeq, 14))
            && (forall i: nat :: 70 <= i < q ==> !b[i])
            && (c.customValid ==> At(b, q, Chars(c.customField)))
            && b[r] == c.hasPktInfo && (c.hasPktInfo ==> At(b, r + 1, ToBits(c.jitterMs, 10)))
            && b[t] == c.hasSrvFrame && (c.hasSrvFrame ==> At(b, t + 1, ToBits(c.frameTime, 8)))
  {
    hide *;
    var b := K.PrefixBits(c);
    PrefixParts(c);
    AtSplit4(b, 0, ToBits(c.magic, 32), ToBits(c.sessionId, 2), ToBits(c.clientId, 3), [false]);
    AtSplit(b, 38, ToBits(K.Packed(c), 32), K.Zeros(32 * c.histCount));
    PackedWire(c);
    AtSplit3(b, 38, ToBits((c.histCount - 1) % 16, 4), ToBits(c.inAckSeq, 14), ToBits(c.outSeq, 14));
    AtBit(b, 37, false);
    ZerosAt(b, 70, 32 * c.histCount);
    InfoWire(b, 70 + 32 * c.histCount + |K.CustomBits(c)|, c);
  }

  lemma PrefixParts(c: K.PacketConfig)
    requires K.ConfigFits(c)
    ensures var b := K.PrefixBits(c); var q := 70 + 32 * c.histCount;
            var r := if c.customValid then q + 48 else q;
            && At(b, 0, ToBits(c.magic, 32) + ToBits(c.sessionId, 2) + ToBits(c.clientId, 3) + [false])
            && At(b, 38, ToBits(K.Packed(c), 32) + K.Zeros(32 * c.histCount))
            && |K.CustomBits(c)| == r - q && (c.customValid ==> At(b, q, Chars(c.customField)))
            && At(b, r, K.InfoBits(c)) && |b| == r + |K.InfoBits(c)|
  {
    hide ToBits, At, Chars, K.Packed, K.InfoBits;
    var b := K.PrefixBits(c);
    Whole(b);
    AtSplit4(b, 0, K.OuterBits(c), K.NotifyBits(c), K.CustomBits(c), K.InfoBits(c));
  }

  lemma AtBit(b: Bits, p: nat, x: bool)
    requires At(b, p, [x])
    ensures p < |b| && b[p] == x
  {
    ReadBitAt(b, p, x);
  }

  lemma ZerosAt(b: Bits, p: nat, n: nat)
    requires At(b, p, K.Zeros(n))
    ensures p + n <= |b| && forall i: nat :: p <= i < p + n ==> !b[i]
  {
    var w := b[p..p + n];
    forall i: nat | p <= i < p + n ensures !b[i] { assert b[i] == w[i - p]; }
  }

  lemma InfoWire(b: Bits, r: nat, c: K.PacketConfig)
    requires At(b, r, K.InfoBits(c))
    ensures var t := if c.hasPktInfo then r + 11 else r + 1;
            && |K.InfoBits(c)| == (if c.hasSrvFrame then t + 9 else t + 1) - r && t < |b|
            && b[r] == c.hasPktInfo && (c.hasPktInfo ==> At(b, r + 1, ToBits(c.jitterMs, 10)))
            && b[t] == c.hasSrvFrame && (c.hasSrvFrame ==> At(b, t + 1, ToBits(c.frameTime, 8)))
  {
    hide ToBits, At;
    var t := r + |K.PktInfoBits(c)|;
    AtSplit(b, r, K.PktInfoBits(c), K.SrvFrameBits(c));
    if c.hasPktInfo { AtSplit(b, r, [true], ToBits(c.jitterMs, 10)); }
    AtBit(b, r, c.hasPktInfo);
    if c.hasSrvFrame { AtSplit(b, t, [true], ToBits(c.frameTime, 8)); }
    AtBit(b, t, c.hasSrvFrame);
  }

  lemma PackedWire(c: K.PacketConfig)
    ensures ToBits(K.Packed(c), 32) == ToBits((c.histCount - 1) % 16, 4) + ToBits(c.inAckSeq, 14) + ToBits(c.outSeq, 14)
  {
    hide ToBits;
    var a, b, k := c.outSeq % 0x4000, c.inAckSeq % 0x4000, (c.histCount - 1) % 16;
    var p := K.Packed(c);
    assert Pow2(4) == 16 && Pow2(14) == 0x4000 by { Pow2Values(); }
    K.Unpack(a, b, k);
    ToBitsSplit(p, 4, p / 16, 28);
    ToBitsSplit(p / 16, 14, p / 16 / 0x4000, 14);
    DivDiv(p, 16, 0x4000);
    assert p / 16 / 0x4000 == a;
    ToBitsMod(p, 4);
    ToBitsMod(p / 16, 14);
    ToBitsMod(c.inAckSeq, 14);
    ToBitsMod(c.outSeq, 14);
    Assoc(ToBits(p, 4), ToBits(p / 16, 14), ToBits(a, 14));
  }

  /** A finished packet: the prefix, the bunches one after another, two set bits, and
      fewer than eight clear ones up to a whole number of bytes. */
  lemma PacketWire(c: K.PacketConfig, bs: seq<Bunch>)
    ensures var p := K.PacketBits(c, bs); var n := |K.PrefixBits(c)| + |BunchesBits(bs)|;
            && n + 2 <= |p| < n + 10 && |p| % 8 == 0
            && At(p, 0, K.PrefixBits(c)) && At(p, |K.PrefixBits(c)|, BunchesBits(bs))
            && p[n] && p[n + 1] && forall i: nat :: n + 2 <= i < |p| ==> !p[i]
  {
    hide K.PrefixBits, BunchesBits;
    var body := K.PrefixBits(c) + BunchesBits(bs);
    assert K.PacketBits(c, bs)[..|body|] == body;
    AtSplit(K.PacketBits(c, bs), 0, K.PrefixBits(c), BunchesBits(bs));
  }

  lemma BunchesWire(b: Bunch, bs: seq<Bunch>)
    ensures BunchesBits([]) == [] && BunchesBits([b] + bs) == BunchBits(b.h, b.payload) + BunchesBits(bs)
  {
    hide BunchBits;
    assert ([b] + bs)[1..] == bs;
  }

  /** The history words of a finished packet are clear, all of them. */
  lemma HistoryClear(c: K.PacketConfig, bs: seq<Bunch>, i: nat)
    requires K.ConfigFits(c) && i < 32 * c.histCount
    ensures 70 + i < |K.PacketBits(c, bs)| && !K.PacketBits(c, bs)[70 + i]
  {
    hide K.PrefixBits, K.PacketBits, BunchesBits;
    PrefixWire(c);
    PacketWire(c, bs);
    var p, b := K.PacketBits(c, bs), K.PrefixBits(c);
    AtPrefix(p, b);
    assert p[70 + i] == p[..|b|][70 + i];
  }
}
