/** SerializeNewActor and the custom-delta movement payload. */
module NewActor {
  import opened Bits
  import opened Codec
  import opened BitWriters

  /** NewActorData, its coordinates already scaled to integers. */
  datatype Actor = Actor(guid: nat, isDynamic: bool, archetype: nat, level: nat,
                         location: CondVec, hasRotation: bool, rotation: Rotation,
                         hasScale: bool, scale: Vec, hasVelocity: bool, velocity: Vec)

  function Optional(has: bool, v: Vec): CondVec
  {
    if has then Quantized(v) else Absent
  }

  /** The widths of the three object ids. */
  predicate GuidsFit(a: Actor)
  {
    a.guid < U64 && a.archetype < U64 && a.level < U64
  }

  /** What the placement of an actor has to fit to be read back. */
  predicate PlacementFits(a: Actor)
  {
    && CondVecFits(a.location) && (a.hasRotation ==> RotationFits(a.rotation))
    && CondVecFits(Optional(a.hasScale, a.scale)) && CondVecFits(Optional(a.hasVelocity, a.velocity))
  }

  function RotationPart(a: Actor): Bits
  {
    if a.hasRotation then [true] + RotationBits(a.rotation) else [false]
  }

  function References(a: Actor): Bits
  {
    Sip(a.guid) + Sip(a.archetype) + Sip(a.level)
  }

  function Placement(a: Actor): Bits
  {
    CondVecBits(a.location) + RotationPart(a)
    + CondVecBits(Optional(a.hasScale, a.scale)) + CondVecBits(Optional(a.hasVelocity, a.velocity))
  }

  function ActorBits(a: Actor): Bits
  {
    if a.isDynamic then References(a) + Placement(a) else Sip(a.guid)
  }

  // ---- The mirror reader -----------------------------------------------------

  datatype ActorRead = ActorRead(value: Actor, next: nat)

  const NO_ROTATION := Rotation(0, 0, 0)
  const ZERO := Vec(0, 0, 0)

  function ReadRotationPart(s: Bits, p: nat): RotationRead
  {
    if Peek(s, p) then ReadRotation(s, p + 1) else RotationRead(NO_ROTATION, p + 1)
  }

  function VecOf(c: CondVec): Vec
  {
    if c.Quantized? then c.v else ZERO
  }

  function StaticActor(guid: nat): Actor
  {
    Actor(guid, false, 0, 0, Absent, false, NO_ROTATION, false, ZERO, false, ZERO)
  }

  /** Bit 0 of an object id says static; only a dynamic actor carries more. */
  function ReadActor(s: Bits, p: nat): ActorRead
  {
    var g := ReadSip(s, p, |s|, 10);
    if g.value % 2 == 1 then ActorRead(StaticActor(g.value), g.next)
    else
      var arch := ReadSip(s, g.next, |s|, 10);
      var level := ReadSip(s, arch.next, |s|, 10);
      ReadPlacement(s, level.next, g.value, arch.value, level.value)
  }

  function ReadPlacement(s: Bits, p: nat, guid: nat, arch: nat, level: nat): ActorRead
  {
    var loc := ReadCondVec(s, p);
    var rot := ReadRotationPart(s, loc.next);
    var scale := ReadCondVec(s, rot.next);
    var vel := ReadCondVec(s, scale.next);
    ActorRead(Actor(guid, true, arch, level, loc.value, Peek(s, loc.next), rot.value,
                    scale.value != Absent, VecOf(scale.value), vel.value != Absent, VecOf(vel.value)),
              vel.next)
  }

  /** What is on the wire: absent parts read back as zero. */
  function WireActor(a: Actor): Actor
  {
    if !a.isDynamic then StaticActor(a.guid)
    else a.(rotation := if a.hasRotation then a.rotation else NO_ROTATION,
            scale := if a.hasScale then a.scale else ZERO,
            velocity := if a.hasVelocity then a.velocity else ZERO)
  }

  lemma GuidAt(s: Bits, p: nat, g: nat)
    requires g < U64 && At(s, p, Sip(g))
    ensures ReadSip(s, p, |s|, 10) == NatRead(g, p + |Sip(g)|)
  {
    assert p + |Sip(g)| <= |s|;
    hide *;
    SipWidths(g);
    SipRoundTrip(s, p, g, |s|, 10);
  }

  lemma RotationPartAt(s: Bits, p: nat, a: Actor)
    requires At(s, p, RotationPart(a))
    ensures Peek(s, p) == a.hasRotation && ReadRotationPart(s, p).next == p + |RotationPart(a)|
    ensures ReadRotationPart(s, p).value == (if a.hasRotation then a.rotation else NO_ROTATION)
            <==> (a.hasRotation ==> RotationFits(a.rotation))
  {
    hide At, RotationBits, ReadRotation, Peek;
    if a.hasRotation {
      AtSplit(s, p, [true], RotationBits(a.rotation));
      RotationRoundTrip(s, p + 1, a.rotation);
    }
    PeekAt(s, p, a.hasRotation);
  }

  /** A placement is read back, to its end in every case, exactly when it fits. */
  lemma PlacementRoundTrip(s: Bits, p: nat, a: Actor)
    requires a.isDynamic && At(s, p, Placement(a))
    ensures var r := ReadPlacement(s, p, a.guid, a.archetype, a.level);
            r.next == p + |Placement(a)| && (r.value == WireActor(a) <==> PlacementFits(a))
  {
    hide At, RotationPart, ReadRotationPart, Peek, CondVecBits, ReadCondVec, CondVecFits, RotationFits;
    var loc, scale, vel := a.location, Optional(a.hasScale, a.scale), Optional(a.hasVelocity, a.velocity);
    var q := p + |CondVecBits(loc)|;
    var r := q + |RotationPart(a)|;
    AtSplit4(s, p, CondVecBits(loc), RotationPart(a), CondVecBits(scale), CondVecBits(vel));
    CondVecRoundTrip(s, p, loc);
    RotationPartAt(s, q, a);
    CondVecRoundTrip(s, r, scale);
    CondVecRoundTrip(s, r + |CondVecBits(scale)|, vel);
    AbsentFits();
  }

  lemma AbsentFits()
    ensures CondVecFits(Absent)
  {}

  /** An actor reads back as written, and to its end, if and only if its kind agrees with
      its GUID's static bit and its placement, when it has one, fits. */
  lemma ActorRoundTrip(s: Bits, p: nat, a: Actor)
    requires GuidsFit(a) && At(s, p, ActorBits(a))
    ensures ReadActor(s, p) == ActorRead(WireActor(a), p + |ActorBits(a)|)
            <==> (a.isDynamic <==> a.guid % 2 == 0) && (a.isDynamic ==> PlacementFits(a))
  {
    hide *;
    if a.isDynamic <==> a.guid % 2 == 0 {
      ActorMatch(s, p, a);
    } else {
      ActorEndMismatch(s, p, a);
    }
  }

  lemma ActorMatch(s: Bits, p: nat, a: Actor)
    requires GuidsFit(a) && At(s, p, ActorBits(a)) && (a.isDynamic <==> a.guid % 2 == 0)
    ensures ReadActor(s, p).next == p + |ActorBits(a)|
    ensures ReadActor(s, p).value == WireActor(a) <==> (a.isDynamic ==> PlacementFits(a))
  {
    hide At, Sip, ReadSip, Placement, ReadPlacement, WireActor, PlacementFits;
    if a.isDynamic {
      AtSplit(s, p, References(a), Placement(a));
      AtSplit3(s, p, Sip(a.guid), Sip(a.archetype), Sip(a.level));
      GuidAt(s, p, a.guid);
      GuidAt(s, p + |Sip(a.guid)|, a.archetype);
      GuidAt(s, p + |Sip(a.guid)| + |Sip(a.archetype)|, a.level);
      PlacementRoundTrip(s, p + |References(a)|, a);
    } else {
      GuidAt(s, p, a.guid);
      StaticWire(a);
    }
  }

  lemma StaticWire(a: Actor)
    requires !a.isDynamic
    ensures WireActor(a) == StaticActor(a.guid)
  {}

  lemma ReadMoves(s: Bits, p: nat, guid: nat, arch: nat, level: nat)
    ensures ReadPlacement(s, p, guid, arch, level).next > p
  {}

  /** Whatever its components, the reader ends where the writer did exactly when the
      actor's kind agrees with the bit. */
  lemma ActorEndExact(s: Bits, p: nat, a: Actor)
    requires GuidsFit(a) && At(s, p, ActorBits(a))
    ensures ReadActor(s, p).next == p + |ActorBits(a)| <==> (a.isDynamic <==> a.guid % 2 == 0)
  {
    hide *;
    if a.isDynamic <==> a.guid % 2 == 0 {
      ActorMatch(s, p, a);
    } else {
      ActorEndMismatch(s, p, a);
    }
  }

  lemma ActorEndMismatch(s: Bits, p: nat, a: Actor)
    requires GuidsFit(a) && At(s, p, ActorBits(a)) && (a.isDynamic <==> a.guid % 2 == 1)
    ensures ReadActor(s, p).next != p + |ActorBits(a)|
  {
    hide At, Sip, ReadSip, Placement, ReadPlacement;
    if a.isDynamic {
      AtSplit(s, p, References(a), Placement(a));
      AtSplit3(s, p, Sip(a.guid), Sip(a.archetype), Sip(a.level));
      GuidAt(s, p, a.guid);
    } else {
      GuidAt(s, p, a.guid);
      var arch := ReadSip(s, p + |Sip(a.guid)|, |s|, 10);
      var level := ReadSip(s, arch.next, |s|, 10);
      ReadMoves(s, level.next, a.guid, arch.value, level.value);
    }
  }

  // ---- The writer --------------------------------------------------------------

  method WriteNewActor(w: BitWriter, a: Actor)
    requires w.Valid()
    modifies w, w.data
    ensures w.Valid() && w.Contents == old(w.Contents) + ActorBits(a)
    ensures w.data == old(w.data) || fresh(w.data)
  {
    hide Holds, Sip, CondVecBits, RotationBits;
    ghost var c := w.Contents;
    w.WriteSip(a.guid);
    if !a.isDynamic { return; }
    w.WriteSip(a.archetype);
    w.WriteSip(a.level);
    Assoc3(c, Sip(a.guid), Sip(a.archetype), Sip(a.level));
    WritePlacement(w, a);
    Assoc(c, References(a), Placement(a));
  }

  method WritePlacement(w: BitWriter, a: Actor)
    requires w.Valid()
    modifies w, w.data
    ensures w.Valid() && w.Contents == old(w.Contents) + Placement(a)
    ensures w.data == old(w.data) || fresh(w.data)
  {
    hide Holds, CondVecBits, RotationBits;
    ghost var c := w.Contents;
    w.WriteConditionalVector(a.location);
    ghost var c1 := w.Contents;
    w.WriteBit(a.hasRotation);
    if a.hasRotation {
      w.WriteRotation(a.rotation);
      Assoc(c1, [true], RotationBits(a.rotation));
    }
    assert w.Contents == c1 + RotationPart(a);
    w.WriteConditionalVector(Optional(a.hasScale, a.scale));
    w.WriteConditionalVector(Optional(a.hasVelocity, a.velocity));
    Assoc4(c, CondVecBits(a.location), RotationPart(a),
           CondVecBits(Optional(a.hasScale, a.scale)), CondVecBits(Optional(a.hasVelocity, a.velocity)));
  }

  // ---- The movement delta --------------------------------------------------------

  datatype Movement = Movement(location: Vec, pitch: Byte, yaw: Byte, roll: Byte, velocity: Vec)

  const MOVEMENT_FLAGS: Byte := 0x2C

  function MovementBody(m: Movement): Bits
  {
    QVecBits(m.location) + (ToBits(m.pitch, 8) + ToBits(m.yaw, 8) + ToBits(m.roll, 8)) + QVecBits(m.velocity)
  }

  /** Flags, the SIP of how many bits follow, and those bits. */
  function MovementBits(m: Movement): Bits
  {
    ToBits(MOVEMENT_FLAGS, 8) + Sip(|MovementBody(m)|) + MovementBody(m)
  }

  datatype MovementRead = MovementRead(flags: Byte, declared: nat, bodyStart: nat, value: Movement, next: nat)

  function ReadMovement(s: Bits, p: nat): MovementRead
  {
    var n := ReadSip(s, p + 8, |s|, 5);
    var loc := ReadQVec(s, n.next);
    var q := loc.next;
    var vel := ReadQVec(s, q + 24);
    MovementRead(Byte8(s, p), n.value, n.next,
                 Movement(loc.value, Byte8(s, q), Byte8(s, q + 8), Byte8(s, q + 16), vel.value), vel.next)
  }

  lemma QVecLength(v: Vec)
    ensures |QVecBits(v)| <= 103
  {
    IntWidths();
  }

  /** For every movement the declared count is exactly what follows it; the fields come
      back if and only if the components fit 32 bits. */
  lemma MovementRoundTrip(s: Bits, p: nat, m: Movement)
    requires At(s, p, MovementBits(m))
    ensures var r := ReadMovement(s, p);
            && r.flags == MOVEMENT_FLAGS && r.next == p + |MovementBits(m)| == r.bodyStart + r.declared
            && (r.value == m <==> CondVecFits(Quantized(m.location)) && CondVecFits(Quantized(m.velocity)))
  {
    hide At, ToBits, Sip, ReadSip, QVecBits, ReadQVec, Byte8, CondVecFits;
    var n := |MovementBody(m)|;
    var q := p + 8 + |Sip(n)|;
    QVecLength(m.location);
    QVecLength(m.velocity);
    AtSplit3(s, p, ToBits(MOVEMENT_FLAGS, 8), Sip(n), MovementBody(m));
    Byte8At(s, p, MOVEMENT_FLAGS);
    CountAt(s, p + 8, n);
    MovementBodyAt(s, q, m);
  }

  lemma CountAt(s: Bits, p: nat, n: nat)
    requires n < U32 && At(s, p, Sip(n))
    ensures ReadSip(s, p, |s|, 5) == NatRead(n, p + |Sip(n)|)
  {
    assert p + |Sip(n)| <= |s|;
    hide *;
    SipWidths(n);
    SipRoundTrip(s, p, n, |s|, 5);
  }

  lemma MovementBodyAt(s: Bits, p: nat, m: Movement)
    requires At(s, p, MovementBody(m))
    ensures var q := p + |QVecBits(m.location)|;
            && ReadQVec(s, p).next == q && (ReadQVec(s, p).value == m.location <==> CondVecFits(Quantized(m.location)))
            && Byte8(s, q) == m.pitch && Byte8(s, q + 8) == m.yaw && Byte8(s, q + 16) == m.roll
            && ReadQVec(s, q + 24).next == p + |MovementBody(m)|
            && (ReadQVec(s, q + 24).value == m.velocity <==> CondVecFits(Quantized(m.velocity)))
  {
    hide At, ToBits, QVecBits, ReadQVec, Byte8;
    var angles := ToBits(m.pitch, 8) + ToBits(m.yaw, 8) + ToBits(m.roll, 8);
    var q := p + |QVecBits(m.location)|;
    AtSplit3(s, p, QVecBits(m.location), angles, QVecBits(m.velocity));
    AtSplit3(s, q, ToBits(m.pitch, 8), ToBits(m.yaw, 8), ToBits(m.roll, 8));
    Byte8At(s, q, m.pitch);
    Byte8At(s, q + 8, m.yaw);
    Byte8At(s, q + 16, m.roll);
    QVecRoundTrip(s, p, m.location);
    QVecRoundTrip(s, q + 24, m.velocity);
  }

  /** The fields go through a scratch writer whose bits past the flags are copied. */
  method WriteMovementDelta(w: BitWriter, m: Movement)
    requires w.Valid()
    modifies w, w.data
    ensures w.Valid() && w.Contents == old(w.Contents) + MovementBits(m)
    ensures w.data == old(w.data) || fresh(w.data)
  {
    hide ToBits, QVecBits, Sip, Holds;
    var field := new BitWriter(2048);
    WriteMovementField(field, m);
    ghost var body := MovementBody(m);
    assert field.Contents[8..] == body;
    w.Write(MOVEMENT_FLAGS, 8);
    var remaining := field.bitPos - 8;
    w.WriteSip(remaining);
    ghost var c := w.Contents;
    CopyTail(w, field);
    Assoc3(old(w.Contents), ToBits(MOVEMENT_FLAGS, 8), Sip(|body|), body);
  }

  method WriteMovementField(field: BitWriter, m: Movement)
    requires field.Valid() && field.Contents == []
    modifies field, field.data
    ensures field.Valid() && field.Contents == ToBits(MOVEMENT_FLAGS, 8) + MovementBody(m)
    ensures field.data == old(field.data) || fresh(field.data)
  {
    hide ToBits, QVecBits, Holds;
    field.Write(MOVEMENT_FLAGS, 8);
    ghost var c := field.Contents;
    assert c == ToBits(MOVEMENT_FLAGS, 8);
    field.WriteQuantizedVector(m.location);
    ghost var c1 := field.Contents;
    field.Write(m.pitch, 8);
    field.Write(m.yaw, 8);
    field.Write(m.roll, 8);
    Assoc3(c1, ToBits(m.pitch, 8), ToBits(m.yaw, 8), ToBits(m.roll, 8));
    field.WriteQuantizedVector(m.velocity);
    Assoc3(c, QVecBits(m.location), ToBits(m.pitch, 8) + ToBits(m.yaw, 8) + ToBits(m.roll, 8), QVecBits(m.velocity));
  }

  /** Copy the bits of a scratch writer from bit 8 on, one at a time. */
  method CopyTail(w: BitWriter, field: BitWriter)
    requires w.Valid() && field.Valid() && w != field && w.data != field.data && field.bitPos >= 8
    modifies w, w.data
    ensures w.Valid() && w.Contents == old(w.Contents) + field.Contents[8..]
    ensures w.data == old(w.data) || fresh(w.data)
  {
    ghost var e := field.Contents;
    for i := 8 to field.bitPos
      invariant w.Valid() && field.Valid() && field.Contents == e && w.data != field.data
      invariant w.data == old(w.data) || fresh(w.data)
      invariant w.Contents == old(w.Contents) + e[8..i]
    {
      HoldsBit(field.data[..], e, i);
      var val := ByteBit(field.data[i / 8], i % 8);
      w.WriteBit(val);
      assert e[8..i + 1] == e[8..i] + [e[i]];
      Assoc(old(w.Contents), e[8..i], [e[i]]);
    }
    assert e[8..field.bitPos] == e[8..];
  }

  lemma HoldsBit(d: seq<bv8>, c: Bits, i: nat)
    requires Holds(d, c) && i < |c|
    ensures i / 8 < |d| && ByteBit(d[i / 8], i % 8) == c[i]
  {
    assert BufBit(d, i) == (i < |c| && c[i]);
  }
}
