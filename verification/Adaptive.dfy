/** The adaptive SerializeInt: one bit at a time while value-so-far + mask < max. */
module Adaptive {
  import opened Bits
  import opened Codec

  predicate BitOf(v: nat, k: nat) { (v / Pow2(k)) % 2 == 1 }

  function Plus(acc: nat, k: nat, bit: bool): nat { if bit then acc + Pow2(k) else acc }

  /** The bits from position k on, when the lower ones have the value acc. */
  function AdaptiveFrom(v: nat, max: nat, k: nat, acc: nat): Bits
    decreases max - Pow2(k)
  {
    if acc + Pow2(k) < max then [BitOf(v, k)] + AdaptiveFrom(v, max, k + 1, Plus(acc, k, BitOf(v, k)))
    else []
  }

  function AdaptiveInt(v: nat, max: nat): Bits
  {
    AdaptiveFrom(v, max, 0, 0)
  }

  function ReadAdaptiveFrom(s: Bits, p: nat, max: nat, k: nat, acc: nat): (r: NatRead)
    ensures r.next >= p
    decreases max - Pow2(k)
  {
    if acc + Pow2(k) < max then ReadAdaptiveFrom(s, p + 1, max, k + 1, Plus(acc, k, Peek(s, p)))
    else NatRead(acc, p)
  }

  /** read_serialize_int. */
  function ReadAdaptive(s: Bits, p: nat, max: nat): (r: NatRead)
    ensures r.next >= p
  {
    if max <= 1 then NatRead(0, p) else ReadAdaptiveFrom(s, p, max, 0, 0)
  }

  /** One more bit extends the value modulo the next power of two. */
  lemma LowBits(v: nat, k: nat)
    ensures Plus(v % Pow2(k), k, BitOf(v, k)) == v % Pow2(k + 1)
  {
    var p := Pow2(k);
    var q := v / p;
    assert v == p * q + v % p;
    assert q == 2 * (q / 2) + q % 2;
    Distribute(p, 2 * (q / 2), q % 2);
    MulAssoc(p, 2, q / 2);
    assert p * 2 == 2 * p;
    assert p * (q % 2) == if q % 2 == 1 then p else 0;
    DivUnique(v, 2 * p, q / 2, v % p + p * (q % 2));
  }

  lemma NoHighBits(v: nat, k: nat)
    requires v % Pow2(k) + Pow2(k) > v
    ensures v % Pow2(k) == v
  {
    OnlyRemainder(v, Pow2(k));
  }

  lemma OnlyRemainder(v: nat, p: nat)
    requires p > 0 && v % p + p > v
    ensures v % p == v
  {
    if v >= p {
      MulMono(p, 1, v / p);
    } else {
      DivUnique(v, p, 0, v);
    }
  }

  lemma {:induction false} RoundTripFrom(s: Bits, p: nat, v: nat, max: nat, k: nat)
    requires v < max && At(s, p, AdaptiveFrom(v, max, k, v % Pow2(k)))
    ensures ReadAdaptiveFrom(s, p, max, k, v % Pow2(k))
         == NatRead(v, p + |AdaptiveFrom(v, max, k, v % Pow2(k))|)
    decreases max - Pow2(k)
  {
    var acc := v % Pow2(k);
    if acc + Pow2(k) < max {
      LowBits(v, k);
      var rest := AdaptiveFrom(v, max, k + 1, v % Pow2(k + 1));
      OneMore(s, p, v, max, k, rest);
      RoundTripFrom(s, p + 1, v, max, k + 1);
    } else {
      NoHighBits(v, k);
    }
  }

  lemma OneMore(s: Bits, p: nat, v: nat, max: nat, k: nat, rest: Bits)
    requires At(s, p, [BitOf(v, k)] + rest)
    ensures At(s, p + 1, rest) && Peek(s, p) == BitOf(v, k)
  {
    AtSplit(s, p, [BitOf(v, k)], rest);
    ReadBitAt(s, p, BitOf(v, k));
  }

  /** The matching reader undoes the writer for every value below the bound. */
  lemma AdaptiveRoundTrip(s: Bits, p: nat, v: nat, max: nat)
    requires v < max && At(s, p, AdaptiveInt(v, max))
    ensures ReadAdaptive(s, p, max) == NatRead(v, p + |AdaptiveInt(v, max)|)
  {
    hide At;
    assert v % Pow2(0) == 0;
    RoundTripFrom(s, p, v, max, 0);
  }

  /** Whether v still needs the last of the L bits. */
  predicate LastBitWritten(v: nat, max: nat)
    requires max >= 2
  {
    var l := IntWidth(max);
    l >= 1 && v % Pow2(l - 1) + Pow2(l - 1) < max
  }

  lemma WidthBounds(max: nat)
    requires max >= 2
    ensures IntWidth(max) >= 1 && Pow2(IntWidth(max) - 1) < max <= Pow2(IntWidth(max))
  {
    BitLengthFits(max - 1);
  }

  lemma {:induction false} WidthFrom(v: nat, max: nat, k: nat)
    requires max >= 2 && k < IntWidth(max)
    ensures |AdaptiveFrom(v, max, k, v % Pow2(k))|
         == (if LastBitWritten(v, max) then IntWidth(max) else IntWidth(max) - 1) - k
    decreases IntWidth(max) - k
  {
    hide BitLength;
    var l := IntWidth(max);
    WidthBounds(max);
    LowBits(v, k);
    if k < l - 1 {
      Pow2Monotone(k + 1, l - 1);
      WidthFrom(v, max, k + 1);
    } else {
      var acc := v % Pow2(k + 1);
      assert AdaptiveFrom(v, max, k + 1, acc) == [];
    }
  }

  /** The width is ceil(log2 max), or one less exactly when the last bit is implied. */
  lemma AdaptiveWidth(v: nat, max: nat)
    requires max >= 2
    ensures |AdaptiveInt(v, max)| == if LastBitWritten(v, max) then IntWidth(max) else IntWidth(max) - 1
  {
    hide BitLength;
    WidthBounds(max);
    assert v % Pow2(0) == 0;
    WidthFrom(v, max, 0);
  }

  predicate PowerOfTwo(max: nat)
  {
    max == Pow2(IntWidth(max))
  }

  /** All values have the same width if and only if the bound is a power of two. */
  lemma SameWidthIffPowerOfTwo(max: nat)
    requires max >= 2
    ensures (forall v: nat :: v < max ==> |AdaptiveInt(v, max)| == IntWidth(max)) <==> PowerOfTwo(max)
    ensures (forall v: nat, w: nat :: v < max && w < max ==> |AdaptiveInt(v, max)| == |AdaptiveInt(w, max)|)
            <==> PowerOfTwo(max)
  {
    hide AdaptiveInt, BitLength;
    WidthBounds(max);
    var half := Pow2(IntWidth(max) - 1);
    assert Pow2(IntWidth(max)) == 2 * half;
    forall v: nat ensures |AdaptiveInt(v, max)| == if LastBitWritten(v, max) then IntWidth(max) else IntWidth(max) - 1 {
      AdaptiveWidth(v, max);
    }
    if !PowerOfTwo(max) {
      var w := max - half;
      DivUnique(w, half, 0, w);
      DivUnique(0, half, 0, 0);
      assert !LastBitWritten(w, max) && LastBitWritten(0, max);
      assert |AdaptiveInt(w, max)| != |AdaptiveInt(0, max)|;
    }
  }

  lemma {:induction false} FixedFrom(v: nat, max: nat, k: nat)
    requires max >= 2 && k <= IntWidth(max) && PowerOfTwo(max)
    ensures AdaptiveFrom(v, max, k, v % Pow2(k)) == ToBits(v / Pow2(k), IntWidth(max) - k)
    decreases IntWidth(max) - k
  {
    hide BitLength;
    var l := IntWidth(max);
    if k < l {
      Pow2Monotone(k + 1, l);
      LowBits(v, k);
      FixedFrom(v, max, k + 1);
      DivDiv(v, Pow2(k), 2);
      assert Pow2(k) * 2 == Pow2(k + 1);
    }
  }

  /** The adaptive writer coincides with the fixed-width one, on every value below
      the bound, if and only if the bound is a power of two. */
  lemma FixedIffPowerOfTwo(max: nat)
    requires max >= 2
    ensures (forall v: nat :: v < max ==> AdaptiveInt(v, max) == SerializeInt(v, max)) <==> PowerOfTwo(max)
  {
    hide BitLength, ToBits;
    if PowerOfTwo(max) {
      forall v: nat | v < max ensures AdaptiveInt(v, max) == SerializeInt(v, max) {
        assert v % Pow2(0) == 0 && v / Pow2(0) == v;
        FixedFrom(v, max, 0);
      }
    } else {
      hide AdaptiveInt;
      SameWidthIffPowerOfTwo(max);
      var v: nat :| v < max && |AdaptiveInt(v, max)| != IntWidth(max);
      assert AdaptiveInt(v, max) != SerializeInt(v, max);
    }
  }
}
