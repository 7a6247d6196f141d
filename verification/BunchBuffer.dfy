/** protocol::BunchBuffer: the second bit buffer, with its adaptive SerializeInt and
    its interleaved rotator. */
module BunchBuffers {
  import opened Bits
  import opened Codec
  import opened BitWriters
  import opened Adaptive

  /** A non-zero flag before each axis, instead of all three flags first. */
  function FlaggedAxis(v: nat): Bits
  {
    if v != 0 then [true] + ToBits(v, 16) else [false]
  }

  function RotatorBits(r: Rotation): Bits
  {
    FlaggedAxis(r.pitch) + FlaggedAxis(r.yaw) + FlaggedAxis(r.roll)
  }

  function ReadFlaggedAxis(s: Bits, p: nat): NatRead
  {
    if Peek(s, p) then NatRead(ReadN(s, p + 1, 16), p + 17) else NatRead(0, p + 1)
  }

  function ReadRotator(s: Bits, p: nat): RotationRead
  {
    var a := ReadFlaggedAxis(s, p);
    var b := ReadFlaggedAxis(s, a.next);
    var c := ReadFlaggedAxis(s, b.next);
    RotationRead(Rotation(a.value, b.value, c.value), c.next)
  }

  lemma FlaggedAxisRoundTrip(s: Bits, p: nat, v: nat)
    requires v < U16 && At(s, p, FlaggedAxis(v))
    ensures ReadFlaggedAxis(s, p) == NatRead(v, p + |FlaggedAxis(v)|)
  {
    hide At, ToBits, ReadN;
    if v != 0 {
      AtSplit(s, p, [true], ToBits(v, 16));
      Pow2Of16();
      ReadNSmall(s, p + 1, v, 16);
    }
    ReadBitAt(s, p, v != 0);
  }

  lemma RotatorRoundTrip(s: Bits, p: nat, r: Rotation)
    requires RotationFits(r) && At(s, p, RotatorBits(r))
    ensures ReadRotator(s, p) == RotationRead(r, p + |RotatorBits(r)|)
  {
    hide At, FlaggedAxis, ReadFlaggedAxis;
    AtSplit3(s, p, FlaggedAxis(r.pitch), FlaggedAxis(r.yaw), FlaggedAxis(r.roll));
    FlaggedAxisRoundTrip(s, p, r.pitch);
    FlaggedAxisRoundTrip(s, p + |FlaggedAxis(r.pitch)|, r.yaw);
    FlaggedAxisRoundTrip(s, p + |FlaggedAxis(r.pitch)| + |FlaggedAxis(r.yaw)|, r.roll);
  }

  /** The two rotation layouts agree when only the roll can be non-zero, and the
      packed one really differs from the flagged one otherwise: it is not a choice
      of reader. */
  lemma RotationLayouts(r: Rotation)
    ensures r.pitch == 0 && r.yaw == 0 ==> RotatorBits(r) == RotationBits(r)
    ensures RotatorBits(Rotation(1, 0, 0)) != RotationBits(Rotation(1, 0, 0))
    ensures |RotatorBits(r)| == |RotationBits(r)|
  {
    hide ToBits;
    var a, b := RotatorBits(Rotation(1, 0, 0)), RotationBits(Rotation(1, 0, 0));
    assert a[1] == ToBits(1, 16)[0] && b[1] == false;
    ToBitsAt(1, 16, 0);
  }

  function Min(a: nat, b: nat): nat { if a < b then a else b }

  lemma HoldsResize(d: seq<bv8>, c: Bits, n: nat)
    requires Holds(d, c)
    ensures Holds(d + seq(n, _ => 0 as bv8), c)
  {
    var e := d + seq(n, _ => 0 as bv8);
    assert e[..|d|] == d;
    HoldsGrow(d, c, e);
  }

  class BunchBuffer {
    var data: seq<bv8>
    var bitCount: nat
    ghost var Contents: Bits

    ghost predicate Valid()
      reads this
    {
      bitCount == |Contents| && Holds(data, Contents)
    }

    constructor ()
      ensures Valid() && Contents == []
    {
      data := [];
      bitCount := 0;
      Contents := [];
      new;
      HoldsZero(data);
    }

    method WriteBits(value: nat, n: nat)
      requires Valid()
      modifies this
      ensures Valid() && Contents == old(Contents) + ToBits(value, n)
    {
      hide Holds, Mask, ToBits, Pow2;
      var needed := (bitCount + n + 7) / 8;
      if |data| < needed {
        HoldsResize(data, Contents, needed - |data|);
        data := data + seq(needed - |data|, _ => 0 as bv8);
      }
      ghost var e := ToBits(value, n);
      assert Contents + e[..0] == Contents;
      for i := 0 to n
        invariant bitCount + n <= 8 * |data| && bitCount == |Contents| && Contents == old(Contents)
        invariant Holds(data, Contents + e[..i])
      {
        ToBitsAt(value, n, i);
        HoldsAppend(data, Contents + e[..i]);
        TakeSnoc(e, i);
        Assoc(Contents, e[..i], [e[i]]);
        if (value / Pow2(i)) % 2 == 1 {
          var bp := bitCount + i;
          data := data[bp / 8 := data[bp / 8] | Mask(bp % 8)];
        }
      }
      assert e[..n] == e;
      bitCount := bitCount + n;
      Contents := Contents + e;
    }

    method WriteFlag(bit: bool)
      requires Valid()
      modifies this
      ensures Valid() && Contents == old(Contents) + [bit]
    {
      WriteBits(if bit then 1 else 0, 1);
      assert ToBits(if bit then 1 else 0, 1) == [bit];
    }

    /** Bits of a source buffer; a source that is too short ends the copy early. */
    method WriteRawBits(src: seq<bv8>, nBits: nat)
      requires Valid()
      modifies this
      ensures Valid() && Contents == old(Contents) + BytesToBits(src)[..Min(nBits, 8 * |src|)]
    {
      hide Holds, ByteBit;
      ghost var e := BytesToBits(src);
      ghost var c := Contents;
      var i := 0;
      while i < nBits
        invariant i <= nBits && i <= 8 * |src| && Valid() && Contents == c + e[..i]
      {
        if i / 8 >= |src| { break; }
        assert e[i] == ByteBit(src[i / 8], i % 8);
        WriteFlag(ByteBit(src[i / 8], i % 8));
        TakeSnoc(e, i);
        Assoc(c, e[..i], [e[i]]);
        i := i + 1;
      }
      assert i == Min(nBits, 8 * |src|);
    }

    method WriteSip(value: nat)
      requires Valid()
      modifies this
      ensures Valid() && Contents == old(Contents) + Sip(value)
    {
      hide Holds, ToBits, SipByte;
      var v, more := value, true;
      ghost var done: Bits := [];
      while more
        invariant Valid() && Contents == old(Contents) + done
        invariant Sip(value) == if more then done + Sip(v) else done
        decreases more, v
      {
        var byte := v % 128 * 2;
        if v / 128 > 0 { byte := byte + 1; }
        assert byte == SipByte(v) by { SipByteIs(v); }
        WriteBits(byte, 8);
        Assoc(old(Contents), done, ToBits(SipByte(v), 8));
        if v >= 128 { Assoc(done, ToBits(SipByte(v), 8), Sip(v / 128)); }
        done := done + ToBits(SipByte(v), 8);
        more, v := v / 128 > 0, v / 128;
      }
    }

    /** SerializeInt, adaptively; a 32-bit mask that overflows would be zero. */
    method WriteSerializeInt(value: nat, maxVal: nat)
      requires Valid() && value < U32 && maxVal < U32
      modifies this
      ensures Valid() && Contents == old(Contents) + AdaptiveInt(value, maxVal)
    {
      hide Holds, AdaptiveFrom, Pow2;
      var mask: nat, newValue: nat := 1, 0;
      ghost var k := 0;
      ghost var c, done: Bits := Contents, [];
      MaskAt(0);
      while newValue + mask < maxVal && mask != 0
        invariant Valid() && k <= 32 && mask == MaskOf(k) && newValue < Pow2(k)
        invariant Contents == c + done
        invariant AdaptiveInt(value, maxVal) == done + AdaptiveFrom(value, maxVal, k, newValue)
        decreases 32 - k
      {
        MaskAt(k);
        var bit := (value / mask) % 2 == 1;
        AdaptiveStep(value, maxVal, k, newValue);
        Assoc(done, [bit], AdaptiveFrom(value, maxVal, k + 1, Plus(newValue, k, bit)));
        Assoc(c, done, [bit]);
        if bit { newValue := newValue + mask; }
        WriteFlag(bit);
        done := done + [bit];
        mask, k := 2 * mask % U32, k + 1;
      }
      MaskAt(k);
      AdaptiveStep(value, maxVal, k, newValue);
      assert done + [] == done;
    }

    method WriteFStringAnsi(t: Str)
      requires Valid()
      modifies this
      ensures Valid() && Contents == old(Contents) + FString(t)
    {
      hide Holds, ToBits;
      if |t| == 0 {
        WriteBits(0, 32);
        return;
      }
      WriteBits((|t| + 1) % U32, 32);
      ghost var c := Contents;
      for i := 0 to |t|
        invariant Valid() && Contents == c + Chars(t[..i])
      {
        WriteBits(t[i], 8);
        assert t[..i + 1][..i] == t[..i];
        Assoc(c, Chars(t[..i]), ToBits(t[i], 8));
      }
      assert t[..|t|] == t;
      WriteBits(0, 8);
      Assoc(old(Contents), ToBits((|t| + 1) % U32, 32), Chars(t));
      Assoc(old(Contents), ToBits((|t| + 1) % U32, 32) + Chars(t), ToBits(0, 8));
    }

    method WriteCompressedRotator(r: Rotation)
      requires Valid()
      modifies this
      ensures Valid() && Contents == old(Contents) + RotatorBits(r)
    {
      hide Holds, FlaggedAxis;
      EmitAxis(r.pitch);
      EmitAxis(r.yaw);
      EmitAxis(r.roll);
      Assoc3(old(Contents), FlaggedAxis(r.pitch), FlaggedAxis(r.yaw), FlaggedAxis(r.roll));
    }

    method EmitAxis(v: nat)
      requires Valid()
      modifies this
      ensures Valid() && Contents == old(Contents) + FlaggedAxis(v)
    {
      hide Holds, ToBits;
      WriteFlag(v != 0);
      if v != 0 {
        WriteBits(v, 16);
        Assoc(old(Contents), [true], ToBits(v, 16));
      }
    }

    method Reset()
      requires Valid()
      modifies this
      ensures Valid() && Contents == [] && |data| == old(|data|)
    {
      data := seq(|data|, _ => 0 as bv8);
      bitCount := 0;
      Contents := [];
      HoldsZero(data);
    }
  }

  /** 1 << k in 32 bits. */
  function MaskOf(k: nat): nat { Pow2(k) % U32 }

  lemma MaskAt(k: nat)
    requires k <= 32
    ensures Pow2(k + 1) == 2 * Pow2(k) && Pow2(0) == 1 && Pow2(k) <= U32
    ensures MaskOf(k) == if k == 32 then 0 else Pow2(k)
    ensures k < 32 ==> MaskOf(k + 1) == 2 * MaskOf(k) % U32
  {
    Pow2Of32();
    Pow2Of31();
    if k < 32 {
      Pow2Monotone(k, 31);
      DivUnique(Pow2(k), U32, 0, Pow2(k));
    }
  }

  lemma AdaptiveStep(v: nat, max: nat, k: nat, acc: nat)
    ensures acc + Pow2(k) < max ==>
      AdaptiveFrom(v, max, k, acc) == [BitOf(v, k)] + AdaptiveFrom(v, max, k + 1, Plus(acc, k, BitOf(v, k)))
    ensures acc + Pow2(k) >= max ==> AdaptiveFrom(v, max, k, acc) == []
  {}
}
