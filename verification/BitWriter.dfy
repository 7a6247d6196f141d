/** ue5_repl::BitWriter: a growable byte buffer written bit by bit. Its abstract
    state, the ghost field Contents, is the sequence of bits appended so far. */
module BitWriters {
  import opened Bits
  import opened Codec

  /** The buffer d covers the stream c, holds it, and is zero from its end on. */
  ghost predicate Holds(d: seq<bv8>, c: Bits)
  {
    && |c| <= 8 * |d|
    && forall i: nat :: i < 8 * |d| ==> BufBit(d, i) == (i < |c| && c[i])
  }

  lemma BufUpdate(d: seq<bv8>, k: nat, on: bool)
    requires k < 8 * |d|
    ensures var e := d[k / 8 := ByteWith(d[k / 8], k % 8, on)];
            forall i: nat :: i < 8 * |d| ==> BufBit(e, i) == if i == k then on else BufBit(d, i)
  {
    var e := d[k / 8 := ByteWith(d[k / 8], k % 8, on)];
    forall i: nat | i < 8 * |d| ensures BufBit(e, i) == if i == k then on else BufBit(d, i) {
      if i / 8 == k / 8 { ByteWithBits(d[k / 8], k % 8, on, i % 8); }
    }
  }

  /** Appending a one sets the bit at the end; appending a zero is free. */
  lemma HoldsAppend(d: seq<bv8>, c: Bits)
    requires Holds(d, c) && |c| < 8 * |d|
    ensures Holds(d, c + [false])
    ensures Holds(d[|c| / 8 := d[|c| / 8] | Mask(|c| % 8)], c + [true])
  {
    hide BufBit;
    BufUpdate(d, |c|, true);
    var e, zero, one := d[|c| / 8 := ByteWith(d[|c| / 8], |c| % 8, true)], c + [false], c + [true];
    forall i: nat | i < 8 * |d|
      ensures BufBit(d, i) == (i < |zero| && zero[i])
      ensures BufBit(e, i) == (i < |one| && one[i])
    {
      assert BufBit(d, i) == (i < |c| && c[i]);
    }
  }

  /** Growth keeps every bit and adds only zeros. */
  lemma HoldsGrow(d: seq<bv8>, c: Bits, e: seq<bv8>)
    requires Holds(d, c) && |d| <= |e| && e[..|d|] == d
    requires forall j :: |d| <= j < |e| ==> e[j] == 0
    ensures Holds(e, c)
  {
    forall i: nat | i < 8 * |e| ensures BufBit(e, i) == (i < |c| && c[i]) {
      if i < 8 * |d| { assert e[i / 8] == e[..|d|][i / 8]; assert BufBit(d, i) == (i < |c| && c[i]); }
    }
  }

  lemma HoldsZero(d: seq<bv8>)
    requires forall j :: 0 <= j < |d| ==> d[j] == 0
    ensures Holds(d, [])
  {}

  lemma TakeSnoc(e: Bits, i: nat)
    requires i < |e|
    ensures e[..i + 1] == e[..i] + [e[i]]
  {}

  /** c with the window at pos replaced by e. */
  function Overwrite(c: Bits, pos: nat, e: Bits): (r: Bits)
    requires pos + |e| <= |c|
    ensures |r| == |c|
  {
    c[..pos] + e + c[pos + |e|..]
  }

  lemma OverwriteNone(c: Bits, pos: nat, e: Bits)
    requires pos + |e| <= |c|
    ensures Overwrite(c, pos, e[..0]) == c
  {}

  lemma OverwriteStep(c: Bits, pos: nat, e: Bits, i: nat)
    requires pos + |e| <= |c| && i < |e|
    ensures Overwrite(c, pos, e[..i + 1]) == Overwrite(c, pos, e[..i])[pos + i := e[i]]
  {}

  /** Set or clear one bit of a buffer. */
  method SetBufferBit(buf: array<bv8>, k: nat, on: bool)
    requires k < 8 * buf.Length
    modifies buf
    ensures buf[..] == old(buf[..])[k / 8 := ByteWith(old(buf[..])[k / 8], k % 8, on)]
  {
    if on {
      buf[k / 8] := buf[k / 8] | Mask(k % 8);
    } else {
      buf[k / 8] := buf[k / 8] & !Mask(k % 8);
    }
  }

  lemma BytesUpdate(d: seq<bv8>, k: nat, on: bool)
    requires k < 8 * |d|
    ensures BytesToBits(d[k / 8 := ByteWith(d[k / 8], k % 8, on)]) == BytesToBits(d)[k := on]
  {
    BufUpdate(d, k, on);
  }

  method SetStreamBit(buf: array<bv8>, k: nat, on: bool)
    requires k < 8 * buf.Length
    modifies buf
    ensures BytesToBits(buf[..]) == BytesToBits(old(buf[..]))[k := on]
  {
    hide BytesToBits, ByteWith;
    BytesUpdate(buf[..], k, on);
    SetBufferBit(buf, k, on);
  }

  /** What a patched buffer holds, bit by bit. */
  lemma PatchedBit(d: seq<bv8>, c: Bits, d': seq<bv8>, pos: nat, e: Bits, i: nat)
    requires Holds(d, c) && |d'| == |d| && pos + |e| <= 8 * |d| && i < 8 * |d|
    requires BytesToBits(d') == Overwrite(BytesToBits(d), pos, e)
    ensures BytesToBits(d')[i] == BufBit(d', i)
    ensures BufBit(d', i) == if pos <= i < pos + |e| then e[i - pos] else i < |c| && c[i]
  {
    hide BufBit;
    assert BytesToBits(d')[i] == BufBit(d', i) && BytesToBits(d)[i] == BufBit(d, i);
  }

  lemma PatchHolds(d: seq<bv8>, c: Bits, d': seq<bv8>, pos: nat, e: Bits)
    requires Holds(d, c) && |d'| == |d| && pos + |e| <= 8 * |d|
    requires BytesToBits(d') == Overwrite(BytesToBits(d), pos, e)
    ensures |c| <= 8 * |d'|
    ensures Holds(d', BytesToBits(d')[..|c|]) <==> forall i: nat :: i < |e| && pos + i >= |c| ==> !e[i]
    ensures pos + |e| <= |c| ==> BytesToBits(d')[..|c|] == Overwrite(c, pos, e)
  {
    hide BufBit, BytesToBits;
    var t := BytesToBits(d');
    var c' := t[..|c|];
    forall i: nat | i < 8 * |d|
      ensures t[i] == BufBit(d', i)
      ensures BufBit(d', i) == if pos <= i < pos + |e| then e[i - pos] else i < |c| && c[i]
    {
      PatchedBit(d, c, d', pos, e, i);
    }
    if Holds(d', c') {
      forall i: nat | i < |e| && pos + i >= |c| ensures !e[i] { assert !BufBit(d', pos + i); }
    }
    if forall i: nat :: i < |e| && pos + i >= |c| ==> !e[i] {
      forall i: nat | i < 8 * |d'| ensures BufBit(d', i) == (i < |c'| && c'[i]) {
        if i >= |c| && pos <= i < pos + |e| { assert !e[i - pos]; }
      }
    }
  }

  class BitWriter {
    var data: array<bv8>
    var bitPos: nat
    ghost var Contents: Bits

    ghost predicate Valid()
      reads this, data
    {
      bitPos == |Contents| && Holds(data[..], Contents)
    }

    constructor (initialCap: nat)
      ensures Valid() && fresh(data) && Contents == []
    {
      data := new bv8[initialCap](_ => 0);
      bitPos := 0;
      Contents := [];
      new;
      HoldsZero(data[..]);
    }

    /** Clear the buffer in place and start again. */
    method Reset()
      requires Valid()
      modifies this, data
      ensures Valid() && Contents == [] && data == old(data)
    {
      forall j | 0 <= j < data.Length { data[j] := 0; }
      bitPos := 0;
      Contents := [];
      HoldsZero(data[..]);
    }

    method EnsureCapacity(bitsNeeded: nat)
      requires Valid()
      modifies this, data
      ensures Valid() && Contents == old(Contents)
      ensures data == old(data) || fresh(data)
      ensures bitsNeeded <= 8 * data.Length
    {
      var bytesNeeded := (bitsNeeded + 7) / 8;
      if bytesNeeded > data.Length {
        var newCap := if data.Length * 2 > bytesNeeded + 256 then data.Length * 2 else bytesNeeded + 256;
        var grown := new bv8[newCap](_ => 0);
        forall j | 0 <= j < data.Length { grown[j] := data[j]; }
        HoldsGrow(data[..], Contents, grown[..]);
        data := grown;
      }
    }

    /** Write `count` bits of `value`, least significant first. */
    method Write(value: nat, count: nat)
      requires Valid()
      modifies this, data
      ensures Valid() && Contents == old(Contents) + ToBits(value, count)
      ensures data == old(data) || fresh(data)
    {
      hide Holds, Mask, ToBits, Pow2;
      EnsureCapacity(bitPos + count);
      ghost var e := ToBits(value, count);
      assert Contents + e[..0] == Contents;
      for i := 0 to count
        invariant bitPos + count <= 8 * data.Length && bitPos == |Contents|
        invariant Contents == old(Contents) && (data == old(data) || fresh(data))
        invariant Holds(data[..], Contents + e[..i])
      {
        ToBitsAt(value, count, i);
        ghost var before := data[..];
        HoldsAppend(before, Contents + e[..i]);
        TakeSnoc(e, i);
        Assoc(Contents, e[..i], [e[i]]);
        if (value / Pow2(i)) % 2 == 1 {
          var byteIdx, bitIdx := (bitPos + i) / 8, (bitPos + i) % 8;
          data[byteIdx] := data[byteIdx] | Mask(bitIdx);
          assert data[..] == before[byteIdx := before[byteIdx] | Mask(bitIdx)];
        }
      }
      assert e[..count] == e;
      bitPos := bitPos + count;
      Contents := Contents + e;
    }

    method WriteBit(val: bool)
      requires Valid()
      modifies this, data
      ensures Valid() && Contents == old(Contents) + [val]
      ensures data == old(data) || fresh(data)
    {
      Write(if val then 1 else 0, 1);
      assert ToBits(if val then 1 else 0, 1) == [val];
    }

    /** Write the first numBits bits of another byte buffer. */
    method WriteBitsFrom(src: array<bv8>, numBits: nat)
      requires Valid() && numBits <= 8 * src.Length && src != data
      modifies this, data
      ensures Valid() && Contents == old(Contents) + BytesToBits(old(src[..]))[..numBits]
      ensures data == old(data) || fresh(data)
    {
      hide Holds, Mask, ByteBit;
      EnsureCapacity(bitPos + numBits);
      ghost var e := BytesToBits(src[..])[..numBits];
      assert Contents + e[..0] == Contents;
      for i := 0 to numBits
        invariant bitPos + numBits <= 8 * data.Length && bitPos == |Contents|
        invariant Contents == old(Contents) && (data == old(data) || fresh(data))
        invariant data != src && src[..] == old(src[..])
        invariant Holds(data[..], Contents + e[..i])
      {
        ghost var before := data[..];
        HoldsAppend(before, Contents + e[..i]);
        TakeSnoc(e, i);
        Assoc(Contents, e[..i], [e[i]]);
        assert e[i] == ByteBit(src[i / 8], i % 8);
        if ByteBit(src[i / 8], i % 8) {
          var dstByte, dstBit := (bitPos + i) / 8, (bitPos + i) % 8;
          data[dstByte] := data[dstByte] | Mask(dstBit);
          assert data[..] == before[dstByte := before[dstByte] | Mask(dstBit)];
        }
      }
      assert e[..numBits] == e;
      bitPos := bitPos + numBits;
      Contents := Contents + e;
    }

    /** Overwrite a window of the buffer; nothing else changes. The writer stays valid
        exactly when no one is put past the end of what was written. */
    method Patch(pos: nat, value: nat, count: nat)
      requires Valid() && pos + count <= 8 * data.Length
      modifies this`Contents, data
      ensures BytesToBits(data[..]) == Overwrite(BytesToBits(old(data[..])), pos, ToBits(value, count))
      ensures Valid() <==> forall i: nat :: i < count && pos + i >= bitPos ==> !ToBits(value, count)[i]
      ensures bitPos <= 8 * data.Length && Contents == BytesToBits(data[..])[..bitPos]
      ensures pos + count <= bitPos ==> Valid() && Contents == Overwrite(old(Contents), pos, ToBits(value, count))
    {
      hide Holds, ToBits, Pow2, Overwrite, BytesToBits;
      ghost var d, c, e := data[..], Contents, ToBits(value, count);
      OverwriteNone(BytesToBits(d), pos, e);
      for i := 0 to count
        invariant Contents == c && BytesToBits(data[..]) == Overwrite(BytesToBits(d), pos, e[..i])
      {
        ToBitsAt(value, count, i);
        OverwriteStep(BytesToBits(d), pos, e, i);
        SetStreamBit(data, pos + i, (value / Pow2(i)) % 2 == 1);
      }
      assert e[..count] == e;
      PatchHolds(d, c, data[..], pos, e);
      Contents := BytesToBits(data[..])[..bitPos];
    }

    // ---- The variable-length encodings ------------------------------------

    method WriteSip(val: nat)
      requires Valid()
      modifies this, data
      ensures Valid() && Contents == old(Contents) + Sip(val)
      ensures data == old(data) || fresh(data)
    {
      hide Holds, ToBits, SipByte;
      var v, more := val, true;
      ghost var done: Bits := [];
      while more
        invariant Valid() && (data == old(data) || fresh(data))
        invariant Contents == old(Contents) + done
        invariant Sip(val) == if more then done + Sip(v) else done
        decreases more, v
      {
        var byte := v % 128 * 2;
        if v / 128 > 0 { byte := byte + 1; }
        assert byte == SipByte(v) by { SipByteIs(v); }
        Write(byte, 8);
        Assoc(old(Contents), done, ToBits(SipByte(v), 8));
        if v >= 128 { Assoc(done, ToBits(SipByte(v), 8), Sip(v / 128)); }
        done := done + ToBits(SipByte(v), 8);
        more, v := v / 128 > 0, v / 128;
      }
    }

    /** The minimum width for [0, maxVal - 1], whatever the value. */
    method WriteSerializeInt(value: nat, maxVal: nat)
      requires Valid()
      modifies this, data
      ensures Valid() && Contents == old(Contents) + SerializeInt(value, maxVal)
      ensures data == old(data) || fresh(data)
    {
      if maxVal <= 1 {
        assert SerializeInt(value, maxVal) == [];
        assert Contents == old(Contents) + [];
        return;
      }
      var bits: nat, tmp: nat := 0, maxVal - 1;
      while tmp > 0
        invariant bits + BitLength(tmp) == BitLength(maxVal - 1)
      {
        bits, tmp := bits + 1, tmp / 2;
      }
      hide Holds, ToBits;
      Write(value, bits);
    }

    method WriteFString(t: Str)
      requires Valid()
      modifies this, data
      ensures Valid() && Contents == old(Contents) + FString(t)
      ensures data == old(data) || fresh(data)
    {
      hide Holds, ToBits;
      if |t| == 0 {
        Write(0, 32);
        return;
      }
      Write((|t| + 1) % U32, 32);
      ghost var c := Contents;
      for i := 0 to |t|
        invariant Valid() && (data == old(data) || fresh(data))
        invariant Contents == c + Chars(t[..i])
      {
        Write(t[i], 8);
        assert t[..i + 1][..i] == t[..i];
        Assoc(c, Chars(t[..i]), ToBits(t[i], 8));
      }
      assert t[..|t|] == t;
      Write(0, 8);
      Assoc(old(Contents), ToBits((|t| + 1) % U32, 32), Chars(t));
      Assoc(old(Contents), ToBits((|t| + 1) % U32, 32) + Chars(t), ToBits(0, 8));
    }

    method WriteRotation(r: Rotation)
      requires Valid()
      modifies this, data
      ensures Valid() && Contents == old(Contents) + RotationBits(r)
      ensures data == old(data) || fresh(data)
    {
      hide Holds, ToBits;
      ghost var c := Contents;
      WriteBit(r.pitch != 0);
      WriteBit(r.yaw != 0);
      WriteBit(r.roll != 0);
      ghost var f := [r.pitch != 0, r.yaw != 0, r.roll != 0];
      assert Contents == c + f;
      if r.pitch != 0 { Write(r.pitch, 16); }
      assert Contents == c + f + Axis(r.pitch);
      if r.yaw != 0 { Write(r.yaw, 16); }
      assert Contents == c + f + Axis(r.pitch) + Axis(r.yaw);
      if r.roll != 0 { Write(r.roll, 16); }
      assert Contents == c + f + Axis(r.pitch) + Axis(r.yaw) + Axis(r.roll);
      Assoc4(c, f, Axis(r.pitch), Axis(r.yaw), Axis(r.roll));
    }

    /** The scaled components, in the least width whose bias exceeds them all. */
    method WriteQuantizedVector(v: Vec)
      requires Valid()
      modifies this, data
      ensures Valid() && Contents == old(Contents) + QVecBits(v)
      ensures data == old(data) || fresh(data)
    {
      hide Holds, ToBits;
      var absMax := AbsMax(v);
      var compBits := 2;
      while compBits < 32
        invariant 2 <= compBits <= 32 && CompBits(absMax, compBits) == CompBits(absMax, 2)
      {
        var bias := Pow2(compBits - 1);
        if absMax < bias { break; }
        compBits := compBits + 1;
      }
      assert compBits == CompBits(absMax, 2);
      WriteComponents(v, compBits);
    }

    method WriteComponents(v: Vec, k: nat)
      requires Valid() && k == CompBits(AbsMax(v), 2)
      modifies this, data
      ensures Valid() && Contents == old(Contents) + QVecBits(v)
      ensures data == old(data) || fresh(data)
    {
      hide Holds, ToBits, SerializeInt, CompBits;
      var header := k - 2 + 32;
      WriteSerializeInt(header, 128);
      var bias := Pow2(k - 1);
      var ux, uy, uz := (v.x + bias) % U32, (v.y + bias) % U32, (v.z + bias) % U32;
      Write(ux, k);
      Write(uy, k);
      Write(uz, k);
      Assoc4(old(Contents), SerializeInt(header, 128), ToBits(ux, k), ToBits(uy, k), ToBits(uz, k));
    }

    method WriteConditionalVector(c: CondVec)
      requires Valid()
      modifies this, data
      ensures Valid() && Contents == old(Contents) + CondVecBits(c)
      ensures data == old(data) || fresh(data)
    {
      hide Holds, ToBits, QVecBits;
      ghost var c0 := Contents;
      WriteBit(c != Absent);
      if c == Absent { return; }
      WriteBit(c.Quantized?);
      assert Contents == c0 + [true, c.Quantized?];
      if c.Quantized? {
        WriteQuantizedVector(c.v);
        Assoc(c0, [true, true], QVecBits(c.v));
      } else {
        Write(c.x, 64);
        Write(c.y, 64);
        Write(c.z, 64);
        Assoc4(c0, [true, false], ToBits(c.x, 64), ToBits(c.y, 64), ToBits(c.z, 64));
      }
    }
  }

  lemma SipByteIs(v: nat)
    ensures SipByte(v) == v % 128 * 2 + (if v / 128 > 0 then 1 else 0)
  {}
}
