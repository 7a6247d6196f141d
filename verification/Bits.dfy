/** Bit streams: the LSB-first reading of integers and of byte buffers that every
    codec of the server shares. */
module Bits {

  type Bits = seq<bool>

  type Byte = b: nat | b < 256

  const U16: nat := 0x1_0000
  const U32: nat := 0x1_0000_0000
  const U64: nat := 0x1_0000_0000_0000_0000

  function Pow2(n: nat): (p: nat)
    ensures p >= 1
  {
    if n == 0 then 1 else 2 * Pow2(n - 1)
  }

  function B2N(b: bool): nat { if b then 1 else 0 }

  /** The low n bits of v, least significant first. */
  function ToBits(v: nat, n: nat): (b: Bits)
    ensures |b| == n
    decreases n, v
  {
    if n == 0 then [] else [v % 2 == 1] + ToBits(v / 2, n - 1)
  }

  function FromBits(b: Bits): nat
  {
    if b == [] then 0 else B2N(b[0]) + 2 * FromBits(b[1..])
  }

  lemma {:induction false} Pow2Add(a: nat, b: nat)
    ensures Pow2(a + b) == Pow2(a) * Pow2(b)
  {
    if a > 0 {
      Pow2Add(a - 1, b);
      MulAssoc(2, Pow2(a - 1), Pow2(b));
    }
  }

  lemma {:induction false} Pow2Monotone(a: nat, b: nat)
    requires a <= b
    ensures Pow2(a) <= Pow2(b)
    decreases b
  {
    if a < b { Pow2Monotone(a, b - 1); }
  }

  /** v >> i is v divided by a power of two, one halving at a time. */
  lemma {:induction false} HalfShift(v: nat, i: nat)
    ensures (v / 2) / Pow2(i) == v / Pow2(i + 1)
  {
    DivDiv(v, 2, Pow2(i));
  }

  lemma DivDiv(v: nat, a: nat, b: nat)
    requires a > 0 && b > 0
    ensures a * b > 0
    ensures (v / a) / b == v / (a * b)
  {
    var q, r := v / a, v % a;
    var q2, r2 := q / b, q % b;
    assert v == a * q + r && q == b * q2 + r2;
    assert a * q == a * (b * q2) + a * r2 by { Distribute(a, b * q2, r2); }
    assert a * (b * q2) == (a * b) * q2 by { MulAssoc(a, b, q2); }
    assert v == (a * b) * q2 + (a * r2 + r);
    assert a * r2 <= a * (b - 1) by { MulMono(a, r2, b - 1); }
    assert a * (b - 1) == a * b - a by { Distribute(a, b, -1); }
    DivUnique(v, a * b, q2, a * r2 + r);
  }

  lemma MulAssoc(a: int, b: int, c: int)
    ensures a * (b * c) == (a * b) * c
  {}

  lemma Distribute(a: int, b: int, c: int)
    ensures a * (b + c) == a * b + a * c
  {}

  lemma MulMono(a: int, b: int, c: int)
    requires 0 <= a && b <= c
    ensures a * b <= a * c
  {}

  lemma DivUnique(v: int, d: int, q: int, r: int)
    requires d > 0 && v == d * q + r && 0 <= r < d
    ensures v / d == q && v % d == r
  {
    var q', r' := v / d, v % d;
    assert v == d * q' + r';
    assert d * (q - q') == r' - r by { Distribute(d, q, -q'); }
    if q - q' >= 1 { MulMono(d, 1, q - q'); assert false; }
    if q - q' <= -1 { MulMono(d, q - q', -1); assert false; }
  }

  /** Bit i of the stream of v is bit i of the number: (v >> i) & 1. */
  lemma {:induction false} ToBitsAt(v: nat, n: nat, i: nat)
    requires i < n
    ensures ToBits(v, n)[i] == ((v / Pow2(i)) % 2 == 1)
    decreases n
  {
    if i > 0 {
      ToBitsAt(v / 2, n - 1, i - 1);
      HalfShift(v, i - 1);
    }
  }

  lemma {:induction false} FromBitsBound(b: Bits)
    ensures FromBits(b) < Pow2(|b|)
  {
    if b != [] { FromBitsBound(b[1..]); }
  }

  /** Writing n bits and reading them back keeps the number modulo 2^n. */
  lemma {:induction false} FromToBits(v: nat, n: nat)
    ensures FromBits(ToBits(v, n)) == v % Pow2(n)
    decreases n
  {
    if n > 0 {
      FromToBits(v / 2, n - 1);
      assert ToBits(v, n)[1..] == ToBits(v / 2, n - 1);
      ModStep(v, Pow2(n - 1));
    }
  }

  lemma ModStep(v: nat, p: nat)
    requires p > 0
    ensures v % (2 * p) == 2 * ((v / 2) % p) + v % 2
  {
    var q, r := (v / 2) / p, (v / 2) % p;
    assert v / 2 == p * q + r;
    MulAssoc(2, p, q);
    DivUnique(v, 2 * p, q, 2 * r + v % 2);
  }

  lemma FromToBitsSmall(v: nat, n: nat)
    requires v < Pow2(n)
    ensures FromBits(ToBits(v, n)) == v
  {
    FromToBits(v, n);
    DivUnique(v, Pow2(n), 0, v);
  }

  /** Reading bits and writing the number again gives the same bits. */
  lemma {:induction false} ToFromBits(b: Bits)
    ensures ToBits(FromBits(b), |b|) == b
  {
    if b != [] {
      ToFromBits(b[1..]);
      assert FromBits(b) / 2 == FromBits(b[1..]);
    }
  }

  lemma {:induction false} FromBitsAppend(a: Bits, b: Bits)
    ensures FromBits(a + b) == FromBits(a) + Pow2(|a|) * FromBits(b)
  {
    if a == [] {
      assert a + b == b;
    } else {
      FromBitsAppend(a[1..], b);
      assert (a + b)[1..] == a[1..] + b;
      MulAssoc(2, Pow2(|a| - 1), FromBits(b));
    }
  }

  lemma AppendBit(e: Bits, b: bool)
    ensures FromBits(e + [b]) == FromBits(e) + (if b then Pow2(|e|) else 0)
  {
    hide FromBits, Pow2;
    FromBitsAppend(e, [b]);
    SingleBit(b);
    var m := Pow2(|e|);
    assert m * 1 == m && m * 0 == 0;
  }

  lemma SingleBit(b: bool)
    ensures FromBits([b]) == if b then 1 else 0
  {
    assert FromBits([b][1..]) == 0;
  }

  // ---- Streams and cursors ------------------------------------------------

  /** The encoding e stands in s at position p. */
  predicate At(s: Bits, p: nat, e: Bits)
  {
    p + |e| <= |s| && s[p..p + |e|] == e
  }

  lemma AtBound(s: Bits, p: nat, e: Bits)
    requires At(s, p, e)
    ensures p + |e| <= |s|
  {}

  lemma AtSplit(s: Bits, p: nat, a: Bits, b: Bits)
    requires At(s, p, a + b)
    ensures At(s, p, a) && At(s, p + |a|, b)
  {
    var w := s[p..p + |a + b|];
    assert w[..|a|] == a && w[|a|..] == b;
    assert w[..|a|] == s[p..p + |a|];
    assert w[|a|..] == s[p + |a|..p + |a| + |b|];
  }

  lemma AtSplit3(s: Bits, p: nat, a: Bits, b: Bits, c: Bits)
    requires At(s, p, a + b + c)
    ensures At(s, p, a) && At(s, p + |a|, b) && At(s, p + |a| + |b|, c)
  {
    hide At;
    AtSplit(s, p, a + b, c);
    AtSplit(s, p, a, b);
  }

  lemma AtSplit4(s: Bits, p: nat, a: Bits, b: Bits, c: Bits, d: Bits)
    requires At(s, p, a + b + c + d)
    ensures At(s, p, a) && At(s, p + |a|, b) && At(s, p + |a| + |b|, c)
    ensures At(s, p + |a| + |b| + |c|, d)
  {
    hide At;
    AtSplit(s, p, a + b + c, d);
    AtSplit3(s, p, a, b, c);
  }

  lemma Assoc(a: Bits, b: Bits, c: Bits)
    ensures (a + b) + c == a + (b + c)
  {}

  lemma Assoc3(c: Bits, e: Bits, f: Bits, g: Bits)
    ensures c + e + f + g == c + (e + f + g)
  {
    Assoc(c, e, f);
    Assoc(c, e + f, g);
  }

  lemma Assoc4(c: Bits, e: Bits, f: Bits, g: Bits, h: Bits)
    ensures c + e + f + g + h == c + (e + f + g + h)
  {
    Assoc3(c, e, f, g);
    Assoc(c, e + f + g, h);
  }

  /** The n bits at p, where every bit past the end of the stream reads as zero. */
  function Window(s: Bits, p: nat, n: nat): (w: Bits)
    ensures |w| == n
    ensures p + n <= |s| ==> w == s[p..p + n]
  {
    seq(n, i requires 0 <= i < n => p + i < |s| && s[p + i])
  }

  function ReadN(s: Bits, p: nat, n: nat): nat
  {
    FromBits(Window(s, p, n))
  }

  lemma ReadNAt(s: Bits, p: nat, v: nat, n: nat)
    requires At(s, p, ToBits(v, n))
    ensures ReadN(s, p, n) == v % Pow2(n)
  {
    FromToBits(v, n);
  }

  lemma ReadNSmall(s: Bits, p: nat, v: nat, n: nat)
    requires At(s, p, ToBits(v, n)) && v < Pow2(n)
    ensures ReadN(s, p, n) == v
  {
    FromToBitsSmall(v, n);
  }

  lemma ReadNBound(s: Bits, p: nat, n: nat)
    ensures ReadN(s, p, n) < Pow2(n)
  {
    FromBitsBound(Window(s, p, n));
  }

  lemma ReadBitAt(s: Bits, p: nat, b: bool)
    requires At(s, p, [b])
    ensures p < |s| && s[p] == b
  {
    assert s[p..p + 1][0] == b;
  }

  lemma Pow2Values()
    ensures Pow2(1) == 2 && Pow2(7) == 128 && Pow2(8) == 256 && Pow2(10) == 1024
    ensures Pow2(13) == 8192 && Pow2(14) == 16384 && Pow2(16) == U16
    ensures Pow2(31) == 0x8000_0000 && Pow2(32) == U32 && Pow2(64) == U64
  {
    assert Pow2(4) == 16;
    Pow2Add(4, 4); Pow2Add(8, 2); Pow2Add(10, 3); Pow2Add(10, 4);
    Pow2Add(8, 8); Pow2Add(16, 16); Pow2Add(32, 32);
    assert Pow2(32) == 2 * Pow2(31);
  }

  lemma Pow2Of8() ensures Pow2(8) == 256 { Pow2Values(); }
  lemma Pow2Of16() ensures Pow2(16) == U16 { Pow2Values(); }
  lemma Pow2Of31() ensures Pow2(31) == 0x8000_0000 { Pow2Values(); }
  lemma Pow2Of32() ensures Pow2(32) == U32 { Pow2Values(); }
  lemma Pow2Of64() ensures Pow2(64) == U64 { Pow2Values(); }

  // ---- Byte buffers -------------------------------------------------------

  /** 1 << k for a byte. */
  function Mask(k: nat): bv8
    requires k < 8
  {
    if k == 0 then 1 else if k == 1 then 2 else if k == 2 then 4 else if k == 3 then 8
    else if k == 4 then 16 else if k == 5 then 32 else if k == 6 then 64 else 128
  }

  /** (b >> k) & 1 for a byte. */
  predicate ByteBit(b: bv8, k: nat)
    requires k < 8
  {
    b & Mask(k) != 0
  }

  function ByteWith(b: bv8, k: nat, on: bool): bv8
    requires k < 8
  {
    if on then b | Mask(k) else b & !Mask(k)
  }

  lemma ByteWithBits(b: bv8, k: nat, on: bool, j: nat)
    requires k < 8 && j < 8
    ensures ByteBit(ByteWith(b, k, on), j) == if j == k then on else ByteBit(b, j)
  {
    MaskDisjoint(k, j);
    if on { OrBit(b, Mask(k), Mask(j)); } else { AndNotBit(b, Mask(k), Mask(j)); }
  }

  lemma MaskDisjoint(k: nat, j: nat)
    requires j < 8 && k < 8
    ensures Mask(k) != 0
    ensures j != k ==> Mask(k) & Mask(j) == 0
  {}

  lemma OrBit(b: bv8, m: bv8, t: bv8)
    requires m != 0 && (m & t == 0 || m == t)
    ensures (b | m) & t == if m == t then t else b & t
  {}

  lemma AndNotBit(b: bv8, m: bv8, t: bv8)
    requires m != 0 && (m & t == 0 || m == t)
    ensures (b & !m) & t == if m == t then 0 else b & t
  {}

  lemma ZeroByteBit(k: nat)
    requires k < 8
    ensures !ByteBit(0, k)
  {}

  /** Bit i of a byte buffer. */
  predicate BufBit(d: seq<bv8>, i: nat)
    requires i < 8 * |d|
  {
    ByteBit(d[i / 8], i % 8)
  }

  /** The stream a byte buffer holds. */
  function BytesToBits(d: seq<bv8>): (s: Bits)
    ensures |s| == 8 * |d|
  {
    seq(8 * |d|, i requires 0 <= i < 8 * |d| => BufBit(d, i))
  }

  lemma {:induction false} ByteExt(a: bv8, b: bv8)
    requires forall k: nat | k < 8 :: ByteBit(a, k) == ByteBit(b, k)
    ensures a == b
  {
    assert ByteBit(a, 0) == ByteBit(b, 0) && ByteBit(a, 1) == ByteBit(b, 1);
    assert ByteBit(a, 2) == ByteBit(b, 2) && ByteBit(a, 3) == ByteBit(b, 3);
    assert ByteBit(a, 4) == ByteBit(b, 4) && ByteBit(a, 5) == ByteBit(b, 5);
    assert ByteBit(a, 6) == ByteBit(b, 6) && ByteBit(a, 7) == ByteBit(b, 7);
  }

  /** Two byte buffers with the same bits are the same bytes. */
  lemma BytesExt(x: seq<bv8>, y: seq<bv8>)
    requires BytesToBits(x) == BytesToBits(y)
    ensures x == y
  {
    assert 8 * |x| == 8 * |y|;
    forall j: nat | j < |x| ensures x[j] == y[j] {
      forall k: nat | k < 8 ensures ByteBit(x[j], k) == ByteBit(y[j], k) {
        assert BytesToBits(x)[8 * j + k] == BytesToBits(y)[8 * j + k];
      }
      ByteExt(x[j], y[j]);
    }
  }
}
