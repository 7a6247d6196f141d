/** PacketAssembler::finalize, the termination bit, and the reader of a whole packet. */
module Packet {
  import opened Bits
  import opened Codec
  import opened BitWriters
  import opened Bunches
  import opened ReplayDecoder
  import S = ScBunchParser

  datatype PacketConfig = PacketConfig(magic: nat, sessionId: nat, clientId: nat, outSeq: nat, inAckSeq: nat,
                                       histCount: nat, customField: Str, customValid: bool,
                                       hasPktInfo: bool, jitterMs: nat, hasSrvFrame: bool, frameTime: Byte)

  /** The C++ field widths, and a custom field of six bytes. */
  predicate ConfigFits(c: PacketConfig)
  {
    && c.magic < U32 && c.sessionId < 256 && c.clientId < 256 && c.outSeq < U16 && c.inAckSeq < U16
    && c.histCount < U16 && |c.customField| == 6 && c.jitterMs < U16
  }

  function Zeros(n: nat): (z: Bits)
    ensures |z| == n
  {
    seq(n, _ => false)
  }

  function OuterBits(c: PacketConfig): Bits
  {
    ToBits(c.magic, 32) + ToBits(c.sessionId, 2) + ToBits(c.clientId, 3) + [false]
  }

  /** out_seq in 14 bits, in_ack_seq in 14, hist_count - 1 in 4. */
  function Packed(c: PacketConfig): nat
  {
    c.outSeq % 0x4000 * 0x4_0000 + c.inAckSeq % 0x4000 * 16 + (c.histCount - 1) % 16
  }

  function NotifyBits(c: PacketConfig): Bits
  {
    ToBits(Packed(c), 32) + Zeros(32 * c.histCount)
  }

  function CustomBits(c: PacketConfig): Bits
  {
    if c.customValid then Chars(c.customField) else []
  }

  function PktInfoBits(c: PacketConfig): Bits
  {
    if c.hasPktInfo then [true] + ToBits(c.jitterMs, 10) else [false]
  }

  function SrvFrameBits(c: PacketConfig): Bits
  {
    if c.hasSrvFrame then [true] + ToBits(c.frameTime, 8) else [false]
  }

  function InfoBits(c: PacketConfig): Bits
  {
    PktInfoBits(c) + SrvFrameBits(c)
  }

  function PrefixBits(c: PacketConfig): Bits
  {
    OuterBits(c) + NotifyBits(c) + CustomBits(c) + InfoBits(c)
  }

  function Pad(n: nat): nat { (8 - n % 8) % 8 }

  /** Prefix, bunches, sentinel, termination bit, and zeros to the byte boundary. */
  function PacketBits(c: PacketConfig, bs: seq<Bunch>): Bits
  {
    Terminated(PrefixBits(c) + BunchesBits(bs))
  }

  function Terminated(body: Bits): (r: Bits)
    ensures |r| % 8 == 0
  {
    body + [true, true] + Zeros(Pad(|body| + 2))
  }

  // ---- The assembler ------------------------------------------------------------------

  ghost function Snapshot(bs: seq<BunchBuilder>): seq<Bunch>
    reads bs, set b | b in bs :: b.data
  {
    seq(|bs|, i requires 0 <= i < |bs| reads bs, set b | b in bs :: b.data =>
      Bunch(bs[i].header, bs[i].data.Contents))
  }

  class PacketAssembler {
    const config: PacketConfig
    const writer: BitWriter
    var bunches: seq<BunchBuilder>

    ghost predicate Valid()
      reads this, writer, writer.data, bunches, set b | b in bunches :: b.data, set b | b in bunches :: b.data.data
    {
      && writer.Valid() && ConfigFits(config)
      && forall b :: b in bunches ==> b.Valid() && b.data != writer && b.data.data != writer.data
    }

    constructor (config: PacketConfig)
      requires ConfigFits(config)
      ensures Valid() && this.config == config && bunches == [] && fresh(writer) && fresh(writer.data)
    {
      this.config := config;
      writer := new BitWriter(16384);
      bunches := [];
    }

    /** Bunches are kept by reference: their contents are read when the packet is made. */
    method AddBunch(bunch: BunchBuilder)
      requires Valid() && bunch.Valid() && bunch.data != writer && bunch.data.data != writer.data
      modifies this`bunches
      ensures Valid() && bunches == old(bunches) + [bunch]
    {
      bunches := bunches + [bunch];
    }

    /** Build the packet; its bytes are the first n of the writer's buffer. */
    method Finalize() returns (n: nat)
      requires Valid()
      modifies writer, writer.data
      ensures Valid() && writer.Contents == PacketBits(config, Snapshot(bunches))
      ensures Snapshot(bunches) == old(Snapshot(bunches))
      ensures n <= writer.data.Length && BytesToBits(writer.data[..n]) == writer.Contents
    {
      hide Holds, PrefixBits, Zeros, ConfigFits, BytesToBits, BunchesBits, BunchBits;
      writer.Reset();
      WritePrefix(config, writer);
      WriteBunches(bunches, writer);
      WriteTermination(writer);
      n := (writer.bitPos + 7) / 8;
      HoldsWhole(writer.data[..], writer.Contents, n);
    }
  }

  method WriteBunches(bunches: seq<BunchBuilder>, w: BitWriter)
    requires w.Valid() && forall b :: b in bunches ==> b.Valid() && b.data != w && b.data.data != w.data
    modifies w, w.data
    ensures w.Valid() && w.Contents == old(w.Contents) + BunchesBits(old(Snapshot(bunches)))
    ensures w.data == old(w.data) || fresh(w.data)
  {
    hide Holds, BunchBits;
    ghost var bs := Snapshot(bunches);
    ghost var c := w.Contents;
    for i := 0 to |bunches|
      invariant w.Valid() && (w.data == old(w.data) || fresh(w.data))
      invariant forall b :: b in bunches ==> b.data.data != w.data
      invariant w.Contents + BunchesBits(bs[i..]) == c + BunchesBits(bs)
    {
      ghost var c1 := w.Contents;
      var written := bunches[i].WriteTo(w);
      assert bs[i] == Bunch(bunches[i].header, bunches[i].data.Contents);
      assert bs[i..][0] == bs[i] && bs[i..][1..] == bs[i + 1..];
      Assoc(c1, BunchBits(bs[i].h, bs[i].payload), BunchesBits(bs[i + 1..]));
    }
    assert w.Contents + [] == w.Contents;
  }

  lemma HoldsWhole(d: seq<bv8>, c: Bits, n: nat)
    requires Holds(d, c) && |c| % 8 == 0 && n == (|c| + 7) / 8
    ensures n <= |d| && BytesToBits(d[..n]) == c
  {
    assert 8 * n == |c|;
    forall i: nat | i < 8 * n ensures BytesToBits(d[..n])[i] == c[i] {
      assert BufBit(d, i) == (i < |c| && c[i]);
    }
  }

  method WriteTermination(w: BitWriter)
    requires w.Valid()
    modifies w, w.data
    ensures w.Valid() && w.Contents == Terminated(old(w.Contents))
    ensures w.data == old(w.data) || fresh(w.data)
  {
    hide Holds;
    ghost var c := w.Contents;
    w.WriteBit(true);
    w.WriteBit(true);
    assert w.Contents == c + [true, true];
    ghost var c2 := w.Contents;
    var pad := (8 - w.bitPos % 8) % 8;
    for i := 0 to pad
      invariant w.Valid() && (w.data == old(w.data) || fresh(w.data)) && w.Contents == c2 + Zeros(i)
    {
      w.WriteBit(false);
      assert Zeros(i + 1) == Zeros(i) + [false];
    }
  }

  method WritePrefix(c: PacketConfig, w: BitWriter)
    requires w.Valid() && w.Contents == [] && ConfigFits(c)
    modifies w, w.data
    ensures w.Valid() && w.Contents == PrefixBits(c)
    ensures w.data == old(w.data) || fresh(w.data)
  {
    hide Holds, ToBits, OuterBits, NotifyBits, CustomBits, InfoBits;
    WriteOuter(c, w);
    assert [] + OuterBits(c) == OuterBits(c);
    WriteNotify(c, w);
    WriteCustom(c, w);
    WriteInfo(c, w);
  }

  method WriteOuter(c: PacketConfig, w: BitWriter)
    requires w.Valid()
    modifies w, w.data
    ensures w.Valid() && w.Contents == old(w.Contents) + OuterBits(c)
    ensures w.data == old(w.data) || fresh(w.data)
  {
    hide Holds, ToBits;
    w.Write(c.magic, 32);
    w.Write(c.sessionId, 2);
    w.Write(c.clientId, 3);
    w.WriteBit(false);
    Assoc4(old(w.Contents), ToBits(c.magic, 32), ToBits(c.sessionId, 2), ToBits(c.clientId, 3), [false]);
  }

  method WriteNotify(c: PacketConfig, w: BitWriter)
    requires w.Valid()
    modifies w, w.data
    ensures w.Valid() && w.Contents == old(w.Contents) + NotifyBits(c)
    ensures w.data == old(w.data) || fresh(w.data)
  {
    hide Holds, ToBits, Zeros;
    var packed := c.outSeq % 0x4000 * 0x4_0000 + c.inAckSeq % 0x4000 * 16 + (c.histCount - 1) % 16;
    w.Write(packed, 32);
    ghost var c1 := w.Contents;
    NoZeros(c1);
    for i := 0 to c.histCount
      invariant w.Valid() && (w.data == old(w.data) || fresh(w.data)) && w.Contents == c1 + Zeros(32 * i)
    {
      w.Write(0, 32);
      ZeroWord(i);
      Assoc(c1, Zeros(32 * i), ToBits(0, 32));
    }
    Assoc(old(w.Contents), ToBits(packed, 32), Zeros(32 * c.histCount));
  }

  lemma NoZeros(c: Bits)
    ensures c + Zeros(32 * 0) == c
  {}

  lemma {:induction false} ZeroBits(n: nat)
    ensures ToBits(0, n) == Zeros(n)
  {
    if n > 0 { ZeroBits(n - 1); }
  }

  lemma ZeroWord(i: nat)
    ensures Zeros(32 * i) + ToBits(0, 32) == Zeros(32 * (i + 1))
  {
    ZeroBits(32);
  }

  method WriteCustom(c: PacketConfig, w: BitWriter)
    requires w.Valid() && ConfigFits(c)
    modifies w, w.data
    ensures w.Valid() && w.Contents == old(w.Contents) + CustomBits(c)
    ensures w.data == old(w.data) || fresh(w.data)
  {
    hide Holds, ToBits;
    var t := c.customField;
    if c.customValid {
      for i := 0 to 6
        invariant w.Valid() && (w.data == old(w.data) || fresh(w.data))
        invariant w.Contents == old(w.Contents) + Chars(t[..i])
      {
        w.Write(t[i], 8);
        assert t[..i + 1][..i] == t[..i];
        Assoc(old(w.Contents), Chars(t[..i]), ToBits(t[i], 8));
      }
      assert t[..6] == t;
    }
  }

  method WriteInfo(c: PacketConfig, w: BitWriter)
    requires w.Valid()
    modifies w, w.data
    ensures w.Valid() && w.Contents == old(w.Contents) + InfoBits(c)
    ensures w.data == old(w.data) || fresh(w.data)
  {
    hide Holds, ToBits;
    ghost var c0 := w.Contents;
    w.WriteBit(c.hasPktInfo);
    if c.hasPktInfo {
      w.Write(c.jitterMs, 10);
      Assoc(c0, [true], ToBits(c.jitterMs, 10));
    }
    assert w.Contents == c0 + PktInfoBits(c);
    ghost var c1 := w.Contents;
    w.WriteBit(c.hasSrvFrame);
    if c.hasSrvFrame {
      w.Write(c.frameTime, 8);
      Assoc(c1, [true], ToBits(c.frameTime, 8));
    }
    assert w.Contents == c1 + SrvFrameBits(c);
    Assoc(c0, PktInfoBits(c), SrvFrameBits(c));
  }

  // ---- Termination ------------------------------------------------------------------------

  /** The last one bit of a stream. */
  predicate LastOne(s: Bits, k: nat)
  {
    k < |s| && s[k] && forall j: nat :: k < j < |s| ==> !s[j]
  }

  lemma ShiftBits(b: bv8, j: nat)
    requires j < 8
    ensures ByteBit(b << 1, j) == (j > 0 && ByteBit(b, j - 1))
  {}

  lemma TopBit(b: bv8)
    ensures ByteBit(b, 7) == (b & 0x80 != 0)
  {}

  /** Where the termination bit is: the last one bit when the last byte has one, and
      otherwise the end of the buffer. */
  predicate Stripped(d: seq<bv8>, bits: nat)
  {
    if |d| == 0 then bits == 0
    else if d[|d| - 1] == 0 then bits == 8 * |d|
    else LastOne(BytesToBits(d), bits) && bits >= 8 * (|d| - 1)
  }

  /** strip_termination: the index of the last one bit when the last byte has one. */
  method StripTermination(data: seq<bv8>) returns (bits: nat)
    ensures Stripped(data, bits)
  {
    hide ByteBit, BytesToBits;
    if |data| == 0 { return 0; }
    var last := data[|data| - 1];
    bits := 8 * |data|;
    if last != 0 {
      bits := bits - 1;
      ghost var orig := last;
      ghost var k := 0;
      while last & 0x80 == 0
        invariant k <= 7 && bits == 8 * |data| - 1 - k && Shifted(orig, last, k)
        decreases 8 - k
      {
        ShiftStep(orig, last, k);
        last := last << 1;
        bits := bits - 1;
        k := k + 1;
      }
      TopBit(last);
      LastByte(data, orig, 7 - k);
    }
  }

  /** last is orig shifted left k times, and no one has been shifted out. */
  ghost predicate Shifted(orig: bv8, last: bv8, k: nat)
  {
    && (forall j: nat :: j < 8 ==> ByteBit(last, j) == (j >= k && ByteBit(orig, j - k)))
    && (forall j: nat :: 8 - k <= j < 8 ==> !ByteBit(orig, j))
  }

  lemma ShiftStep(orig: bv8, last: bv8, k: nat)
    requires orig != 0 && k <= 7 && Shifted(orig, last, k) && last & 0x80 == 0
    ensures k < 7 && Shifted(orig, last << 1, k + 1)
  {
    hide ByteBit;
    TopBit(last);
    assert !ByteBit(orig, 7 - k);
    if k == 7 {
      forall j: nat | j < 8 ensures ByteBit(orig, j) == ByteBit(0, j) { ZeroByteBit(j); }
      ByteExt(orig, 0);
      assert false;
    }
    var shifted := last << 1;
    forall j: nat | j < 8 ensures ByteBit(shifted, j) == (j > 0 && ByteBit(last, j - 1)) { ShiftBits(last, j); }
  }

  lemma LastByte(data: seq<bv8>, last: bv8, i: nat)
    requires |data| > 0 && last == data[|data| - 1] && i < 8 && ByteBit(last, i)
    requires forall j: nat :: i < j < 8 ==> !ByteBit(last, j)
    ensures LastOne(BytesToBits(data), 8 * (|data| - 1) + i)
  {
    var s := BytesToBits(data);
    forall k: nat | 8 * (|data| - 1) <= k < |s| ensures s[k] == ByteBit(last, k - 8 * (|data| - 1)) {
      assert s[k] == BufBit(data, k);
    }
  }

  lemma LastOneUnique(s: Bits, j: nat, k: nat)
    requires LastOne(s, j) && LastOne(s, k)
    ensures j == k
  {}

  /** The termination bit of a finished body is its last one, in its last byte. */
  lemma TerminatedLast(body: Bits)
    ensures LastOne(Terminated(body), |body| + 1)
    ensures |Terminated(body)| - 8 < |body| + 2 <= |Terminated(body)|
  {}

  lemma LastByteNonZero(d: seq<bv8>, k: nat)
    requires LastOne(BytesToBits(d), k) && 8 * |d| - 8 <= k
    ensures |d| > 0 && d[|d| - 1] != 0
  {
    assert BytesToBits(d)[k] == BufBit(d, k);
    ZeroByteBit(k % 8);
  }

  // ---- The reader of a packet ----------------------------------------------------------------

  datatype PacketRead = PacketRead(magic: nat, sessionId: nat, clientId: nat, handshake: bool,
                                   outSeq: nat, inAckSeq: nat, histCount: nat, custom: Str,
                                   hasPktInfo: bool, jitterMs: nat, hasSrvFrame: bool, frameTime: nat, next: nat)

  datatype InfoRead = InfoRead(hasPktInfo: bool, jitterMs: nat, hasSrvFrame: bool, frameTime: nat, next: nat)

  function ReadInfo(s: Bits, p: nat): InfoRead
  {
    var has := Peek(s, p);
    var q := if has then p + 11 else p + 1;
    var srv := Peek(s, q);
    InfoRead(has, if has then ReadN(s, p + 1, 10) else 0, srv, if srv then ReadN(s, q + 1, 8) else 0,
             if srv then q + 9 else q + 1)
  }

  /** The fields before the bunches, for a reader that knows whether the custom field is there. */
  function ReadPrefix(s: Bits, customPresent: bool): PacketRead
  {
    var packed := ReadN(s, 38, 32);
    var hist := packed % 16 + 1;
    var p := 70 + 32 * hist;
    var q := if customPresent then p + 48 else p;
    var info := ReadInfo(s, q);
    PacketRead(ReadN(s, 0, 32), ReadN(s, 32, 2), ReadN(s, 34, 3), Peek(s, 37),
               packed / 0x4_0000, packed / 16 % 0x4000, hist, if customPresent then ReadBytes(s, p, 6) else [],
               info.hasPktInfo, info.jitterMs, info.hasSrvFrame, info.frameTime, info.next)
  }

  /** The configuration as it can be known from the wire: masked to the field widths. */
  function WirePrefix(c: PacketConfig): PacketRead
  {
    PacketRead(c.magic, c.sessionId % 4, c.clientId % 8, false, c.outSeq % 0x4000, c.inAckSeq % 0x4000, c.histCount,
               if c.customValid then c.customField else [], c.hasPktInfo, if c.hasPktInfo then c.jitterMs % 1024 else 0,
               c.hasSrvFrame, if c.hasSrvFrame then c.frameTime else 0, |PrefixBits(c)|)
  }

  lemma OuterIs(s: Bits, c: PacketConfig)
    requires ConfigFits(c) && At(s, 0, OuterBits(c))
    ensures ReadN(s, 0, 32) == c.magic && ReadN(s, 32, 2) == c.sessionId % 4 && ReadN(s, 34, 3) == c.clientId % 8
    ensures !Peek(s, 37) && |OuterBits(c)| == 38
  {
    hide At, ToBits, ReadN;
    AtSplit4(s, 0, ToBits(c.magic, 32), ToBits(c.sessionId, 2), ToBits(c.clientId, 3), [false]);
    Pow2Of32();
    ReadNSmall(s, 0, c.magic, 32);
    ReadNAt(s, 32, c.sessionId, 2);
    ReadNAt(s, 34, c.clientId, 3);
    ReadBitAt(s, 37, false);
    assert Pow2(2) == 4 && Pow2(3) == 8;
  }

  lemma Unpack(a: nat, b: nat, k: nat)
    requires a < 0x4000 && b < 0x4000 && k < 16
    ensures var p := a * 0x4_0000 + b * 16 + k;
            p < U32 && p % 16 == k && p / 16 % 0x4000 == b && p / 0x4_0000 == a
  {
    var p := a * 0x4_0000 + b * 16 + k;
    DivUnique(p, 16, a * 0x4000 + b, k);
    DivUnique(a * 0x4000 + b, 0x4000, a, b);
    DivUnique(p, 0x4_0000, a, b * 16 + k);
  }

  lemma PackedFields(c: PacketConfig)
    ensures Packed(c) < U32
    ensures Packed(c) / 16 % 0x4000 == c.inAckSeq % 0x4000 && Packed(c) / 0x4_0000 == c.outSeq % 0x4000
  {
    Unpack(c.outSeq % 0x4000, c.inAckSeq % 0x4000, (c.histCount - 1) % 16);
  }

  /** The history count survives its four bits exactly when it is between 1 and 16. */
  lemma HistCountExact(c: PacketConfig)
    requires ConfigFits(c)
    ensures Packed(c) % 16 + 1 == c.histCount <==> 1 <= c.histCount <= 16
  {
    var k := (c.histCount - 1) % 16;
    Unpack(c.outSeq % 0x4000, c.inAckSeq % 0x4000, k);
    assert Packed(c) % 16 == k;
    if 1 <= c.histCount <= 16 { DivUnique(c.histCount - 1, 16, 0, c.histCount - 1); }
  }

  lemma NotifyIs(s: Bits, c: PacketConfig)
    requires At(s, 38, NotifyBits(c))
    ensures ReadN(s, 38, 32) == Packed(c) && |NotifyBits(c)| == 32 + 32 * c.histCount
  {
    hide At, ToBits, ReadN, Zeros, Packed;
    AtSplit(s, 38, ToBits(Packed(c), 32), Zeros(32 * c.histCount));
    PackedFields(c);
    Pow2Of32();
    ReadNSmall(s, 38, Packed(c), 32);
  }

  lemma InfoIs(s: Bits, p: nat, c: PacketConfig)
    requires At(s, p, InfoBits(c))
    ensures ReadInfo(s, p) == InfoRead(c.hasPktInfo, if c.hasPktInfo then c.jitterMs % 1024 else 0,
                                       c.hasSrvFrame, if c.hasSrvFrame then c.frameTime else 0, p + |InfoBits(c)|)
  {
    hide At, ToBits, ReadN, Peek, Pow2;
    assert Pow2(10) == 1024 by { Pow2Values(); }
    var q := p + |PktInfoBits(c)|;
    AtSplit(s, p, PktInfoBits(c), SrvFrameBits(c));
    if c.hasPktInfo {
      AtSplit(s, p, [true], ToBits(c.jitterMs, 10));
      ReadNAt(s, p + 1, c.jitterMs, 10);
    }
    if c.hasSrvFrame {
      AtSplit(s, q, [true], ToBits(c.frameTime, 8));
      ReadByteAt(s, q + 1, c.frameTime);
    }
    PeekAt(s, p, c.hasPktInfo);
    PeekAt(s, q, c.hasSrvFrame);
  }

  /** The fields in front of the bunches are read back, masked to their widths, if and
      only if the history count is one that four bits can hold. */
  lemma PrefixRoundTrip(s: Bits, c: PacketConfig)
    requires ConfigFits(c) && At(s, 0, PrefixBits(c))
    ensures ReadPrefix(s, c.customValid) == WirePrefix(c) <==> 1 <= c.histCount <= 16
  {
    hide At, ToBits, ReadN, OuterBits, NotifyBits, InfoBits, Chars, ReadBytes, ReadInfo, Packed, Peek;
    AtSplit4(s, 0, OuterBits(c), NotifyBits(c), CustomBits(c), InfoBits(c));
    OuterIs(s, c);
    NotifyIs(s, c);
    PackedFields(c);
    HistCountExact(c);
    if 1 <= c.histCount <= 16 {
      var p := 70 + 32 * c.histCount;
      if c.customValid { CharsRoundTrip(s, p, c.customField); }
      InfoIs(s, p + |CustomBits(c)|, c);
    }
  }

  lemma BodyParts(c: PacketConfig, bs: seq<Bunch>)
    ensures At(PacketBits(c, bs), 0, PrefixBits(c))
    ensures At(PacketBits(c, bs), |PrefixBits(c)|, BunchesBits(bs))
    ensures PacketBits(c, bs)[|PrefixBits(c)| + |BunchesBits(bs)|]
  {
    hide PrefixBits, BunchesBits;
    var s := PacketBits(c, bs);
    var body := PrefixBits(c) + BunchesBits(bs);
    assert s[..|body|] == body;
    AtSplit(s, 0, PrefixBits(c), BunchesBits(bs));
  }

  /** A packet ends where strip_termination says: behind its sentinel. */
  lemma StrippedExactly(d: seq<bv8>, body: Bits, bits: nat)
    requires BytesToBits(d) == Terminated(body)
    ensures |d| > 0 && d[|d| - 1] != 0
    ensures Stripped(d, bits) <==> bits == |body| + 1
  {
    hide BytesToBits, Terminated, LastOne;
    TerminatedLast(body);
    LastByteNonZero(d, |body| + 1);
    if Stripped(d, bits) { LastOneUnique(BytesToBits(d), bits, |body| + 1); }
  }

  /** Main law of the packet: strip the padding and the termination bit, drop the
      sentinel, read the fields and loop over the bunches, and out come the
      configuration, masked to its widths, and exactly the bunches, with no bit left. */
  lemma PacketRoundTrip(d: seq<bv8>, c: PacketConfig, bs: seq<Bunch>)
    requires ConfigFits(c) && 1 <= c.histCount <= 16 && AllReadable(bs) && BytesToBits(d) == PacketBits(c, bs)
    ensures var s := BytesToBits(d);
            var start := |PrefixBits(c)|; var end := start + |BunchesBits(bs)|;
            && |d| > 0 && d[|d| - 1] != 0 && LastOne(s, end + 1) && s[end]
            && (forall bits: nat :: Stripped(d, bits) <==> bits == end + 1)
            && ReadPrefix(s, c.customValid) == WirePrefix(c) && WirePrefix(c).next == start
            && BunchesAt(s, start, end, 16) == Decoded(s, start, bs)
            && forall i: nat :: i < |bs| ==> At(s, Decoded(s, start, bs)[i].start, bs[i].payload)
  {
    hide At, PrefixBits, BunchesBits, BytesToBits, ReadPrefix, AllReadable, BunchesAt, Decoded, ConfigFits, BunchBits,
         Stripped, Terminated, LastOne;
    var s := BytesToBits(d);
    var start := |PrefixBits(c)|;
    var end := start + |BunchesBits(bs)|;
    BodyParts(c, bs);
    TerminatedLast(PrefixBits(c) + BunchesBits(bs));
    forall bits: nat ensures Stripped(d, bits) <==> bits == end + 1 {
      StrippedExactly(d, PrefixBits(c) + BunchesBits(bs), bits);
    }
    LastByteNonZero(d, end + 1);
    PrefixRoundTrip(s, c);
    LongEnough(bs);
    BunchLoopExact(s, start, bs, 16);
    forall i: nat | i < |bs| ensures At(s, Decoded(s, start, bs)[i].start, bs[i].payload) {
      WindowsHoldPayloads(s, start, bs, i);
    }
  }

  /** The same packet for the C++ reader: its loop, up to what strip_termination leaves,
      with or without the sentinel, returns exactly the bunches. */
  lemma CppPacketRoundTrip(d: seq<bv8>, c: PacketConfig, bs: seq<Bunch>, eff: nat)
    requires S.AllReadable(bs) && BytesToBits(d) == PacketBits(c, bs)
    requires Stripped(d, eff) || Stripped(d, eff + 1)
    ensures S.ParseAll(BytesToBits(d), eff, |PrefixBits(c)|) == S.WireSummaries(bs)
  {
    hide *;
    var body := PrefixBits(c) + BunchesBits(bs);
    PacketIs(c, bs);
    StrippedExactly(d, body, eff);
    StrippedExactly(d, body, eff + 1);
    BodyParts(c, bs);
    S.ParseAllRoundTrip(BytesToBits(d), eff, |PrefixBits(c)|, bs);
  }

  lemma PacketIs(c: PacketConfig, bs: seq<Bunch>)
    ensures PacketBits(c, bs) == Terminated(PrefixBits(c) + BunchesBits(bs))
  {}

  lemma {:induction false} LongEnough(bs: seq<Bunch>)
    requires AllReadable(bs)
    ensures LastLongEnough(bs, 16)
    decreases |bs|
  {
    if |bs| == 1 {
      BunchLength(bs[0]);
    } else if |bs| > 1 {
      LongEnough(bs[1..]);
      assert bs[1..][|bs| - 2] == bs[|bs| - 1];
    }
  }
}
