/** The bunch header and BunchBuilder::write_to. */
module Bunches {
  import opened Bits
  import opened Codec
  import opened BitWriters

  datatype BunchHeader = BunchHeader(control: bool, open: bool, close: bool, closeReason: nat,
                                     replPaused: bool, reliable: bool, chIndex: nat,
                                     hasExports: bool, hasMustMap: bool, partial: bool, chSequence: nat,
                                     nameHardcoded: bool, nameIndex: nat, nameString: Str)

  /** The C++ field widths. */
  predicate HeaderFits(h: BunchHeader)
  {
    h.chIndex < U32 && h.chSequence < U16 && h.nameIndex < U32 && |h.nameString| + 1 < 0x8000_0000
  }

  function OpenClose(h: BunchHeader): Bits
  {
    if !h.control then [false]
    else if !h.close then [true, h.open, false]
    else [true, h.open, true] + SerializeInt(h.closeReason, 5)
  }

  function ControlBits(h: BunchHeader): Bits
  {
    OpenClose(h) + [h.replPaused, h.reliable]
  }

  function SequenceBits(h: BunchHeader): Bits
  {
    if h.reliable then ToBits(h.chSequence, 10) else []
  }

  function FlagBits(h: BunchHeader): Bits
  {
    [h.hasExports, h.hasMustMap, h.partial] + SequenceBits(h)
  }

  function NameBits(h: BunchHeader): Bits
  {
    if !h.reliable && !h.open then []
    else if h.nameHardcoded then [true] + Sip(h.nameIndex)
    else [false] + FString(h.nameString)
  }

  function HeaderBits(h: BunchHeader): Bits
  {
    ControlBits(h) + Sip(h.chIndex) + FlagBits(h) + NameBits(h)
  }

  /** The payload length is cast to 16 bits and written in 13; that many payload
      bits (after the cast) follow. */
  function PayloadBits(payload: Bits): Bits
  {
    ToBits(|payload| % U16, 13) + payload[..|payload| % U16]
  }

  function BunchBits(h: BunchHeader, payload: Bits): Bits
  {
    HeaderBits(h) + PayloadBits(payload)
  }

  /** A bunch to write: its header and its payload. */
  datatype Bunch = Bunch(h: BunchHeader, payload: Bits)

  function BunchesBits(bs: seq<Bunch>): Bits
  {
    if |bs| == 0 then [] else BunchBits(bs[0].h, bs[0].payload) + BunchesBits(bs[1..])
  }

  class BunchBuilder {
    var header: BunchHeader
    const data: BitWriter

    constructor (header: BunchHeader, capacity: nat)
      ensures this.header == header && fresh(data) && fresh(data.data) && data.Valid() && data.Contents == []
    {
      this.header := header;
      data := new BitWriter(capacity);
    }

    ghost predicate Valid()
      reads this, data, data.data
    {
      data.Valid()
    }

    /** Append the whole bunch to the target and return how many bits that took. */
    method WriteTo(target: BitWriter) returns (written: nat)
      requires Valid() && target.Valid() && target != data && target.data != data.data
      modifies target, target.data
      ensures target.Valid() && target.Contents == old(target.Contents) + BunchBits(header, data.Contents)
      ensures target.data == old(target.data) || fresh(target.data)
      ensures written == |BunchBits(header, data.Contents)|
    {
      hide Holds, HeaderBits, ToBits;
      var start := target.bitPos;
      WriteHeader(header, target);
      ghost var c := target.Contents;
      WritePayload(target);
      Assoc(old(target.Contents), HeaderBits(header), PayloadBits(data.Contents));
      written := target.bitPos - start;
    }

    method WritePayload(target: BitWriter)
      requires Valid() && target.Valid() && target != data && target.data != data.data
      modifies target, target.data
      ensures target.Valid() && target.Contents == old(target.Contents) + PayloadBits(data.Contents)
      ensures target.data == old(target.data) || fresh(target.data)
    {
      HoldsPrefix(data.data[..], data.Contents, data.bitPos % U16);
      hide Holds, ToBits;
      ghost var payload := data.Contents;
      var dataBits := data.bitPos % U16;
      target.Write(dataBits, 13);
      ghost var c := target.Contents;
      if dataBits > 0 {
        target.WriteBitsFrom(data.data, dataBits);
      }
      assert target.Contents == c + payload[..dataBits];
      Assoc(old(target.Contents), ToBits(dataBits, 13), payload[..dataBits]);
    }
  }

  lemma HoldsPrefix(d: seq<bv8>, c: Bits, n: nat)
    requires Holds(d, c) && n <= |c|
    ensures n <= 8 * |d| && BytesToBits(d)[..n] == c[..n]
  {
    forall i: nat | i < n ensures BytesToBits(d)[..n][i] == c[..n][i] {
      assert BufBit(d, i) == (i < |c| && c[i]);
    }
  }

  method WriteHeader(h: BunchHeader, target: BitWriter)
    requires target.Valid()
    modifies target, target.data
    ensures target.Valid() && target.Contents == old(target.Contents) + HeaderBits(h)
    ensures target.data == old(target.data) || fresh(target.data)
  {
    hide Holds, ControlBits, FlagBits, NameBits, Sip;
    WriteControl(h, target);
    target.WriteSip(h.chIndex);
    WriteFlags(h, target);
    WriteName(h, target);
    Assoc4(old(target.Contents), ControlBits(h), Sip(h.chIndex), FlagBits(h), NameBits(h));
  }

  method WriteControl(h: BunchHeader, target: BitWriter)
    requires target.Valid()
    modifies target, target.data
    ensures target.Valid() && target.Contents == old(target.Contents) + ControlBits(h)
    ensures target.data == old(target.data) || fresh(target.data)
  {
    hide Holds, SerializeInt, OpenClose;
    ghost var c := target.Contents;
    WriteOpenClose(h, target);
    target.WriteBit(h.replPaused);
    target.WriteBit(h.reliable);
    Assoc(c, OpenClose(h), [h.replPaused, h.reliable]);
    assert (c + OpenClose(h)) + [h.replPaused, h.reliable] == ((c + OpenClose(h)) + [h.replPaused]) + [h.reliable];
  }

  method WriteOpenClose(h: BunchHeader, target: BitWriter)
    requires target.Valid()
    modifies target, target.data
    ensures target.Valid() && target.Contents == old(target.Contents) + OpenClose(h)
    ensures target.data == old(target.data) || fresh(target.data)
  {
    hide Holds, SerializeInt;
    ghost var c := target.Contents;
    target.WriteBit(h.control);
    if h.control {
      target.WriteBit(h.open);
      target.WriteBit(h.close);
      assert target.Contents == c + [true, h.open, h.close];
      if h.close {
        target.WriteSerializeInt(h.closeReason, 5);
        Assoc(c, [true, h.open, true], SerializeInt(h.closeReason, 5));
      }
    }
  }

  method WriteFlags(h: BunchHeader, target: BitWriter)
    requires target.Valid()
    modifies target, target.data
    ensures target.Valid() && target.Contents == old(target.Contents) + FlagBits(h)
    ensures target.data == old(target.data) || fresh(target.data)
  {
    hide Holds, ToBits;
    ghost var c := target.Contents;
    target.WriteBit(h.hasExports);
    target.WriteBit(h.hasMustMap);
    target.WriteBit(h.partial);
    ghost var f := [h.hasExports, h.hasMustMap, h.partial];
    assert target.Contents == c + f;
    if h.reliable { target.Write(h.chSequence, 10); }
    assert target.Contents == c + f + SequenceBits(h);
    Assoc(c, f, SequenceBits(h));
  }

  method WriteName(h: BunchHeader, target: BitWriter)
    requires target.Valid()
    modifies target, target.data
    ensures target.Valid() && target.Contents == old(target.Contents) + NameBits(h)
    ensures target.data == old(target.data) || fresh(target.data)
  {
    hide Holds, Sip, FString;
    ghost var c := target.Contents;
    if h.reliable || h.open {
      target.WriteBit(h.nameHardcoded);
      if h.nameHardcoded {
        target.WriteSip(h.nameIndex);
        Assoc(c, [true], Sip(h.nameIndex));
      } else {
        target.WriteFString(h.nameString);
        Assoc(c, [false], FString(h.nameString));
      }
    }
    assert target.Contents == c + NameBits(h);
  }
}
