/** tools/replay_decoder.py: the Python bit reader, its bunch-header parser and the
    loop over the bunches of a packet. Numbers follow Python: -1 means "past the end". */
module ReplayDecoder {
  import opened Bits
  import opened Codec
  import opened Bunches

  datatype IntRead = IntRead(v: int, next: nat)

  // ---- What each read returns, as a function of the stream and the cursor ----

  /** Where a reader that runs out of bits stops; one that starts past the end stays. */
  function End(s: Bits, p: nat): nat { if p <= |s| then |s| else p }

  function BitAt(s: Bits, p: nat): (r: IntRead)
    ensures p <= r.next <= End(s, p)
  {
    if p >= |s| then IntRead(-1, p) else IntRead(B2N(s[p]), p + 1)
  }

  /** An unfinished read has consumed what was left. */
  function BitsAt(s: Bits, p: nat, n: nat): (r: IntRead)
    ensures p <= r.next <= End(s, p)
  {
    if p + n <= |s| || n == 0 then IntRead(ReadN(s, p, n), p + n) else IntRead(-1, End(s, p))
  }

  function IntAt(s: Bits, p: nat, max: nat): (r: IntRead)
    ensures p <= r.next <= End(s, p)
  {
    if max <= 1 then IntRead(0, p) else BitsAt(s, p, IntWidth(max))
  }

  function SipAt(s: Bits, p: nat, tries: nat): (r: IntRead)
    ensures p <= r.next <= End(s, p)
    decreases tries
  {
    if tries == 0 then IntRead(0, p)
    else
      var b := BitsAt(s, p, 8);
      if b.v < 0 then b
      else if b.v % 2 == 0 then IntRead(b.v / 2, b.next)
      else
        var rest := SipAt(s, b.next, tries - 1);
        if rest.v < 0 then rest else IntRead(b.v / 2 + 128 * rest.v, rest.next)
  }

  datatype BytesRead = BytesRead(bytes: Str, next: nat)

  /** read_bytes_aligned: whole bytes only; a short last byte is consumed and lost. */
  function BytesAt(s: Bits, p: nat, n: nat): (r: BytesRead)
    ensures p <= r.next <= End(s, p)
  {
    if p + 8 * n <= |s| || n == 0 then BytesRead(ReadBytes(s, p, n), p + 8 * n)
    else BytesRead(ReadBytes(s, p, (End(s, p) - p) / 8), End(s, p))
  }

  // ---- parse_bunch_header, in the order of its fields -------------------------

  datatype Control = Control(control: int, open: int, close: int, closeReason: int,
                             repPaused: int, reliable: int, next: nat)

  function OpenCloseAt(s: Bits, p: nat): (r: Control)
    ensures p <= r.next <= End(s, p)
  {
    var control := BitAt(s, p);
    if control.v != 1 then Control(control.v, 0, 0, 0, 0, 0, control.next)
    else
      var open := BitAt(s, control.next);
      var close := BitAt(s, open.next);
      if close.v != 1 then Control(1, open.v, close.v, 0, 0, 0, close.next)
      else
        var reason := IntAt(s, close.next, 15);
        Control(1, open.v, 1, reason.v, 0, 0, reason.next)
  }

  function ControlAt(s: Bits, p: nat): (r: Control)
    ensures p <= r.next <= End(s, p)
  {
    var c := OpenCloseAt(s, p);
    var paused := BitAt(s, c.next);
    var reliable := BitAt(s, paused.next);
    c.(repPaused := paused.v, reliable := reliable.v, next := reliable.next)
  }

  datatype Flags = Flags(hasPme: int, hasMbg: int, partial: int, chSeq: int,
                         partialInitial: int, partialFinal: int, partialCef: int, next: nat)

  function FlagsAt(s: Bits, p: nat, reliable: int): (r: Flags)
    ensures p <= r.next <= End(s, p)
  {
    var pme := BitAt(s, p);
    var mbg := BitAt(s, pme.next);
    var partial := BitAt(s, mbg.next);
    var seqn := if reliable == 1 then BitsAt(s, partial.next, 10) else IntRead(0, partial.next);
    if partial.v != 1 then Flags(pme.v, mbg.v, partial.v, seqn.v, 0, 0, 0, seqn.next)
    else
      var a := BitAt(s, seqn.next);
      var b := BitAt(s, a.next);
      var c := BitAt(s, b.next);
      Flags(pme.v, mbg.v, 1, seqn.v, a.v, b.v, c.v, c.next)
  }

  /** The name: an index, or the undecoded bytes of a string and its number. */
  datatype Name = NoName | Name(hardcoded: int, enameIdx: int, raw: Str, number: int, next: nat)

  function NameAt(s: Bits, p: nat, present: bool): (r: Name)
    ensures r.Name? ==> p <= r.next <= End(s, p)
  {
    if !present then Name(1, 0, [], 0, p)
    else
      var hard := BitAt(s, p);
      if hard.v == 1 then
        var idx := SipAt(s, hard.next, 10);
        Name(1, idx.v, [], 0, idx.next)
      else
        var slen := BitsAt(s, hard.next, 32);
        Word32(s, hard.next);
        if slen.v == -1 then NoName else StringNameAt(s, slen.next, slen.v, hard.v)
  }

  lemma Word32(s: Bits, p: nat)
    ensures -1 <= BitsAt(s, p, 32).v < U32
  {
    ReadNBound(s, p, 32);
    Pow2Of32();
  }

  /** slen counts characters with the NUL; negative means two bytes a character. */
  function StringNameAt(s: Bits, p: nat, slen: int, hard: int): (r: Name)
    requires 0 <= slen < U32
    ensures r.Name? ==> p <= r.next <= End(s, p)
  {
    var wide := slen >= 0x8000_0000;
    var chars: nat := if wide then Abs(slen - U32) else slen;
    var count := if wide then 2 * chars else chars;
    var keep := if chars == 0 then 0 else if wide then 2 * (chars - 1) else chars - 1;
    var raw := BytesAt(s, p, count);
    var number := BitsAt(s, raw.next, 32);
    Name(hard, 0, if keep <= |raw.bytes| then raw.bytes[..keep] else raw.bytes, number.v, number.next)
  }

  datatype PyHeader = PyHeader(ctl: Control, chIndex: int, flags: Flags, name: Name, dataBits: int)

  datatype HeaderRead = NoHeader | HeaderRead(h: PyHeader, next: nat)

  function HeaderAt(s: Bits, p: nat): (r: HeaderRead)
    ensures r.HeaderRead? ==> p <= r.next <= End(s, p)
  {
    var ctl := ControlAt(s, p);
    var ch := SipAt(s, ctl.next, 10);
    var flags := FlagsAt(s, ch.next, ctl.reliable);
    var name := NameAt(s, flags.next, ctl.reliable == 1 || ctl.open == 1);
    if name.NoName? then NoHeader
    else
      var n := IntAt(s, name.next, 8192);
      HeaderRead(PyHeader(ctl, ch.v, flags, name, n.v), n.next)
  }

  /** What a reader that agreed with the writer would say of a header. */
  function WireHeader(h: BunchHeader, p: nat): PyHeader
  {
    var c := p + |ControlBits(h)|;
    var f := c + |Sip(h.chIndex)| + |FlagBits(h)|;
    var named := h.reliable || h.open;
    PyHeader(
      Control(B2N(h.control), B2N(h.open), 0, 0, B2N(h.replPaused), B2N(h.reliable), c),
      h.chIndex,
      Flags(B2N(h.hasExports), B2N(h.hasMustMap), 0, if h.reliable then h.chSequence % 1024 else 0, 0, 0, 0, f),
      Name(1, if named then h.nameIndex else 0, [], 0, f + |NameBits(h)|),
      0)
  }

  /** The headers on which writer and Python reader are meant to agree. */
  predicate Plain(h: BunchHeader)
  {
    HeaderFits(h) && !(h.control && h.close) && !h.partial && (h.reliable || h.open ==> h.nameHardcoded)
  }

  lemma BitIs(s: Bits, p: nat, e: Bits, i: nat)
    requires At(s, p, e) && i < |e|
    ensures p + i < |s| && BitAt(s, p + i) == IntRead(B2N(e[i]), p + i + 1)
  {
    assert s[p..p + |e|][i] == e[i];
  }

  lemma BitsIs(s: Bits, p: nat, v: nat, n: nat)
    requires At(s, p, ToBits(v, n))
    ensures p + n <= |s| && BitsAt(s, p, n) == IntRead(v % Pow2(n), p + n)
  {
    assert p + n <= |s|;
    hide At, ReadN, ToBits;
    ReadNAt(s, p, v, n);
  }

  lemma TenBits(s: Bits, p: nat)
    ensures BitsAt(s, p, 10).v < 1024
  {
    ReadNBound(s, p, 10);
    assert Pow2(10) == 1024 by { Pow2Values(); }
  }

  lemma {:induction false} SipIs(s: Bits, p: nat, v: nat, tries: nat)
    requires At(s, p, Sip(v)) && SipBytes(v) <= tries
    ensures p + |Sip(v)| <= |s| && SipAt(s, p, tries) == IntRead(v, p + |Sip(v)|)
    decreases v
  {
    assert p + |Sip(v)| <= |s|;
    hide At, ReadN, ToBits, SipByte, Sip, SipBytes;
    SipStep(v);
    SipByteParts(v);
    if v < 128 {
      ReadByteAt(s, p, SipByte(v));
    } else {
      AtSplit(s, p, ToBits(SipByte(v), 8), Sip(v / 128));
      ReadByteAt(s, p, SipByte(v));
      SipIs(s, p + 8, v / 128, tries - 1);
      assert p + 8 + |Sip(v / 128)| == p + |Sip(v)|;
    }
  }

  lemma WideSipIs(s: Bits, p: nat, v: nat)
    requires v < U64 && At(s, p, Sip(v))
    ensures p + |Sip(v)| <= |s| && SipAt(s, p, 10) == IntRead(v, p + |Sip(v)|)
  {
    hide *;
    SipWidths(v);
    SipIs(s, p, v, 10);
  }

  lemma ControlIs(s: Bits, p: nat, h: BunchHeader)
    requires !(h.control && h.close) && At(s, p, ControlBits(h))
    ensures p + |ControlBits(h)| <= |s|
    ensures ControlAt(s, p) == Control(B2N(h.control), if h.control then B2N(h.open) else 0, 0, 0,
                                       B2N(h.replPaused), B2N(h.reliable), p + |ControlBits(h)|)
  {
    var e := ControlBits(h);
    hide At, BitAt, IntAt;
    BitIs(s, p, e, 0);
    BitIs(s, p, e, 1);
    BitIs(s, p, e, 2);
    if h.control {
      BitIs(s, p, e, 3);
      BitIs(s, p, e, 4);
    }
  }

  lemma FlagsIs(s: Bits, p: nat, h: BunchHeader)
    requires !h.partial && At(s, p, FlagBits(h))
    ensures p + |FlagBits(h)| <= |s|
    ensures FlagsAt(s, p, B2N(h.reliable))
         == Flags(B2N(h.hasExports), B2N(h.hasMustMap), 0,
                  if h.reliable then h.chSequence % 1024 else 0, 0, 0, 0, p + |FlagBits(h)|)
  {
    var f := [h.hasExports, h.hasMustMap, h.partial];
    hide At, BitAt, BitsAt, ToBits, Pow2;
    AtSplit(s, p, f, SequenceBits(h));
    BitIs(s, p, f, 0);
    BitIs(s, p, f, 1);
    BitIs(s, p, f, 2);
    if h.reliable {
      BitsIs(s, p + 3, h.chSequence, 10);
      assert Pow2(10) == 1024 by { Pow2Values(); }
    }
  }

  lemma NameIs(s: Bits, p: nat, h: BunchHeader)
    requires HeaderFits(h) && (h.reliable || h.open ==> h.nameHardcoded) && At(s, p, NameBits(h))
    ensures p + |NameBits(h)| <= |s|
    ensures NameAt(s, p, h.reliable || h.open)
         == Name(1, if h.reliable || h.open then h.nameIndex else 0, [], 0, p + |NameBits(h)|)
  {
    assert p + |NameBits(h)| <= |s|;
    hide At, BitAt, BitsAt, SipAt, Sip, StringNameAt;
    if h.reliable || h.open {
      AtSplit(s, p, [true], Sip(h.nameIndex));
      BitIs(s, p, [true], 0);
      WideSipIs(s, p + 1, h.nameIndex);
    }
  }

  /** The Python parser reads back, bit for bit, what write_to wrote. */
  lemma HeaderRoundTrip(s: Bits, p: nat, h: BunchHeader, n: nat)
    requires Plain(h) && (h.open ==> h.control)
    requires At(s, p, HeaderBits(h) + ToBits(n, 13))
    ensures p + |HeaderBits(h)| + 13 <= |s|
    ensures HeaderAt(s, p) == HeaderRead(WireHeader(h, p).(dataBits := n % 8192), p + |HeaderBits(h)| + 13)
  {
    hide At, ControlBits, Sip, FlagBits, NameBits, ToBits, ControlAt, SipAt, FlagsAt, NameAt, BitsAt, BitLength;
    var c := p + |ControlBits(h)|;
    var f := c + |Sip(h.chIndex)|;
    var m := f + |FlagBits(h)|;
    AtSplit(s, p, HeaderBits(h), ToBits(n, 13));
    AtSplit4(s, p, ControlBits(h), Sip(h.chIndex), FlagBits(h), NameBits(h));
    ControlIs(s, p, h);
    WideSipIs(s, c, h.chIndex);
    FlagsIs(s, f, h);
    NameIs(s, m, h);
    LengthIs(s, m + |NameBits(h)|, n);
  }

  lemma LengthIs(s: Bits, p: nat, n: nat)
    requires At(s, p, ToBits(n, 13))
    ensures p + 13 <= |s| && IntAt(s, p, 8192) == IntRead(n % 8192, p + 13)
  {
    hide At, ToBits, BitsAt, BitLength;
    IntWidths();
    BitsIs(s, p, n, 13);
    Pow2Values();
  }

  /** ... and it reports the header and the payload length as they were exactly when
      an open bunch is a control bunch and the payload is shorter than 8192 bits. */
  lemma HeaderExact(s: Bits, p: nat, h: BunchHeader, payload: Bits)
    requires Plain(h) && At(s, p, BunchBits(h, payload))
    ensures (HeaderAt(s, p).HeaderRead? && HeaderAt(s, p).h == WireHeader(h, p).(dataBits := |payload|))
            <==> ((h.open ==> h.control) && |payload| < 8192)
  {
    hide At, HeaderBits, ToBits, HeaderAt;
    var n := |payload| % U16;
    Assoc(HeaderBits(h), ToBits(n, 13), payload[..n]);
    AtSplit(s, p, HeaderBits(h) + ToBits(n, 13), payload[..n]);
    if h.open ==> h.control {
      HeaderRoundTrip(s, p, h, n);
    } else {
      AtSplit(s, p, HeaderBits(h), ToBits(n, 13));
      LostOpen(s, p, h);
    }
  }

  lemma LostOpen(s: Bits, p: nat, h: BunchHeader)
    requires Plain(h) && h.open && !h.control && At(s, p, HeaderBits(h))
    ensures HeaderAt(s, p).HeaderRead? ==> HeaderAt(s, p).h.ctl.open == 0
  {
    hide At, ControlBits, Sip, FlagBits, NameBits, ControlAt, SipAt, FlagsAt, NameAt, IntAt;
    AtSplit4(s, p, ControlBits(h), Sip(h.chIndex), FlagBits(h), NameBits(h));
    ControlIs(s, p, h);
  }

  // ---- The bunch loop --------------------------------------------------------

  /** One bunch of a packet: its header, its payload window and the bytes shown. */
  datatype PyBunch = PyBunch(h: PyHeader, start: nat, bits: nat, bytes: Str)

  predicate Guard(s: Bits, p: nat, end: nat, g: nat)
  {
    p + g <= end && p + g <= |s|
  }

  /** The packet loop, with the number of bits its guard asks for as a parameter:
      32 in replay_decoder.py, 16 in replay_full_analyze.py. */
  function BunchesAt(s: Bits, p: nat, end: nat, g: nat): seq<PyBunch>
    requires g > 0
    decreases |s| - p
  {
    if !Guard(s, p, end, g) then []
    else
      HeaderMoves(s, p);
      match HeaderAt(s, p)
      case NoHeader => []
      case HeaderRead(h, q) =>
        if h.dataBits < 0 || q + h.dataBits > |s| then []
        else [PyBunch(h, q, h.dataBits, BytesAt(s, q, (h.dataBits + 7) / 8).bytes)]
             + BunchesAt(s, q + h.dataBits, end, g)
  }

  /** One turn of the loop. */
  lemma LoopTurn(s: Bits, p: nat, end: nat, g: nat)
    requires g > 0
    ensures BunchesAt(s, p, end, g)
         == if !Guard(s, p, end, g) || HeaderAt(s, p).NoHeader? then []
            else
              var h, q := HeaderAt(s, p).h, HeaderAt(s, p).next;
              if h.dataBits < 0 || q + h.dataBits > |s| then []
              else [PyBunch(h, q, h.dataBits, BytesAt(s, q, (h.dataBits + 7) / 8).bytes)]
                   + BunchesAt(s, q + h.dataBits, end, g)
  {
    hide HeaderAt, BytesAt;
  }

  lemma HeaderMoves(s: Bits, p: nat)
    requires p < |s|
    ensures HeaderAt(s, p).HeaderRead? ==> HeaderAt(s, p).next > p
  {
    ControlMoves(s, p);
    hide ControlAt, SipAt, FlagsAt, NameAt, IntAt;
  }

  lemma ControlMoves(s: Bits, p: nat)
    requires p < |s|
    ensures ControlAt(s, p).next > p
  {}

  predicate Readable(b: Bunch)
  {
    Plain(b.h) && (b.h.open ==> b.h.control) && |b.payload| < 8192
  }

  predicate AllReadable(bs: seq<Bunch>)
  {
    |bs| > 0 ==> Readable(bs[0]) && AllReadable(bs[1..])
  }

  function DecodedOne(s: Bits, p: nat, b: Bunch): PyBunch
  {
    var q := p + |HeaderBits(b.h)| + 13;
    PyBunch(WireHeader(b.h, p).(dataBits := |b.payload|), q, |b.payload|,
            if q <= |s| then BytesAt(s, q, (|b.payload| + 7) / 8).bytes else [])
  }

  /** The bunches as the decoder reports them when they stand one after another at p. */
  function Decoded(s: Bits, p: nat, bs: seq<Bunch>): (r: seq<PyBunch>)
    ensures |r| == |bs|
    decreases |bs|
  {
    if |bs| == 0 then []
    else [DecodedOne(s, p, bs[0])] + Decoded(s, p + |BunchBits(bs[0].h, bs[0].payload)|, bs[1..])
  }

  lemma BunchLength(b: Bunch)
    requires |b.payload| < U16
    ensures |BunchBits(b.h, b.payload)| == |HeaderBits(b.h)| + 13 + |b.payload| >= 27
  {
    hide Sip;
  }

  lemma OneBunch(s: Bits, p: nat, b: Bunch)
    requires Readable(b) && At(s, p, BunchBits(b.h, b.payload))
    ensures p + |HeaderBits(b.h)| + 13 <= |s|
    ensures HeaderAt(s, p) == HeaderRead(WireHeader(b.h, p).(dataBits := |b.payload|), p + |HeaderBits(b.h)| + 13)
    ensures At(s, p + |HeaderBits(b.h)| + 13, b.payload)
  {
    hide At, HeaderBits, ToBits, HeaderAt, WireHeader, Plain;
    var n := |b.payload|;
    assert b.payload[..n] == b.payload;
    Assoc(HeaderBits(b.h), ToBits(n, 13), b.payload);
    AtSplit(s, p, HeaderBits(b.h) + ToBits(n, 13), b.payload);
    HeaderRoundTrip(s, p, b.h, n);
  }

  /** Whether a loop whose guard asks for g bits reaches the last bunch. */
  predicate LastLongEnough(bs: seq<Bunch>, g: nat)
  {
    |bs| > 0 ==> |BunchBits(bs[|bs| - 1].h, bs[|bs| - 1].payload)| >= g
  }

  /** Main law of the loop: on a region that holds bunches and nothing else, the
      decoder reports exactly those bunches in order if the last one is at least as
      long as the guard asks (for guards up to twice the least bunch), and otherwise
      it loses just the last one. */
  lemma {:induction false} BunchLoopExact(s: Bits, p: nat, bs: seq<Bunch>, g: nat)
    requires 0 < g <= 54 && AllReadable(bs) && At(s, p, BunchesBits(bs))
    ensures LastLongEnough(bs, g) ==> BunchesAt(s, p, p + |BunchesBits(bs)|, g) == Decoded(s, p, bs)
    ensures !LastLongEnough(bs, g) ==>
      |bs| > 0 && BunchesAt(s, p, p + |BunchesBits(bs)|, g) == Decoded(s, p, bs)[..|bs| - 1]
    decreases |bs|
  {
    hide BunchesAt, Decoded, AllReadable, BunchesBits, BunchBits, DecodedOne, LastLongEnough, At;
    if |bs| == 0 {
      NoBunches(s, p, bs, g);
    } else if |bs| == 1 {
      LastBunch(s, p, bs, g);
    } else {
      BunchesStep(s, p, bs);
      FirstBunch(s, p, bs, g);
      var q := p + |BunchBits(bs[0].h, bs[0].payload)|;
      BunchLoopExact(s, q, bs[1..], g);
      LastIs(bs, g);
      FrontOf(DecodedOne(s, p, bs[0]), Decoded(s, q, bs[1..]));
    }
  }

  lemma FrontOf(x: PyBunch, xs: seq<PyBunch>)
    requires |xs| > 0
    ensures ([x] + xs)[..|xs|] == [x] + xs[..|xs| - 1]
  {}

  lemma NoBunches(s: Bits, p: nat, bs: seq<Bunch>, g: nat)
    requires g > 0 && |bs| == 0
    ensures LastLongEnough(bs, g) && BunchesAt(s, p, p + |BunchesBits(bs)|, g) == Decoded(s, p, bs)
  {
    LoopEmpty(s, p, g);
  }

  lemma BunchesStep(s: Bits, p: nat, bs: seq<Bunch>)
    requires |bs| > 0 && AllReadable(bs) && At(s, p, BunchesBits(bs))
    ensures var b := bs[0]; var q := p + |BunchBits(b.h, b.payload)|;
            && Readable(b) && AllReadable(bs[1..])
            && At(s, p, BunchBits(b.h, b.payload)) && At(s, q, BunchesBits(bs[1..]))
            && p + |BunchesBits(bs)| == q + |BunchesBits(bs[1..])| <= |s|
            && Decoded(s, p, bs) == [DecodedOne(s, p, b)] + Decoded(s, q, bs[1..])
            && (|bs| == 1 ==> BunchesBits(bs[1..]) == [] && Decoded(s, q, bs[1..]) == [])
  {
    hide At, BunchBits, Readable, DecodedOne;
    AtBound(s, p, BunchesBits(bs));
    AtSplit(s, p, BunchBits(bs[0].h, bs[0].payload), BunchesBits(bs[1..]));
  }

  lemma LastBunch(s: Bits, p: nat, bs: seq<Bunch>, g: nat)
    requires 0 < g && |bs| == 1 && AllReadable(bs) && At(s, p, BunchesBits(bs))
    ensures LastLongEnough(bs, g) ==> BunchesAt(s, p, p + |BunchesBits(bs)|, g) == Decoded(s, p, bs)
    ensures !LastLongEnough(bs, g) ==> BunchesAt(s, p, p + |BunchesBits(bs)|, g) == []
  {
    hide *;
    var b := bs[0];
    var n := |BunchBits(b.h, b.payload)|;
    BunchesStep(s, p, bs);
    LastIs(bs, g);
    if g <= n {
      LoopStep(s, p, b, p + n, g);
      LoopEmpty(s, p + n, g);
    } else {
      LoopSkip(s, p, p + n, g);
    }
  }

  lemma LastIs(bs: seq<Bunch>, g: nat)
    requires |bs| > 0
    ensures |bs| == 1 ==> (LastLongEnough(bs, g) <==> |BunchBits(bs[0].h, bs[0].payload)| >= g)
    ensures |bs| > 1 ==> (LastLongEnough(bs, g) <==> LastLongEnough(bs[1..], g))
  {
    hide BunchBits;
    if |bs| > 1 { assert bs[1..][|bs| - 2] == bs[|bs| - 1]; }
  }

  lemma FirstBunch(s: Bits, p: nat, bs: seq<Bunch>, g: nat)
    requires 0 < g <= 54 && |bs| > 1 && AllReadable(bs) && At(s, p, BunchesBits(bs))
    ensures var b := bs[0]; var q := p + |BunchBits(b.h, b.payload)|; var end := p + |BunchesBits(bs)|;
            && At(s, q, BunchesBits(bs[1..])) && end == q + |BunchesBits(bs[1..])|
            && BunchesAt(s, p, end, g) == [DecodedOne(s, p, b)] + BunchesAt(s, q, end, g)
            && Decoded(s, p, bs) == [DecodedOne(s, p, b)] + Decoded(s, q, bs[1..])
  {
    hide *;
    var b := bs[0];
    RestLength(bs);
    BunchesStep(s, p, bs);
    LoopStep(s, p, b, p + |BunchesBits(bs)|, g);
  }

  lemma LoopEmpty(s: Bits, p: nat, g: nat)
    requires g > 0
    ensures BunchesAt(s, p, p, g) == []
  {}

  lemma LoopSkip(s: Bits, p: nat, end: nat, g: nat)
    requires g > 0 && p + g > end
    ensures BunchesAt(s, p, end, g) == []
  {}

  lemma LoopStep(s: Bits, p: nat, b: Bunch, end: nat, g: nat)
    requires g > 0 && p + g <= end <= |s|
    requires Readable(b) && At(s, p, BunchBits(b.h, b.payload))
    ensures BunchesAt(s, p, end, g)
         == [DecodedOne(s, p, b)] + BunchesAt(s, p + |BunchBits(b.h, b.payload)|, end, g)
  {
    hide At, BunchBits, HeaderAt, WireHeader, Readable, HeaderBits, BytesAt;
    OneBunchHidden(s, p, b);
  }

  lemma RestLength(bs: seq<Bunch>)
    requires |bs| > 0 && AllReadable(bs)
    ensures |BunchBits(bs[0].h, bs[0].payload)| >= 27
    ensures |bs| > 1 ==> |BunchesBits(bs)| >= 54
  {
    BunchLength(bs[0]);
    if |bs| > 1 { BunchLength(bs[1]); }
  }

  lemma OneBunchHidden(s: Bits, p: nat, b: Bunch)
    requires Readable(b) && At(s, p, BunchBits(b.h, b.payload))
    ensures p <= |s|
    ensures var q := p + |HeaderBits(b.h)| + 13;
            && HeaderAt(s, p) == HeaderRead(WireHeader(b.h, p).(dataBits := |b.payload|), q)
            && q + |b.payload| == p + |BunchBits(b.h, b.payload)| <= |s|
            && s[q..q + |b.payload|] == b.payload
  {
    OneBunch(s, p, b);
    BunchLength(b);
  }

  /** Every reported window holds the payload that was written. */
  lemma {:induction false} WindowsHoldPayloads(s: Bits, p: nat, bs: seq<Bunch>, i: nat)
    requires AllReadable(bs) && At(s, p, BunchesBits(bs)) && i < |bs|
    ensures At(s, Decoded(s, p, bs)[i].start, bs[i].payload) && Decoded(s, p, bs)[i].bits == |bs[i].payload|
    decreases |bs|
  {
    hide At, BunchBits, Readable, BunchesBits, DecodedOne, AllReadable, Decoded;
    var b := bs[0];
    BunchesStep(s, p, bs);
    if i == 0 {
      OneWindow(s, p, b);
    } else {
      WindowsHoldPayloads(s, p + |BunchBits(b.h, b.payload)|, bs[1..], i - 1);
    }
  }

  lemma OneWindow(s: Bits, p: nat, b: Bunch)
    requires Readable(b) && At(s, p, BunchBits(b.h, b.payload))
    ensures At(s, DecodedOne(s, p, b).start, b.payload) && DecodedOne(s, p, b).bits == |b.payload|
  {
    hide At, BunchBits, HeaderBits, WireHeader, BytesAt, Readable, HeaderAt;
    OneBunch(s, p, b);
  }

  /** The 32-bit guard of replay_decoder.py really loses bunches: the least bunch
      there is, alone in its packet, is never looked at. */
  lemma ShortLastBunchSkipped(s: Bits, p: nat)
    requires At(s, p, BunchesBits([LEAST_BUNCH]))
    ensures |BunchesBits([LEAST_BUNCH])| == 27
    ensures BunchesAt(s, p, p + 27, 32) == [] != Decoded(s, p, [LEAST_BUNCH])
    ensures BunchesAt(s, p, p + 27, 16) == Decoded(s, p, [LEAST_BUNCH])
  {
    LeastBunchIs();
    hide *;
    BunchLoopExact(s, p, [LEAST_BUNCH], 16);
    LoopSkip(s, p, p + 27, 32);
  }

  const LEAST_BUNCH: Bunch :=
    Bunch(BunchHeader(false, false, false, 0, false, false, 0, false, false, false, 0, true, 0, []), [])

  lemma LeastBunchIs()
    ensures |BunchesBits([LEAST_BUNCH])| == 27 && AllReadable([LEAST_BUNCH]) && LastLongEnough([LEAST_BUNCH], 16)
  {
    SipLength(0);
    BunchLength(LEAST_BUNCH);
  }

  // ---- The reader itself -----------------------------------------------------

  /** BitReader: the bytes of a packet and a moving cursor. */
  class BitReader {
    const data: seq<bv8>
    var pos: nat

    constructor (data: seq<bv8>, offsetBits: nat)
      ensures this.data == data && pos == offsetBits
    {
      this.data := data;
      pos := offsetBits;
    }

    ghost function Stream(): Bits
    {
      BytesToBits(data)
    }

    method ReadBit() returns (b: int)
      modifies this
      ensures IntRead(b, pos) == BitAt(Stream(), old(pos))
    {
      if pos >= 8 * |data| { return -1; }
      var byteIdx, bitIdx := pos / 8, pos % 8;
      b := if ByteBit(data[byteIdx], bitIdx) then 1 else 0;
      pos := pos + 1;
    }

    method ReadBits(count: nat) returns (v: int)
      modifies this
      ensures IntRead(v, pos) == BitsAt(Stream(), old(pos), count)
    {
      hide Pow2, BytesToBits;
      ghost var s, p := Stream(), pos;
      v := 0;
      for i := 0 to count
        invariant s == Stream() && (p + i <= |s| || i == 0) && pos == p + i
        invariant v == if i == 0 then 0 else FromBits(s[p..p + i])
      {
        var b := ReadBit();
        if b < 0 { return -1; }
        assert s[p..p + i + 1] == s[p..p + i] + [s[p + i]];
        assert i == 0 ==> s[p..p + i] == [];
        AppendBit(s[p..p + i], s[p + i]);
        v := v + (if b == 1 then Pow2(i) else 0);
      }
    }

    /** A fixed width, from the bit length of max - 1. */
    method ReadSerializeInt(max: nat) returns (v: int)
      modifies this
      ensures IntRead(v, pos) == IntAt(Stream(), old(pos), max)
    {
      if max <= 1 { return 0; }
      v := ReadBits(BitLength(max - 1));
    }

    method ReadSerializeIntPacked() returns (v: int)
      modifies this
      ensures IntRead(v, pos) == SipAt(Stream(), old(pos), 10)
    {
      hide BitsAt, BytesToBits, SipAt, SipOnTop, Pow2;
      ghost var s := Stream();
      v := 0;
      var i, done := 0, false;
      SipOnTopNone(SipAt(s, pos, 10));
      while i < 10 && !done
        invariant 0 <= i <= 10 && s == Stream() && v >= 0
        invariant SipAt(s, old(pos), 10)
               == if done then IntRead(v, pos) else SipOnTop(v, Pow2(7 * i), SipAt(s, pos, 10 - i))
        decreases 10 - i, !done
      {
        SipTurn(s, pos, 10 - i);
        ghost var q := pos;
        var b := ReadBits(8);
        if b < 0 {
          SipOnTopError(v, Pow2(7 * i), SipAt(s, q, 10 - i));
          BitsError(s, q);
          return -1;
        }
        SipOnTopStep(v, i, b, if b % 2 == 0 then IntRead(0, pos) else SipAt(s, pos, 10 - i - 1));
        v := v + b / 2 * Pow2(7 * i);
        done := b % 2 == 0;
        i := i + 1;
      }
      SipEnd(s, pos, v, Pow2(70));
    }

    method ReadBytesAligned(n: nat) returns (out: Str)
      modifies this
      ensures BytesRead(out, pos) == BytesAt(Stream(), old(pos), n)
    {
      hide ReadN, BytesToBits;
      ghost var s, p := Stream(), pos;
      out := [];
      for i := 0 to n
        invariant s == Stream() && (p + 8 * i <= |s| || i == 0) && pos == p + 8 * i
        invariant out == ReadBytes(s, p, i)
      {
        var byte := ReadBits(8);
        if byte < 0 {
          assert (End(s, p) - p) / 8 == i;
          return;
        }
        BytesSnoc(s, p, i);
        out := out + [byte];
      }
    }

    method ReadControl() returns (c: Control)
      modifies this
      ensures c == ControlAt(Stream(), old(pos)) && pos == c.next
    {
      hide BitAt, IntAt, BytesToBits;
      var control := ReadBit();
      var open, close, reason := 0, 0, 0;
      if control == 1 {
        open := ReadBit();
        close := ReadBit();
        if close == 1 { reason := ReadSerializeInt(15); }
      }
      var paused := ReadBit();
      var reliable := ReadBit();
      c := Control(control, open, close, reason, paused, reliable, pos);
    }

    method ReadFlags(reliable: int) returns (f: Flags)
      modifies this
      ensures f == FlagsAt(Stream(), old(pos), reliable) && pos == f.next
    {
      hide BitAt, BitsAt, BytesToBits;
      var pme := ReadBit();
      var mbg := ReadBit();
      var partial := ReadBit();
      var seqn, a, b, c := 0, 0, 0, 0;
      if reliable == 1 { seqn := ReadBits(10); }
      if partial == 1 {
        a := ReadBit();
        b := ReadBit();
        c := ReadBit();
      }
      f := Flags(pme, mbg, partial, seqn, a, b, c, pos);
    }

    method ReadStringName(slen: nat, hard: int) returns (name: Name)
      requires slen < U32
      modifies this
      ensures name == StringNameAt(Stream(), old(pos), slen, hard) && name.Name? && pos == name.next
    {
      hide BytesAt, BitsAt, BytesToBits;
      var signed := if slen >= 0x8000_0000 then slen - U32 else slen;
      var keep: nat := if signed != 0 then Abs(signed) - 1 else 0;
      var raw: Str;
      if signed > 0 {
        raw := ReadBytesAligned(keep + 1);
      } else if signed < 0 {
        raw := ReadBytesAligned((keep + 1) * 2);
        keep := keep * 2;
      } else {
        raw := ReadBytesAligned(0);
      }
      if keep <= |raw| { raw := raw[..keep]; }
      var number := ReadBits(32);
      name := Name(hard, 0, raw, number, pos);
    }

    method ReadName(present: bool) returns (name: Name)
      modifies this
      ensures name == NameAt(Stream(), old(pos), present) && (name.Name? ==> pos == name.next)
    {
      hide BitAt, SipAt, StringNameAt, BytesToBits;
      if !present { return Name(1, 0, [], 0, pos); }
      var hard := ReadBit();
      if hard == 1 {
        var idx := ReadSerializeIntPacked();
        return Name(1, idx, [], 0, pos);
      }
      Word32(Stream(), pos);
      var slen := ReadBits(32);
      if slen == -1 { return NoName; }
      name := ReadStringName(slen, hard);
    }

    /** parse_bunch_header: the fields, or None when a string length is missing. */
    method ParseBunchHeader() returns (r: HeaderRead)
      modifies this
      ensures r == HeaderAt(Stream(), old(pos)) && (r.HeaderRead? ==> pos == r.next)
    {
      hide ControlAt, SipAt, FlagsAt, NameAt, IntAt, BytesToBits;
      var ctl := ReadControl();
      var ch := ReadSerializeIntPacked();
      var flags := ReadFlags(ctl.reliable);
      var name := ReadName(ctl.reliable == 1 || ctl.open == 1);
      if name == NoName { return NoHeader; }
      var n := ReadSerializeInt(8192);
      r := HeaderRead(PyHeader(ctl, ch, flags, name, n), pos);
    }

    /** The loop over the bunches of a packet, up to bit `end`. */
    method DecodeBunches(end: nat, g: nat) returns (out: seq<PyBunch>)
      requires g > 0
      modifies this
      ensures out == BunchesAt(Stream(), old(pos), end, g)
    {
      hide HeaderAt, BytesAt, BytesToBits, BunchesAt;
      ghost var s := Stream();
      out := [];
      while pos + g <= end && pos + g <= 8 * |data|
        invariant s == Stream()
        invariant BunchesAt(s, old(pos), end, g) == out + BunchesAt(s, pos, end, g)
        decreases 8 * |data| - pos
      {
        HeaderMoves(s, pos);
        LoopTurn(s, pos, end, g);
        ghost var out0 := out;
        var r := ParseBunchHeader();
        if r == NoHeader {
          assert out0 + [] == out0;
          return;
        }
        var bits := r.h.dataBits;
        if bits < 0 || pos + bits > 8 * |data| {
          assert out0 + [] == out0;
          return;
        }
        var saved := pos;
        var bytes := ReadBytesAligned((bits + 7) / 8);
        pos := saved + bits;
        out := out + [PyBunch(r.h, saved, bits, bytes)];
        assert out0 + ([PyBunch(r.h, saved, bits, bytes)] + BunchesAt(s, pos, end, g))
            == out + BunchesAt(s, pos, end, g);
      }
      LoopTurn(s, pos, end, g);
      assert out + [] == out;
    }
  }

  lemma SipOnTopNone(r: IntRead)
    ensures SipOnTop(0, Pow2(0), r) == r
  {}

  lemma SipOnTopError(v: int, m: int, r: IntRead)
    ensures r.v < 0 ==> SipOnTop(v, m, r) == r
  {}

  lemma BitsError(s: Bits, p: nat)
    ensures BitsAt(s, p, 8).v < 0 ==> BitsAt(s, p, 8).v == -1
  {
    hide ReadN;
  }

  lemma SipEnd(s: Bits, p: nat, v: int, m: int)
    ensures SipOnTop(v, m, SipAt(s, p, 0)) == IntRead(v, p)
  {}

  /** v already read, and r to be read m places up; an error stays an error. */
  function SipOnTop(v: int, m: int, r: IntRead): IntRead
  {
    if r.v < 0 then r else IntRead(v + m * r.v, r.next)
  }

  lemma SipTurn(s: Bits, p: nat, tries: nat)
    requires tries > 0
    ensures var b := BitsAt(s, p, 8);
            SipAt(s, p, tries) == if b.v < 0 then b
                                  else if b.v % 2 == 0 then IntRead(b.v / 2, b.next)
                                  else SipOnTop(b.v / 2, 128, SipAt(s, b.next, tries - 1))
  {
    hide BitsAt;
  }

  lemma SipOnTopStep(v: int, i: nat, b: int, rest: IntRead)
    requires b >= 0
    ensures SipOnTop(v, Pow2(7 * i), IntRead(b / 2, rest.next)) == IntRead(v + b / 2 * Pow2(7 * i), rest.next)
    ensures SipOnTop(v, Pow2(7 * i), SipOnTop(b / 2, 128, rest))
         == SipOnTop(v + b / 2 * Pow2(7 * i), Pow2(7 * (i + 1)), rest)
  {
    var m := Pow2(7 * i);
    Pow2Add(7 * i, 7);
    Pow2Values();
    assert 7 * (i + 1) == 7 * i + 7;
    if rest.v >= 0 {
      Distribute(m, b / 2, 128 * rest.v);
      MulAssoc(m, 128, rest.v);
    }
  }
}
