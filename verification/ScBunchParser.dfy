/** parse_sc_bunch: the C++ reader of one server-to-client bunch. */
module ScBunchParser {
  import opened Bits
  import opened Codec
  import opened Adaptive
  import opened Bunches

  datatype BunchKind = ControlBunch | ActorOpen | ActorClose | GuidExportBunch | PartialCont
                     | ActorReliable | ActorUpdate

  /** The channel name: none carried, "#" and an index, or text. */
  datatype ChannelName = NoName | Indexed(index: nat) | Text(text: Str)

  /** BunchSummary, without the payload hash. */
  datatype Summary = Summary(chIdx: nat, control: bool, open: bool, close: bool, reliable: bool,
                             exports: bool, guids: bool, partial: bool,
                             partialInitial: bool, partialCef: bool, partialFinal: bool,
                             chSeq: nat, dataBits: nat, name: ChannelName, payload: Str)

  function Classify(b: Summary): BunchKind
  {
    if b.control && b.open then ActorOpen
    else if b.control && b.close then ActorClose
    else if b.control then ControlBunch
    else if b.partial && !b.partialInitial then PartialCont
    else if b.exports || b.guids then GuidExportBunch
    else if b.reliable then ActorReliable
    else ActorUpdate
  }

  // ---- The parse as a function of the stream, its effective length and the cursor ----

  datatype Control = Control(control: bool, open: bool, close: bool, reliable: bool, next: nat)

  function OpenCloseAt(s: Bits, p: nat): (r: Control)
    ensures r.next >= p + 1
  {
    if !Peek(s, p) then Control(false, false, false, false, p + 1)
    else
      var close := Peek(s, p + 2);
      Control(true, Peek(s, p + 1), close, false, if close then ReadAdaptive(s, p + 3, 7).next else p + 3)
  }

  function ControlAt(s: Bits, p: nat): (r: Control)
    ensures r.next >= p + 3
  {
    var c := OpenCloseAt(s, p);
    c.(reliable := Peek(s, c.next + 1), next := c.next + 2)
  }

  datatype Flags = BadFlags | Flags(exports: bool, guids: bool, partial: bool, chSeq: nat,
                                    initial: bool, cef: bool, final: bool, next: nat)

  /** Ten sequence bits on channel 0, twelve elsewhere. */
  function SequenceWidth(chIdx: nat): nat { if chIdx == 0 then 10 else 12 }

  function FlagsAt(s: Bits, eff: nat, p: nat, reliable: bool, chIdx: nat): (r: Flags)
    ensures r.Flags? ==> r.next >= p + 3
  {
    var w := if reliable then SequenceWidth(chIdx) else 0;
    var partial := Peek(s, p + 2);
    var q := p + 3 + w;
    if reliable && q > eff then BadFlags
    else if partial && q + 3 > eff then BadFlags
    else if partial then Flags(Peek(s, p), Peek(s, p + 1), true, ReadN(s, p + 3, w),
                               Peek(s, q), Peek(s, q + 1), Peek(s, q + 2), q + 3)
    else Flags(Peek(s, p), Peek(s, p + 1), false, ReadN(s, p + 3, w), false, false, false, q)
  }

  datatype Name = BadName | GoodName(name: ChannelName, next: nat)

  function NameAt(s: Bits, eff: nat, p: nat, present: bool): (r: Name)
    ensures r.GoodName? ==> r.next >= p
  {
    if !present || p + 1 > eff then GoodName(NoName, p)
    else if Peek(s, p) then
      var idx := ReadSip(s, p + 1, eff, 5);
      GoodName(Indexed(idx.value % U32), idx.next)
    else if p + 33 > eff then BadName
    else TextAt(s, eff, p + 33, ReadN(s, p + 1, 32))
  }

  /** At most 256 characters; NULs, and wide characters past ASCII, are dropped. */
  function TextAt(s: Bits, eff: nat, p: nat, saveNum: nat): (r: Name)
    ensures r.GoodName? ==> r.next >= p
  {
    var wide := saveNum >= 0x8000_0000;
    var count := if !wide then saveNum else if saveNum < U32 then U32 - saveNum else 0;
    var width := if wide then 16 else 8;
    if count > 256 || p + width * count > eff then BadName
    else GoodName(Text(if wide then WideChars(s, p, count) else NarrowChars(s, p, count)), p + width * count)
  }

  function NarrowChars(s: Bits, p: nat, n: nat): Str
    decreases n
  {
    if n == 0 then []
    else NarrowChars(s, p, n - 1) + (var c := Byte8(s, p + 8 * (n - 1)); if c == 0 then [] else [c])
  }

  function WideChars(s: Bits, p: nat, n: nat): Str
    decreases n
  {
    if n == 0 then []
    else WideChars(s, p, n - 1) + (var c := ReadN(s, p + 16 * (n - 1), 16); if 0 < c < 128 then [c] else [])
  }

  /** Whole bytes, then the bits that are left over in one more. */
  function PayloadAt(s: Bits, p: nat, n: nat): (r: Str)
    ensures |r| == (n + 7) / 8
  {
    ReadBytes(s, p, n / 8) + (if n % 8 == 0 then [] else [PartialByte(s, p + n / 8 * 8, n % 8)])
  }

  function PartialByte(s: Bits, p: nat, n: nat): Byte
    requires n < 8
  {
    ReadNBound(s, p, n); Pow2Monotone(n, 8); Pow2Of8();
    ReadN(s, p, n)
  }

  datatype ScRead = Malformed | Parsed(bunch: Summary, next: nat)

  function BunchAt(s: Bits, eff: nat, b: nat): ScRead
  {
    if b + 20 > eff then Malformed
    else
      var ctl := ControlAt(s, b);
      var ch := ReadSip(s, ctl.next, eff, 5);
      var chIdx := ch.value % U32;
      if chIdx > 32766 then Malformed else AfterChannel(s, eff, ctl, chIdx, ch.next)
  }

  function AfterChannel(s: Bits, eff: nat, ctl: Control, chIdx: nat, p: nat): ScRead
  {
    var flags := FlagsAt(s, eff, p, ctl.reliable, chIdx);
    if flags.BadFlags? then Malformed
    else
      var present := (ctl.reliable || ctl.open) && (!flags.partial || flags.initial);
      var name := NameAt(s, eff, flags.next, present);
      if name.BadName? then Malformed else AfterName(s, eff, ctl, chIdx, flags, name.name, name.next)
  }

  function AfterName(s: Bits, eff: nat, ctl: Control, chIdx: nat, flags: Flags, name: ChannelName, p: nat): ScRead
    requires flags.Flags?
  {
    var n := ReadN(s, p, 13);
    if p + 13 > eff || n > 16383 || p + 13 + n > eff then Malformed
    else Parsed(Summary(chIdx, ctl.control, ctl.open, ctl.close, ctl.reliable, flags.exports, flags.guids,
                        flags.partial, flags.initial, flags.cef, flags.final, flags.chSeq,
                        n, name, PayloadAt(s, p + 13, n)),
                p + 13 + n)
  }

  // ---- Soundness on arbitrary input ------------------------------------------------

  /** The payload as bits, packed least significant bit first. */
  function Unpack(bytes: Str): Bits
    ensures |Unpack(bytes)| == 8 * |bytes|
  {
    Chars(bytes)
  }

  lemma WindowSplit(s: Bits, p: nat, a: nat, b: nat)
    ensures Window(s, p, a + b) == Window(s, p, a) + Window(s, p + a, b)
  {}

  lemma UnpackSnoc(t: Str, c: Byte)
    ensures Unpack(t + [c]) == Unpack(t) + ToBits(c, 8)
  {
    hide ToBits;
    assert (t + [c])[..|t|] == t;
  }

  lemma ByteWindow(s: Bits, p: nat)
    ensures ToBits(Byte8(s, p), 8) == Window(s, p, 8)
  {
    ToFromBits(Window(s, p, 8));
  }

  lemma {:induction false} BytesOfWindow(s: Bits, p: nat, n: nat)
    ensures Unpack(ReadBytes(s, p, n)) == Window(s, p, 8 * n)
    decreases n
  {
    if n > 0 {
      hide *;
      BytesOfWindow(s, p, n - 1);
      BytesSnoc(s, p, n - 1);
      UnpackSnoc(ReadBytes(s, p, n - 1), Byte8(s, p + 8 * (n - 1)));
      ByteWindow(s, p + 8 * (n - 1));
      assert 8 * n == 8 * (n - 1) + 8;
      WindowSplit(s, p, 8 * (n - 1), 8);
    }
  }

  /** The payload bytes reproduce the payload window bit for bit. */
  lemma PayloadReproduced(s: Bits, p: nat, n: nat)
    ensures n <= 8 * |PayloadAt(s, p, n)|
    ensures Unpack(PayloadAt(s, p, n))[..n] == Window(s, p, n)
  {
    var k, r := n / 8, n % 8;
    hide Unpack, Window, ReadBytes, PartialByte;
    BytesOfWindow(s, p, k);
    if r != 0 {
      PartialPayload(s, p, k, r);
    } else {
      assert ReadBytes(s, p, k) + [] == ReadBytes(s, p, k);
    }
  }

  lemma PartialPayload(s: Bits, p: nat, k: nat, r: nat)
    requires 0 < r < 8
    ensures var bytes := ReadBytes(s, p, k) + [PartialByte(s, p + k * 8, r)];
            8 * k + r <= 8 * |bytes| && Unpack(bytes)[..8 * k + r] == Window(s, p, 8 * k + r)
  {
    hide *;
    var last := PartialByte(s, p + k * 8, r);
    BytesOfWindow(s, p, k);
    UnpackSnoc(ReadBytes(s, p, k), last);
    PartialBits(s, p + k * 8, r);
    WindowSplit(s, p, 8 * k, r);
    PrefixOfJoin(Window(s, p, 8 * k), ToBits(last, 8), r);
  }

  lemma PrefixOfJoin(a: Bits, b: Bits, r: nat)
    requires r <= |b|
    ensures (a + b)[..|a| + r] == a + b[..r]
  {}

  lemma PartialBits(s: Bits, p: nat, r: nat)
    requires r < 8
    ensures ToBits(PartialByte(s, p, r), 8)[..r] == Window(s, p, r)
  {
    ToFromBits(Window(s, p, r));
    ToBitsPrefix(PartialByte(s, p, r), r, 8);
  }

  lemma {:induction false} ToBitsPrefix(v: nat, m: nat, n: nat)
    requires m <= n
    ensures ToBits(v, n)[..m] == ToBits(v, m)
    decreases m
  {
    if m > 0 {
      ToBitsPrefix(v / 2, m - 1, n - 1);
      assert ToBits(v, n) == [v % 2 == 1] + ToBits(v / 2, n - 1);
      assert ToBits(v, n)[..m] == [v % 2 == 1] + ToBits(v / 2, n - 1)[..m - 1];
    }
  }

  lemma SipTakesByte(s: Bits, p: nat, lim: nat, tries: nat)
    requires tries > 0
    ensures p + 8 <= lim ==> ReadSip(s, p, lim, tries).next >= p + 8
    ensures p + 8 > lim ==> ReadSip(s, p, lim, tries).next == p
  {
    hide ReadN;
  }

  /** Whatever the input, a bunch that parses has moved the cursor by at least its
      least header, not past the effective end, and has packed its payload window. */
  lemma ParseSound(s: Bits, eff: nat, b: nat)
    requires BunchAt(s, eff, b).Parsed?
    ensures var r := BunchAt(s, eff, b);
            && b + 27 + r.bunch.dataBits <= r.next <= eff
            && r.bunch.chIdx <= 32766 && r.bunch.dataBits < 8192
            && |r.bunch.payload| == (r.bunch.dataBits + 7) / 8
            && Unpack(r.bunch.payload)[..r.bunch.dataBits] == Window(s, r.next - r.bunch.dataBits, r.bunch.dataBits)
  {
    hide ControlAt, ReadSip, FlagsAt, NameAt, PayloadAt, Window, Unpack, ReadN;
    var r := BunchAt(s, eff, b);
    var p := r.next - r.bunch.dataBits;
    ReadNBound(s, p - 13, 13);
    Pow2Values();
    SipTakesByte(s, ControlAt(s, b).next, eff, 5);
    PayloadReproduced(s, p, r.bunch.dataBits);
  }

  /** The bunch loop over a whole buffer, which ends on any input. */
  function ParseAll(s: Bits, eff: nat, b: nat): seq<Summary>
    decreases eff - b
  {
    if !BunchAt(s, eff, b).Parsed? then []
    else
      ParseSound(s, eff, b);
      [BunchAt(s, eff, b).bunch] + ParseAll(s, eff, BunchAt(s, eff, b).next)
  }

  // ---- Locality: a parse depends on nothing beyond the bunch it returns --------------

  predicate Agree(s: Bits, t: Bits, n: nat)
  {
    forall i: nat :: i < n ==> Peek(s, i) == Peek(t, i)
  }

  lemma ReadNLocal(s: Bits, t: Bits, p: nat, n: nat, lim: nat)
    requires Agree(s, t, lim) && p + n <= lim
    ensures Window(s, p, n) == Window(t, p, n) && ReadN(s, p, n) == ReadN(t, p, n)
  {
    forall i: nat | i < n ensures Window(s, p, n)[i] == Window(t, p, n)[i] {
      assert Peek(s, p + i) == Peek(t, p + i);
    }
  }

  lemma {:induction false} AdaptiveLocal(s: Bits, t: Bits, p: nat, max: nat, k: nat, acc: nat, lim: nat)
    requires Agree(s, t, lim) && ReadAdaptiveFrom(s, p, max, k, acc).next <= lim
    ensures ReadAdaptiveFrom(t, p, max, k, acc) == ReadAdaptiveFrom(s, p, max, k, acc)
    decreases max - Pow2(k)
  {
    if acc + Pow2(k) < max {
      AdaptiveLocal(s, t, p + 1, max, k + 1, Plus(acc, k, Peek(s, p)), lim);
    }
  }

  lemma {:induction false} SipLocal(s: Bits, t: Bits, p: nat, l1: nat, l2: nat, tries: nat, lim: nat)
    requires Agree(s, t, lim) && lim <= l1 && lim <= l2 && ReadSip(s, p, l1, tries).next + 8 <= lim
    ensures ReadSip(t, p, l2, tries) == ReadSip(s, p, l1, tries)
    decreases tries
  {
    hide ReadN, Agree;
    if tries > 0 && p + 8 <= l1 {
      SipTakesByte(s, p, l1, tries);
      ReadNLocal(s, t, p, 8, lim);
      if ReadN(s, p, 8) % 2 == 1 { SipLocal(s, t, p + 8, l1, l2, tries - 1, lim); }
    }
  }

  lemma ControlLocal(s: Bits, t: Bits, p: nat, lim: nat)
    requires Agree(s, t, lim) && ControlAt(s, p).next <= lim
    ensures ControlAt(t, p) == ControlAt(s, p)
  {
    hide ReadAdaptiveFrom;
    var c := OpenCloseAt(s, p);
    if Peek(s, p) && Peek(s, p + 2) {
      AdaptiveLocal(s, t, p + 3, 7, 0, 0, lim);
    }
  }

  lemma FlagsLocal(s: Bits, t: Bits, e1: nat, e2: nat, p: nat, reliable: bool, chIdx: nat, lim: nat)
    requires Agree(s, t, lim) && FlagsAt(s, e1, p, reliable, chIdx).Flags?
    requires FlagsAt(s, e1, p, reliable, chIdx).next <= lim <= e2
    ensures FlagsAt(t, e2, p, reliable, chIdx) == FlagsAt(s, e1, p, reliable, chIdx)
  {
    var w := if reliable then SequenceWidth(chIdx) else 0;
    ReadNLocal(s, t, p + 3, w, lim);
    hide ReadN;
    assert Peek(s, p) == Peek(t, p) && Peek(s, p + 1) == Peek(t, p + 1) && Peek(s, p + 2) == Peek(t, p + 2);
  }

  lemma {:induction false} NarrowLocal(s: Bits, t: Bits, p: nat, n: nat, lim: nat)
    requires Agree(s, t, lim) && p + 8 * n <= lim
    ensures NarrowChars(t, p, n) == NarrowChars(s, p, n)
    decreases n
  {
    hide ReadN;
    if n > 0 {
      NarrowLocal(s, t, p, n - 1, lim);
      ReadNLocal(s, t, p + 8 * (n - 1), 8, lim);
    }
  }

  lemma {:induction false} WideLocal(s: Bits, t: Bits, p: nat, n: nat, lim: nat)
    requires Agree(s, t, lim) && p + 16 * n <= lim
    ensures WideChars(t, p, n) == WideChars(s, p, n)
    decreases n
  {
    hide ReadN;
    if n > 0 {
      WideLocal(s, t, p, n - 1, lim);
      ReadNLocal(s, t, p + 16 * (n - 1), 16, lim);
    }
  }

  lemma TextLocal(s: Bits, t: Bits, e1: nat, e2: nat, p: nat, saveNum: nat, lim: nat)
    requires Agree(s, t, lim) && TextAt(s, e1, p, saveNum).GoodName?
    requires TextAt(s, e1, p, saveNum).next <= lim <= e2
    ensures TextAt(t, e2, p, saveNum) == TextAt(s, e1, p, saveNum)
  {
    hide NarrowChars, WideChars, Agree;
    if saveNum < 0x8000_0000 {
      NarrowLocal(s, t, p, saveNum, lim);
    } else {
      WideLocal(s, t, p, if saveNum < U32 then U32 - saveNum else 0, lim);
    }
  }

  lemma NameLocal(s: Bits, t: Bits, e1: nat, e2: nat, p: nat, present: bool, lim: nat)
    requires Agree(s, t, lim) && NameAt(s, e1, p, present).GoodName?
    requires NameAt(s, e1, p, present).next + 8 <= lim && lim <= e1 && lim <= e2
    ensures NameAt(t, e2, p, present) == NameAt(s, e1, p, present)
  {
    hide ReadN, ReadSip, TextAt;
    if present {
      assert Peek(s, p) == Peek(t, p);
      if Peek(s, p) {
        SipLocal(s, t, p + 1, e1, e2, 5, lim);
      } else {
        ReadNLocal(s, t, p + 1, 32, lim);
        TextLocal(s, t, e1, e2, p + 33, ReadN(s, p + 1, 32), lim);
      }
    }
  }

  lemma PayloadLocal(s: Bits, t: Bits, p: nat, n: nat, lim: nat)
    requires Agree(s, t, lim) && p + n <= lim
    ensures PayloadAt(t, p, n) == PayloadAt(s, p, n)
  {
    hide ReadN;
    var k := n / 8;
    forall i: nat | i < k ensures ReadBytes(s, p, k)[i] == ReadBytes(t, p, k)[i] {
      ReadNLocal(s, t, p + 8 * i, 8, lim);
    }
    ReadNLocal(s, t, p + 8 * k, n % 8, lim);
    assert ReadBytes(s, p, k) == ReadBytes(t, p, k);
  }

  /** Every bit that mattered lies below the new cursor: any stream that agrees up to
      there, with any effective end from there on, parses to the same bunch. */
  lemma ParseLocal(s: Bits, e1: nat, t: Bits, e2: nat, b: nat)
    requires BunchAt(s, e1, b).Parsed? && Agree(s, t, BunchAt(s, e1, b).next) && BunchAt(s, e1, b).next <= e2
    ensures BunchAt(t, e2, b) == BunchAt(s, e1, b)
  {
    hide ReadN, ControlAt, ReadSip, FlagsAt, NameAt, PayloadAt, Agree;
    var lim := BunchAt(s, e1, b).next;
    ParseSound(s, e1, b);
    var ctl := ControlAt(s, b);
    var ch := ReadSip(s, ctl.next, e1, 5);
    var flags := FlagsAt(s, e1, ch.next, ctl.reliable, ch.value % U32);
    var present := (ctl.reliable || ctl.open) && (!flags.partial || flags.initial);
    var name := NameAt(s, e1, flags.next, present);
    var n := ReadN(s, name.next, 13);
    ControlLocal(s, t, b, lim);
    SipLocal(s, t, ctl.next, e1, e2, 5, lim);
    FlagsLocal(s, t, e1, e2, ch.next, ctl.reliable, ch.value % U32, lim);
    NameLocal(s, t, e1, e2, flags.next, present, lim);
    ReadNLocal(s, t, name.next, 13, lim);
    PayloadLocal(s, t, name.next + 13, n, lim);
  }

  // ---- Round trip with BunchBuilder::write_to ----------------------------------------

  predicate NoNul(t: Str) { forall i: nat :: i < |t| ==> t[i] != 0 }

  /** Whole bunches, whose close reason the parser steps over in as many bits as were written. */
  predicate Writable(h: BunchHeader)
  {
    HeaderFits(h) && !h.partial && (h.control && h.close ==> h.closeReason % 4 != 3)
  }

  /** A text name, if one is carried, has no NUL and at most 255 characters. */
  predicate NameReadable(h: BunchHeader)
  {
    (h.reliable || h.open) && !h.nameHardcoded ==> NoNul(h.nameString) && |h.nameString| <= 255
  }

  /** The headers on which writer and C++ parser are meant to agree. */
  predicate Plain(h: BunchHeader)
  {
    Writable(h) && (h.open || h.close ==> h.control) && NameReadable(h)
  }

  function WireName(h: BunchHeader): ChannelName
  {
    if !h.reliable && !h.open then NoName
    else if h.nameHardcoded then Indexed(h.nameIndex) else Text(h.nameString)
  }

  /** The payload as bytes, packed least significant bit first. */
  function Pack(payload: Bits): Str
  {
    PayloadAt(payload, 0, |payload|)
  }

  function WireSummary(h: BunchHeader, payload: Bits): Summary
  {
    Summary(h.chIndex, h.control, h.open, h.close, h.reliable, h.hasExports, h.hasMustMap, false, false, false, false,
            if h.reliable then h.chSequence % 1024 else 0, |payload|, WireName(h), Pack(payload))
  }

  lemma PeekIs(s: Bits, p: nat, e: Bits, i: nat)
    requires At(s, p, e) && i < |e|
    ensures Peek(s, p + i) == e[i]
  {
    assert s[p..p + |e|][i] == e[i];
  }

  /** The close reason is written under bound 5 and read under bound 7: the parser takes
      the same three bits, or one fewer exactly when the low two bits are ones. */
  lemma CloseReasonExact(s: Bits, p: nat, r: nat)
    requires At(s, p, SerializeInt(r, 5))
    ensures ReadAdaptive(s, p, 7).next == if r % 4 == 3 then p + 2 else p + 3
    ensures ReadAdaptive(s, p, 7).value == if r % 4 == 3 then 3 else r % 8
  {
    IntWidths();
    PeeksAt(s, p, ToBits(r, 3));
    ThreeBits(r);
    var b := ToBits(r, 3);
    assert Peek(s, p + 0) == b[0] && Peek(s, p + 1) == b[1] && Peek(s, p + 2) == b[2];
    hide At, Peek, ToBits;
    ReadSeven(s, p);
  }

  lemma ThreeBits(r: nat)
    ensures ToBits(r, 3) == [r % 2 == 1, r / 2 % 2 == 1, r / 4 % 2 == 1]
    ensures r % 8 == r % 2 + 2 * (r / 2 % 2) + 4 * (r / 4 % 2) && r % 4 == r % 2 + 2 * (r / 2 % 2)
  {
    var a, b, c := r / 2, r / 4, r / 8;
    assert a / 2 == b && b / 2 == c;
    assert ToBits(b, 1) == [b % 2 == 1];
    DivUnique(r, 8, c, r % 2 + 2 * (a % 2) + 4 * (b % 2));
    DivUnique(r, 4, b, r % 2 + 2 * (a % 2));
  }

  /** read_serialize_int under bound 7, unrolled. */
  lemma ReadSeven(s: Bits, p: nat)
    ensures var a, b, c := B2N(Peek(s, p)), B2N(Peek(s, p + 1)), B2N(Peek(s, p + 2));
            ReadAdaptive(s, p, 7) == if a == 1 && b == 1 then NatRead(3, p + 2) else NatRead(a + 2 * b + 4 * c, p + 3)
  {
    hide Peek;
    var a, b, c := B2N(Peek(s, p)), B2N(Peek(s, p + 1)), B2N(Peek(s, p + 2));
    assert Pow2(0) == 1 && Pow2(1) == 2 && Pow2(2) == 4 && Pow2(3) == 8;
    assert ReadAdaptive(s, p, 7) == ReadAdaptiveFrom(s, p + 1, 7, 1, a);
    assert ReadAdaptiveFrom(s, p + 1, 7, 1, a) == ReadAdaptiveFrom(s, p + 2, 7, 2, a + 2 * b);
    if a == 1 && b == 1 {
    } else {
      assert ReadAdaptiveFrom(s, p + 2, 7, 2, a + 2 * b) == ReadAdaptiveFrom(s, p + 3, 7, 3, a + 2 * b + 4 * c);
    }
  }

  lemma ControlIs(s: Bits, p: nat, h: BunchHeader)
    requires (h.control && h.close ==> h.closeReason % 4 != 3) && At(s, p, ControlBits(h))
    ensures ControlAt(s, p)
         == Control(h.control, h.control && h.open, h.control && h.close, h.reliable, p + |ControlBits(h)|)
  {
    hide At, Peek, ReadAdaptive, SerializeInt;
    var n := |OpenClose(h)|;
    AtSplit(s, p, OpenClose(h), [h.replPaused, h.reliable]);
    PeekIs(s, p + n, [h.replPaused, h.reliable], 0);
    PeekIs(s, p + n, [h.replPaused, h.reliable], 1);
    OpenCloseIs(s, p, h);
  }

  lemma OpenCloseIs(s: Bits, p: nat, h: BunchHeader)
    requires (h.control && h.close ==> h.closeReason % 4 != 3) && At(s, p, OpenClose(h))
    ensures OpenCloseAt(s, p)
         == Control(h.control, h.control && h.open, h.control && h.close, false, p + |OpenClose(h)|)
  {
    hide At, Peek, ReadAdaptive, SerializeInt;
    var e := OpenClose(h);
    PeekIs(s, p, e, 0);
    if h.control {
      PeekIs(s, p, e, 1);
      PeekIs(s, p, e, 2);
      if h.close {
        AtSplit(s, p, [true, h.open, true], SerializeInt(h.closeReason, 5));
        CloseReasonExact(s, p + 3, h.closeReason);
        ReasonLength(h.closeReason);
      }
    }
  }

  lemma ReasonLength(r: nat)
    ensures |SerializeInt(r, 5)| == 3
  {
    IntWidths();
  }

  /** So a close bunch's control bits are stepped over exactly when the reason is not 3
      modulo 4; otherwise everything behind them is read one bit early. */
  lemma ControlEndExact(s: Bits, p: nat, h: BunchHeader)
    requires At(s, p, ControlBits(h))
    ensures ControlAt(s, p).next == p + |ControlBits(h)| <==> (h.control && h.close ==> h.closeReason % 4 != 3)
    ensures h.control && h.close && h.closeReason % 4 == 3 ==> ControlAt(s, p).next + 1 == p + |ControlBits(h)|
  {
    if h.control && h.close && h.closeReason % 4 == 3 {
      hide At, Peek, ReadAdaptive, SerializeInt;
      var e := OpenClose(h);
      AtSplit(s, p, e, [h.replPaused, h.reliable]);
      PeekIs(s, p, e, 0);
      PeekIs(s, p, e, 1);
      PeekIs(s, p, e, 2);
      AtSplit(s, p, [true, h.open, true], SerializeInt(h.closeReason, 5));
      CloseReasonExact(s, p + 3, h.closeReason);
      ReasonLength(h.closeReason);
    } else {
      ControlIs(s, p, h);
    }
  }

  lemma FlagsIs(s: Bits, eff: nat, p: nat, h: BunchHeader, chIdx: nat)
    requires !h.partial && At(s, p, FlagBits(h)) && p + |FlagBits(h)| <= eff && (h.reliable ==> chIdx == 0)
    ensures FlagsAt(s, eff, p, h.reliable, chIdx)
         == Flags(h.hasExports, h.hasMustMap, false, if h.reliable then h.chSequence % 1024 else 0,
                  false, false, false, p + |FlagBits(h)|)
  {
    var f := [h.hasExports, h.hasMustMap, h.partial];
    hide At, Peek, ReadN, ToBits;
    AtSplit(s, p, f, SequenceBits(h));
    PeekIs(s, p, f, 0);
    PeekIs(s, p, f, 1);
    PeekIs(s, p, f, 2);
    if h.reliable {
      ReadNAt(s, p + 3, h.chSequence, 10);
      Pow2Values();
    } else {
      ReadNothing(s, p + 3);
    }
  }

  lemma ReadNothing(s: Bits, p: nat)
    ensures ReadN(s, p, 0) == 0
  {}

  lemma {:induction false} NarrowIs(s: Bits, p: nat, t: Str, n: nat)
    requires n <= |t| && NoNul(t) && ReadBytes(s, p, n) == t[..n]
    ensures NarrowChars(s, p, n) == t[..n]
    decreases n
  {
    hide ReadN;
    if n > 0 {
      BytesSnoc(s, p, n - 1);
      assert t[..n] == t[..n - 1] + [t[n - 1]];
      assert ReadBytes(s, p, n) == ReadBytes(s, p, n - 1) + [Byte8(s, p + 8 * (n - 1))];
      assert ReadBytes(s, p, n)[n - 1] == t[..n][n - 1];
      NarrowIs(s, p, t, n - 1);
    }
  }

  lemma TextIs(s: Bits, eff: nat, p: nat, t: Str)
    requires NoNul(t) && |t| <= 255 && At(s, p, FString(t)) && p + |FString(t)| <= eff
    ensures TextAt(s, eff, p + 32, ReadN(s, p, 32)) == GoodName(Text(t), p + |FString(t)|)
  {
    if |t| == 0 {
      Pow2Of32();
      ReadNSmall(s, p, 0, 32);
      EmptyText(s, eff, p + 32);
    } else {
      LongTextIs(s, eff, p, t);
    }
  }

  lemma EmptyText(s: Bits, eff: nat, p: nat)
    requires p <= eff
    ensures TextAt(s, eff, p, 0) == GoodName(Text([]), p)
  {}

  lemma LongTextIs(s: Bits, eff: nat, p: nat, t: Str)
    requires NoNul(t) && 0 < |t| <= 255 && At(s, p, FString(t)) && p + |FString(t)| <= eff
    ensures TextAt(s, eff, p + 32, ReadN(s, p, 32)) == GoodName(Text(t), p + |FString(t)|)
  {
    hide *;
    var n := |t| + 1;
    assert p + |FString(t)| == p + 32 + 8 * n;
    FStringAt(s, p, t);
    assert t[..|t|] == t;
    NarrowIs(s, p + 32, t, |t|);
    NarrowEnd(s, p + 32, n, t);
    NarrowText(s, eff, p + 32, n);
  }

  lemma NarrowText(s: Bits, eff: nat, p: nat, n: nat)
    requires n <= 256 && p + 8 * n <= eff
    ensures TextAt(s, eff, p, n) == GoodName(Text(NarrowChars(s, p, n)), p + 8 * n)
  {
    hide NarrowChars, WideChars;
  }

  lemma NarrowEnd(s: Bits, p: nat, n: nat, t: Str)
    requires n > 0 && ReadBytes(s, p, n) == t + [0]
    ensures NarrowChars(s, p, n) == NarrowChars(s, p, n - 1)
  {
    hide ReadN;
    assert ReadBytes(s, p, n)[n - 1] == 0;
  }

  lemma NameIs(s: Bits, eff: nat, p: nat, h: BunchHeader)
    requires Plain(h) && At(s, p, NameBits(h)) && p + |NameBits(h)| + 8 <= eff
    ensures NameAt(s, eff, p, h.reliable || h.open) == GoodName(WireName(h), p + |NameBits(h)|)
  {
    hide At, FString, Sip, ReadSip, TextAt, ReadN, Peek, NoNul;
    if h.reliable || h.open {
      if h.nameHardcoded {
        AtSplit(s, p, [true], Sip(h.nameIndex));
        PeekIs(s, p, [true], 0);
        IndexIs(s, p + 1, h.nameIndex, eff);
      } else {
        AtSplit(s, p, [false], FString(h.nameString));
        PeekIs(s, p, [false], 0);
        TextIs(s, eff, p + 1, h.nameString);
      }
    }
  }

  lemma IndexIs(s: Bits, p: nat, v: nat, eff: nat)
    requires v < U32 && At(s, p, Sip(v)) && p + |Sip(v)| <= eff
    ensures ReadSip(s, p, eff, 5) == NatRead(v, p + |Sip(v)|) && v % U32 == v
  {
    hide At, Sip, ReadSip;
    SipWidths(v);
    SipRoundTrip(s, p, v, eff, 5);
  }

  lemma PackIs(s: Bits, p: nat, payload: Bits)
    requires At(s, p, payload)
    ensures PayloadAt(s, p, |payload|) == Pack(payload)
  {
    var n := |payload|;
    var w := s[p..p + n];
    assert forall i: nat :: i < n ==> w[i] == s[p + i];
    forall i: nat | i < n / 8 ensures ReadBytes(s, p, n / 8)[i] == ReadBytes(payload, 0, n / 8)[i] {
      assert Window(s, p + 8 * i, 8) == Window(payload, 0 + 8 * i, 8);
    }
    assert ReadBytes(s, p, n / 8) == ReadBytes(payload, 0, n / 8);
    assert Window(s, p + n / 8 * 8, n % 8) == Window(payload, 0 + n / 8 * 8, n % 8);
  }

  /** The end of the parse: length, payload, and the cursor after them. */
  lemma TailIs(s: Bits, eff: nat, p: nat, ctl: Control, chIdx: nat, flags: Flags, name: ChannelName, payload: Bits)
    requires flags.Flags? && |payload| < 8192 && At(s, p, ToBits(|payload|, 13)) && At(s, p + 13, payload)
    requires p + 13 + |payload| <= eff
    ensures AfterName(s, eff, ctl, chIdx, flags, name, p)
         == Parsed(Summary(chIdx, ctl.control, ctl.open, ctl.close, ctl.reliable, flags.exports, flags.guids,
                           flags.partial, flags.initial, flags.cef, flags.final, flags.chSeq,
                           |payload|, name, Pack(payload)), p + 13 + |payload|)
  {
    hide At, ToBits, ReadN, PayloadAt, Pack;
    Pow2Values();
    ReadNSmall(s, p, |payload|, 13);
    PackIs(s, p + 13, payload);
  }

  lemma PayloadWhole(payload: Bits)
    requires |payload| < U16
    ensures PayloadBits(payload) == ToBits(|payload|, 13) + payload
  {
    hide ToBits;
    DivUnique(|payload|, U16, 0, |payload|);
    assert payload[..|payload|] == payload;
  }

  lemma BunchParts(s: Bits, b: nat, h: BunchHeader, payload: Bits)
    requires |payload| < U16 && At(s, b, BunchBits(h, payload))
    ensures var c := b + |ControlBits(h)|; var f := c + |Sip(h.chIndex)|; var m := f + |FlagBits(h)|;
            var t := m + |NameBits(h)|;
            && At(s, b, ControlBits(h)) && At(s, c, Sip(h.chIndex)) && At(s, f, FlagBits(h)) && At(s, m, NameBits(h))
            && At(s, t, ToBits(|payload|, 13)) && At(s, t + 13, payload)
            && b + |BunchBits(h, payload)| == t + 13 + |payload| && t >= b + 14
  {
    hide *;
    var t := b + |HeaderBits(h)|;
    PayloadWhole(payload);
    HeaderLength(h);
    HeaderIs(h);
    BunchIs(h, payload);
    AtSplit(s, b, HeaderBits(h), PayloadBits(payload));
    AtSplit4(s, b, ControlBits(h), Sip(h.chIndex), FlagBits(h), NameBits(h));
    AtSplit(s, t, ToBits(|payload|, 13), payload);
  }

  lemma HeaderIs(h: BunchHeader)
    ensures HeaderBits(h) == ControlBits(h) + Sip(h.chIndex) + FlagBits(h) + NameBits(h)
  {}

  lemma BunchIs(h: BunchHeader, payload: Bits)
    ensures BunchBits(h, payload) == HeaderBits(h) + PayloadBits(payload)
  {}

  /** A plain bunch, followed by anything, is parsed back to the flags, channel,
      sequence, name and payload it was written from, and exactly to its end. */
  lemma ScRoundTrip(s: Bits, eff: nat, b: nat, h: BunchHeader, payload: Bits)
    requires Plain(h) && At(s, b, BunchBits(h, payload)) && b + |BunchBits(h, payload)| <= eff
    requires |payload| < 8192 && h.chIndex <= 32766 && (h.reliable ==> h.chIndex == 0)
    ensures BunchAt(s, eff, b) == Parsed(WireSummary(h, payload), b + |BunchBits(h, payload)|)
  {
    hide At, BunchBits, HeaderBits, PayloadBits, ControlBits, Sip, FlagBits, NameBits, ToBits, NoNul,
         ControlAt, ReadSip, FlagsAt, NameAt, AfterName, WireName, Pack;
    var c := b + |ControlBits(h)|;
    var f := c + |Sip(h.chIndex)|;
    var m := f + |FlagBits(h)|;
    var t := m + |NameBits(h)|;
    BunchParts(s, b, h, payload);
    ControlIs(s, b, h);
    IndexIs(s, c, h.chIndex, eff);
    FlagsIs(s, eff, f, h, h.chIndex);
    NameIs(s, eff, m, h);
    TailIs(s, eff, t, ControlAt(s, b), h.chIndex, FlagsAt(s, eff, f, h.reliable, h.chIndex), WireName(h), payload);
  }

  // ---- The wire format the parser expects, fragments and wide sequences included ----------

  /** The flags at their places: exports, must-map, partial, the sequence in ten or twelve
      bits if reliable, and for a fragment initial, custom exports final, final. */
  lemma FlagsWire(s: Bits, eff: nat, p: nat, reliable: bool, chIdx: nat, x: bool, g: bool, partial: bool, n: nat,
                  i: bool, c: bool, f: bool)
    requires var w := if !reliable then 0 else if chIdx == 0 then 10 else 12;
             var sub := if partial then [i, c, f] else [];
             At(s, p, [x, g, partial] + ToBits(n, w) + sub) && p + 3 + w + |sub| <= eff
    ensures var w := if !reliable then 0 else if chIdx == 0 then 10 else 12;
            FlagsAt(s, eff, p, reliable, chIdx)
            == Flags(x, g, partial, n % Pow2(w), partial && i, partial && c, partial && f,
                     if partial then p + 3 + w + 3 else p + 3 + w)
  {
    hide At, Peek, ReadN, ToBits, Pow2;
    var w := if !reliable then 0 else if chIdx == 0 then 10 else 12;
    var sub := if partial then [i, c, f] else [];
    AtSplit3(s, p, [x, g, partial], ToBits(n, w), sub);
    PeekIs(s, p, [x, g, partial], 0);
    PeekIs(s, p, [x, g, partial], 1);
    PeekIs(s, p, [x, g, partial], 2);
    ReadNAt(s, p + 3, n, w);
    if partial {
      PeekIs(s, p + 3 + w, sub, 0);
      PeekIs(s, p + 3 + w, sub, 1);
      PeekIs(s, p + 3 + w, sub, 2);
    }
  }

  /** A name at its place: a set bit and an index, or a clear bit and a string. */
  lemma NameWire(s: Bits, eff: nat, p: nat, h: BunchHeader, present: bool)
    requires h.nameIndex < U32 && (present && !h.nameHardcoded ==> NoNul(h.nameString) && |h.nameString| <= 255)
    requires var e := if h.nameHardcoded then [true] + Sip(h.nameIndex) else [false] + FString(h.nameString);
             present ==> At(s, p, e) && p + |e| <= eff
    ensures !present ==> NameAt(s, eff, p, present) == GoodName(NoName, p)
    ensures present && h.nameHardcoded ==>
      NameAt(s, eff, p, present) == GoodName(Indexed(h.nameIndex), p + 1 + |Sip(h.nameIndex)|)
    ensures present && !h.nameHardcoded ==>
      NameAt(s, eff, p, present) == GoodName(Text(h.nameString), p + 1 + |FString(h.nameString)|)
  {
    hide At, FString, Sip, ReadSip, TextAt, ReadN, Peek, NoNul;
    if present && h.nameHardcoded {
      AtSplit(s, p, [true], Sip(h.nameIndex));
      PeekIs(s, p, [true], 0);
      IndexIs(s, p + 1, h.nameIndex, eff);
    } else if present {
      AtSplit(s, p, [false], FString(h.nameString));
      PeekIs(s, p, [false], 0);
      StringLength(h.nameString);
      TextIs(s, eff, p + 1, h.nameString);
    }
  }

  lemma StringLength(t: Str)
    ensures |FString(t)| >= 32
  {}

  /** A string of n 16-bit characters, as the negative length says, with a NUL at the end. */
  lemma WideNameWire(s: Bits, eff: nat, p: nat, t: Str)
    requires |t| <= 255 && forall k: nat :: k < |t| ==> 0 < t[k] < 128
    requires At(s, p, [false] + ToBits(U32 - (|t| + 1), 32)) && p + 33 + 16 * (|t| + 1) <= eff
    requires forall k: nat :: k < |t| ==> At(s, p + 33 + 16 * k, ToBits(t[k], 16))
    requires At(s, p + 33 + 16 * |t|, ToBits(0, 16))
    ensures NameAt(s, eff, p, true) == GoodName(Text(t), p + 33 + 16 * (|t| + 1))
  {
    hide *;
    var n := |t| + 1;
    WideLength(s, p, n);
    WideCharsAre(s, p + 33, t);
    WideText(s, eff, p, n);
  }

  lemma WideLength(s: Bits, p: nat, n: nat)
    requires 0 < n <= 256 && At(s, p, [false] + ToBits(U32 - n, 32))
    ensures !Peek(s, p) && ReadN(s, p + 1, 32) == U32 - n
  {
    hide At, ReadN, Peek, ToBits, Pow2;
    AtSplit(s, p, [false], ToBits(U32 - n, 32));
    PeekIs(s, p, [false], 0);
    Pow2Of32();
    ReadNSmall(s, p + 1, U32 - n, 32);
  }

  lemma WideText(s: Bits, eff: nat, p: nat, n: nat)
    requires 0 < n <= 256 && p + 33 + 16 * n <= eff && !Peek(s, p) && ReadN(s, p + 1, 32) == U32 - n
    ensures NameAt(s, eff, p, true) == GoodName(Text(WideChars(s, p + 33, n)), p + 33 + 16 * n)
  {
    hide ReadN, Peek, ReadSip, WideChars, NarrowChars;
  }

  lemma WideCharsAre(s: Bits, q: nat, t: Str)
    requires forall k: nat :: k < |t| ==> 0 < t[k] < 128
    requires forall k: nat :: k < |t| ==> At(s, q + 16 * k, ToBits(t[k], 16))
    requires At(s, q + 16 * |t|, ToBits(0, 16))
    ensures WideChars(s, q, |t| + 1) == t
  {
    hide *;
    forall k: nat | k < |t| ensures 0 < t[k] < 128 && ReadN(s, q + 16 * k, 16) == t[k] {
      ReadWide(s, q + 16 * k, t[k]);
    }
    ReadWide(s, q + 16 * |t|, 0);
    WideIs(s, q, t, |t|);
    WideLast(s, q, |t|);
    assert t[..|t|] == t;
  }

  lemma ReadWide(s: Bits, p: nat, c: Byte)
    requires At(s, p, ToBits(c, 16))
    ensures ReadN(s, p, 16) == c
  {
    hide At, ReadN, ToBits;
    Pow2Of16();
    ReadNSmall(s, p, c, 16);
  }

  lemma WideLast(s: Bits, p: nat, n: nat)
    requires ReadN(s, p + 16 * n, 16) == 0
    ensures WideChars(s, p, n + 1) == WideChars(s, p, n)
  {
    hide ReadN;
  }

  lemma {:induction false} WideIs(s: Bits, p: nat, t: Str, n: nat)
    requires n <= |t| && forall k: nat :: k < n ==> 0 < t[k] < 128 && ReadN(s, p + 16 * k, 16) == t[k]
    ensures WideChars(s, p, n) == t[..n]
    decreases n
  {
    hide ReadN;
    if n > 0 {
      WideIs(s, p, t, n - 1);
      assert t[..n] == t[..n - 1] + [t[n - 1]];
    }
  }

  /** Main law of the format: a bunch that stands in the stream as the server frames it,
      whole or a fragment, on any channel, is parsed to what it holds. The sequence has ten
      bits on channel 0 and twelve elsewhere, a fragment's sub-flags stand behind it as
      initial, custom exports final and final, and a name follows exactly when the bunch is
      reliable or opens its channel and is whole or the first fragment. */
  lemma ServerBunchWire(s: Bits, eff: nat, b: nat, h: BunchHeader, i: bool, c: bool, f: bool, payload: Bits,
                        w: nat, named: bool)
    requires HeaderFits(h) && (h.open || h.close ==> h.control) && (h.close ==> h.closeReason % 4 != 3)
    requires h.chIndex <= 32766 && |payload| < 8192
    requires h.nameHardcoded || (NoNul(h.nameString) && |h.nameString| <= 255)
    requires w == (if !h.reliable then 0 else if h.chIndex == 0 then 10 else 12)
    requires named == ((h.reliable || h.open) && (!h.partial || i))
    requires
      var flags := [h.hasExports, h.hasMustMap, h.partial] + ToBits(h.chSequence, w)
                   + (if h.partial then [i, c, f] else []);
      var name := if !named then []
                  else if h.nameHardcoded then [true] + Sip(h.nameIndex) else [false] + FString(h.nameString);
      var e := ControlBits(h) + Sip(h.chIndex) + flags + name + (ToBits(|payload|, 13) + payload);
      At(s, b, e) && b + |e| <= eff
    ensures BunchAt(s, eff, b).Parsed?
    ensures BunchAt(s, eff, b).bunch
         == Summary(h.chIndex, h.control, h.open, h.close, h.reliable, h.hasExports, h.hasMustMap, h.partial,
                    h.partial && i, h.partial && c, h.partial && f, h.chSequence % Pow2(w), |payload|,
                    if !named then NoName else if h.nameHardcoded then Indexed(h.nameIndex) else Text(h.nameString),
                    Pack(payload))
    ensures BunchAt(s, eff, b).next
         == b + |ControlBits(h)| + |Sip(h.chIndex)| + 3 + w + (if h.partial then 3 else 0)
            + (if !named then 0 else if h.nameHardcoded then 1 + |Sip(h.nameIndex)| else 1 + |FString(h.nameString)|)
            + 13 + |payload|
  {
    hide At, ControlBits, Sip, FString, ToBits, NoNul, ControlAt, ReadSip, FlagsAt, NameAt, AfterName, Pack, Pow2,
         BunchAt, HeaderFits;
    HeaderWidths(h);
    var flags := [h.hasExports, h.hasMustMap, h.partial] + ToBits(h.chSequence, w)
                 + (if h.partial then [i, c, f] else []);
    var name := if !named then []
                else if h.nameHardcoded then [true] + Sip(h.nameIndex) else [false] + FString(h.nameString);
    var p := b + |ControlBits(h)|;
    var q := p + |Sip(h.chIndex)|;
    var t := q + |flags| + |name|;
    ServerParts(s, b, h, flags, name, payload);
    ControlIs(s, b, h);
    IndexIs(s, p, h.chIndex, eff);
    FlagsWire(s, eff, q, h.reliable, h.chIndex, h.hasExports, h.hasMustMap, h.partial, h.chSequence, i, c, f);
    NameWire(s, eff, q + |flags|, h, named);
    var n := NameAt(s, eff, q + |flags|, named);
    var got := FlagsAt(s, eff, q, h.reliable, h.chIndex);
    Assembled(s, eff, b, h.chIndex, q, got, n.name, t);
    TailIs(s, eff, t, ControlAt(s, b), h.chIndex, got, n.name, payload);
  }

  lemma ServerParts(s: Bits, b: nat, h: BunchHeader, flags: Bits, name: Bits, payload: Bits)
    requires At(s, b, ControlBits(h) + Sip(h.chIndex) + flags + name + (ToBits(|payload|, 13) + payload))
    ensures var p := b + |ControlBits(h)|; var q := p + |Sip(h.chIndex)|; var m := q + |flags|; var t := m + |name|;
            && At(s, b, ControlBits(h)) && At(s, p, Sip(h.chIndex)) && At(s, q, flags) && At(s, m, name)
            && At(s, t, ToBits(|payload|, 13)) && At(s, t + 13, payload) && q >= b + 11
  {
    hide At, ControlBits, Sip, ToBits;
    AtSplit(s, b, ControlBits(h) + Sip(h.chIndex) + flags + name, ToBits(|payload|, 13) + payload);
    AtSplit4(s, b, ControlBits(h), Sip(h.chIndex), flags, name);
    AtSplit(s, b + |ControlBits(h)| + |Sip(h.chIndex)| + |flags| + |name|, ToBits(|payload|, 13), payload);
    ControlLength(h);
  }

  lemma HeaderWidths(h: BunchHeader)
    ensures HeaderFits(h) ==> h.chIndex < U32 && h.nameIndex < U32
  {}

  /** The stages of a parse put together. */
  lemma Assembled(s: Bits, eff: nat, b: nat, chIdx: nat, p: nat, flags: Flags, name: ChannelName, t: nat)
    requires b + 20 <= eff && chIdx <= 32766 && flags.Flags?
    requires ReadSip(s, ControlAt(s, b).next, eff, 5) == NatRead(chIdx, p)
    requires FlagsAt(s, eff, p, ControlAt(s, b).reliable, chIdx) == flags
    requires var c := ControlAt(s, b);
             var present := (c.reliable || c.open) && (!flags.partial || flags.initial);
             NameAt(s, eff, flags.next, present) == GoodName(name, t)
    ensures BunchAt(s, eff, b) == AfterName(s, eff, ControlAt(s, b), chIdx, flags, name, t)
  {
    hide ReadSip, ControlAt, FlagsAt, NameAt, AfterName;
  }

  lemma ControlLength(h: BunchHeader)
    ensures |ControlBits(h)| + |Sip(h.chIndex)| >= 11
  {
    hide Sip, SerializeInt;
    SipLength(h.chIndex);
    SipBytesPositive(h.chIndex);
  }

  lemma SipBytesPositive(v: nat)
    ensures SipBytes(v) >= 1
  {}

  /** The kinds, each by its own condition on the header flags. */
  lemma KindExactly(b: Summary)
    ensures Classify(b) == ActorOpen <==> b.control && b.open
    ensures Classify(b) == ActorClose <==> b.control && !b.open && b.close
    ensures Classify(b) == ControlBunch <==> b.control && !b.open && !b.close
    ensures Classify(b) == PartialCont <==> !b.control && b.partial && !b.partialInitial
    ensures Classify(b) == GuidExportBunch <==>
      !b.control && (b.partial ==> b.partialInitial) && (b.exports || b.guids)
    ensures Classify(b) == ActorReliable <==>
      !b.control && (b.partial ==> b.partialInitial) && !b.exports && !b.guids && b.reliable
    ensures Classify(b) == ActorUpdate <==>
      !b.control && (b.partial ==> b.partialInitial) && !b.exports && !b.guids && !b.reliable
  {}

  /** The bunches of `write_to` that this parser reads back. */
  predicate Readable(b: Bunch)
  {
    Plain(b.h) && |b.payload| < 8192 && b.h.chIndex <= 32766 && (b.h.reliable ==> b.h.chIndex == 0)
  }

  predicate AllReadable(bs: seq<Bunch>)
  {
    |bs| > 0 ==> Readable(bs[0]) && AllReadable(bs[1..])
  }

  function WireSummaries(bs: seq<Bunch>): seq<Summary>
  {
    if |bs| == 0 then [] else [WireSummary(bs[0].h, bs[0].payload)] + WireSummaries(bs[1..])
  }

  /** On a region that holds such bunches, and fewer than 20 more bits, the loop returns
      exactly those bunches in order. */
  lemma {:induction false} ParseAllRoundTrip(s: Bits, eff: nat, p: nat, bs: seq<Bunch>)
    requires AllReadable(bs) && At(s, p, BunchesBits(bs))
    requires p + |BunchesBits(bs)| <= eff < p + |BunchesBits(bs)| + 20
    ensures ParseAll(s, eff, p) == WireSummaries(bs)
    decreases |bs|
  {
    hide *;
    ParseAllStep(s, eff, p);
    ListStep(bs);
    if |bs| == 0 {
      TooShort(s, eff, p);
    } else {
      var b := bs[0];
      AtSplit(s, p, BunchBits(b.h, b.payload), BunchesBits(bs[1..]));
      ScRoundTrip(s, eff, p, b.h, b.payload);
      ParseAllRoundTrip(s, eff, p + |BunchBits(b.h, b.payload)|, bs[1..]);
    }
  }

  lemma ParseAllStep(s: Bits, eff: nat, p: nat)
    ensures ParseAll(s, eff, p)
         == if BunchAt(s, eff, p).Malformed? then []
            else [BunchAt(s, eff, p).bunch] + ParseAll(s, eff, BunchAt(s, eff, p).next)
  {
    hide BunchAt;
  }

  lemma ListStep(bs: seq<Bunch>)
    ensures |bs| == 0 ==> BunchesBits(bs) == [] && WireSummaries(bs) == []
    ensures |bs| > 0 && AllReadable(bs) ==>
      var b := bs[0];
      && BunchesBits(bs) == BunchBits(b.h, b.payload) + BunchesBits(bs[1..])
      && WireSummaries(bs) == [WireSummary(b.h, b.payload)] + WireSummaries(bs[1..])
      && Plain(b.h) && |b.payload| < 8192 && b.h.chIndex <= 32766 && (b.h.reliable ==> b.h.chIndex == 0)
      && AllReadable(bs[1..])
  {
    hide BunchBits, WireSummary, Plain;
  }

  lemma TooShort(s: Bits, eff: nat, p: nat)
    ensures eff < p + 20 ==> BunchAt(s, eff, p) == Malformed
  {}

  lemma HeaderLength(h: BunchHeader)
    ensures |HeaderBits(h)| >= 14
  {
    hide Sip;
  }

  /** The conditions are exact, for every whole bunch and payload: the parser loses flags
      written without the control bit, and NULs and long text names, fails on channels
      above 32766, reads twelve sequence bits where ten were written on reliable channels
      other than 0, and loses the length of payloads of 8192 bits or more. */
  lemma ScRoundTripExact(s: Bits, eff: nat, b: nat, h: BunchHeader, payload: Bits)
    requires Writable(h) && At(s, b, BunchBits(h, payload)) && b + |BunchBits(h, payload)| <= eff
    ensures BunchAt(s, eff, b) == Parsed(WireSummary(h, payload), b + |BunchBits(h, payload)|)
            <==> (&& (h.open || h.close ==> h.control) && NameReadable(h)
                  && h.chIndex <= 32766 && (h.reliable ==> h.chIndex == 0) && |payload| < 8192)
  {
    hide *;
    PlainIs(h);
    if h.chIndex > 32766 || |payload| >= 8192 {
      OutOfRange(s, eff, b, h, payload);
    } else if (h.open || h.close) && !h.control {
      FlagsLost(s, eff, b, h, payload);
    } else if h.reliable && h.chIndex != 0 {
      SequenceMisread(s, eff, b, h, payload);
    } else if NameReadable(h) {
      ScRoundTrip(s, eff, b, h, payload);
    } else {
      NameMisread(s, eff, b, h, payload);
    }
  }

  lemma PlainIs(h: BunchHeader)
    ensures Plain(h) <==> Writable(h) && (h.open || h.close ==> h.control) && NameReadable(h)
  {}

  lemma FlagsLost(s: Bits, eff: nat, b: nat, h: BunchHeader, payload: Bits)
    requires Writable(h) && At(s, b, BunchBits(h, payload)) && |payload| < 8192
    requires (h.open || h.close) && !h.control
    ensures BunchAt(s, eff, b) != Parsed(WireSummary(h, payload), b + |BunchBits(h, payload)|)
  {
    hide At, BunchBits, HeaderBits, PayloadBits, ControlBits, Sip, FlagBits, NameBits, ToBits, NoNul, AfterChannel,
         ControlAt, ReadSip, FlagsAt, NameAt, AfterName, Pack, WireName;
    BunchParts(s, b, h, payload);
    ControlIs(s, b, h);
    var ch := ReadSip(s, ControlAt(s, b).next, eff, 5);
    Stages(s, eff, ControlAt(s, b), ch.value % U32, ch.next);
  }

  /** A text name that is read back has no NUL, and is not too long if it also ends
      where it should. */
  lemma NameMisread(s: Bits, eff: nat, b: nat, h: BunchHeader, payload: Bits)
    requires Writable(h) && At(s, b, BunchBits(h, payload)) && b + |BunchBits(h, payload)| <= eff
    requires (h.open ==> h.control) && (h.reliable ==> h.chIndex == 0) && h.chIndex <= 32766 && |payload| < 8192
    requires !NameReadable(h)
    ensures BunchAt(s, eff, b) != Parsed(WireSummary(h, payload), b + |BunchBits(h, payload)|)
  {
    hide At, BunchBits, HeaderBits, PayloadBits, ControlBits, Sip, FlagBits, NameBits, ToBits, NoNul, AfterChannel,
         ControlAt, ReadSip, FlagsAt, NameAt, AfterName, Pack;
    var c := b + |ControlBits(h)|;
    var f := c + |Sip(h.chIndex)|;
    var m := f + |FlagBits(h)|;
    BunchParts(s, b, h, payload);
    ControlIs(s, b, h);
    IndexIs(s, c, h.chIndex, eff);
    FlagsIs(s, eff, f, h, h.chIndex);
    Stages(s, eff, ControlAt(s, b), h.chIndex, f);
    TextNameEnd(h);
    TextOutcome(s, eff, m, true);
  }

  lemma TextNameEnd(h: BunchHeader)
    requires (h.reliable || h.open) && !h.nameHardcoded
    ensures |NameBits(h)| == 33 + 8 * (if |h.nameString| == 0 then 0 else |h.nameString| + 1)
    ensures |h.nameString| == 0 ==> NoNul(h.nameString)
  {}

  lemma TextOutcome(s: Bits, eff: nat, p: nat, present: bool)
    ensures var r := NameAt(s, eff, p, present);
            r.GoodName? && r.name.Text? ==>
              && NoNul(r.name.text)
              && (r.next == p + 33 + 8 * (|r.name.text| + 1) ==> |r.name.text| <= 255)
  {
    hide ReadN, ReadSip, Peek, NarrowChars, WideChars, NoNul;
    var saveNum := ReadN(s, p + 1, 32);
    var wide := saveNum >= 0x8000_0000;
    var count: nat := if !wide then saveNum else if saveNum <= U32 then U32 - saveNum else 0;
    NarrowClean(s, p + 33, count);
    WideClean(s, p + 33, count);
  }

  lemma {:induction false} NarrowClean(s: Bits, p: nat, n: nat)
    ensures NoNul(NarrowChars(s, p, n)) && |NarrowChars(s, p, n)| <= n
    decreases n
  {
    hide ReadN;
    if n > 0 { NarrowClean(s, p, n - 1); }
  }

  lemma {:induction false} WideClean(s: Bits, p: nat, n: nat)
    ensures NoNul(WideChars(s, p, n)) && |WideChars(s, p, n)| <= n
    decreases n
  {
    hide ReadN;
    if n > 0 { WideClean(s, p, n - 1); }
  }

  lemma OutOfRange(s: Bits, eff: nat, b: nat, h: BunchHeader, payload: Bits)
    requires h.chIndex > 32766 || |payload| >= 8192
    ensures BunchAt(s, eff, b) != Parsed(WireSummary(h, payload), b + |BunchBits(h, payload)|)
  {
    hide BunchAt, BunchBits, Pack, WireName;
    if BunchAt(s, eff, b).Parsed? { ParseSound(s, eff, b); }
  }

  /** A sequence read two bits too wide spoils the number before a name index, and puts
      the end of a text name off the grid of whole bytes that it should end on. */
  lemma SequenceMisread(s: Bits, eff: nat, b: nat, h: BunchHeader, payload: Bits)
    requires Writable(h) && At(s, b, BunchBits(h, payload)) && b + |BunchBits(h, payload)| <= eff
    requires h.reliable && 0 < h.chIndex <= 32766 && |payload| < 8192
    ensures BunchAt(s, eff, b) != Parsed(WireSummary(h, payload), b + |BunchBits(h, payload)|)
  {
    hide At, BunchBits, HeaderBits, PayloadBits, ControlBits, Sip, FlagBits, NameBits, ToBits, NoNul, AfterChannel,
         ControlAt, ReadSip, FlagsAt, NameAt, AfterName, Pack;
    var c := b + |ControlBits(h)|;
    var f := c + |Sip(h.chIndex)|;
    BunchParts(s, b, h, payload);
    ControlIs(s, b, h);
    IndexIs(s, c, h.chIndex, eff);
    Stages(s, eff, ControlAt(s, b), h.chIndex, f);
    if h.nameHardcoded {
      WideSequence(s, eff, f, h);
    } else {
      WideFlags(s, eff, f, h);
      TextTakesBytes(s, eff, f + 15, h.reliable || h.open);
      TextNameLength(h);
    }
  }

  /** The stages behind the channel index of a parse that succeeds. */
  lemma Stages(s: Bits, eff: nat, ctl: Control, chIdx: nat, p: nat)
    ensures AfterChannel(s, eff, ctl, chIdx, p).Parsed? ==>
      var r := AfterChannel(s, eff, ctl, chIdx, p);
      var flags := FlagsAt(s, eff, p, ctl.reliable, chIdx);
      && flags.Flags? && r.bunch.chSeq == flags.chSeq && r.bunch.open == ctl.open && r.bunch.close == ctl.close
      && (!flags.partial ==>
            var name := NameAt(s, eff, flags.next, ctl.reliable || ctl.open);
            name.GoodName? && r.bunch.name == name.name && r.next == name.next + 13 + r.bunch.dataBits)
  {
    hide FlagsAt, NameAt, PayloadAt, ReadN;
  }

  lemma WideFlags(s: Bits, eff: nat, p: nat, h: BunchHeader)
    requires h.reliable && !h.partial && h.chIndex != 0 && At(s, p, FlagBits(h))
    ensures |FlagBits(h)| == 13
    ensures var r := FlagsAt(s, eff, p, true, h.chIndex); r.Flags? ==> !r.partial && r.next == p + 15
  {
    hide At, ToBits, ReadN;
    var f := [h.hasExports, h.hasMustMap, h.partial];
    AtSplit(s, p, f, SequenceBits(h));
    PeekIs(s, p, f, 2);
  }

  lemma TextTakesBytes(s: Bits, eff: nat, p: nat, present: bool)
    ensures var r := NameAt(s, eff, p, present);
            r.GoodName? && r.name.Text? ==> r.next > p && (r.next - p) % 8 == 1
  {
    hide ReadN, ReadSip, Peek, NarrowChars, WideChars;
  }

  lemma TextNameLength(h: BunchHeader)
    requires h.reliable && !h.nameHardcoded
    ensures |NameBits(h)| % 8 == 1
  {
    hide FString;
    var n := |h.nameString|;
    assert 33 + 8 * (1 + n) == 8 * (5 + n) + 1;
  }

  /** Twelve bits read over ten written: the name's leading one becomes bit 10. */
  lemma WideSequence(s: Bits, eff: nat, p: nat, h: BunchHeader)
    requires h.reliable && h.chIndex != 0 && h.nameHardcoded
    requires At(s, p, FlagBits(h)) && At(s, p + |FlagBits(h)|, NameBits(h))
    ensures var r := FlagsAt(s, eff, p, true, h.chIndex); r.Flags? ==> r.chSeq >= 1024
  {
    hide At, ToBits, ReadN, Sip;
    var f := [h.hasExports, h.hasMustMap, h.partial];
    AtSplit(s, p, f, SequenceBits(h));
    AtSplit(s, p + 13, [true], Sip(h.nameIndex));
    PeekIs(s, p + 13, [true], 0);
    HighBits(s, p + 3);
  }

  lemma HighBits(s: Bits, p: nat)
    requires Peek(s, p + 10) || Peek(s, p + 11)
    ensures ReadN(s, p, 12) >= 1024
  {
    var w := Window(s, p, 12);
    FromBitsAppend(w[..10], w[10..]);
    assert w == w[..10] + w[10..];
    assert FromBits(w[10..]) >= 1 by {
      assert w[10..][0] == w[10] == Peek(s, p + 10) && w[10..][1] == w[11] == Peek(s, p + 11);
      assert w[10..][1..][0] == w[10..][1];
    }
    assert Pow2(10) == 1024 by { Pow2Values(); }
  }

  // ---- The parser itself ----------------------------------------------------------------

  /** ue5::read_bits: zeros past the end of the buffer, and the cursor always advances. */
  method ReadBits(data: seq<bv8>, off: nat, count: nat) returns (val: nat)
    ensures val == ReadN(BytesToBits(data), off, count)
  {
    ghost var s := BytesToBits(data);
    val := 0;
    for i := 0 to count
      invariant val == ReadN(s, off, i)
    {
      var byteIdx, bitIdx := (off + i) / 8, (off + i) % 8;
      var bit := byteIdx < |data| && ByteBit(data[byteIdx], bitIdx);
      OneMoreBit(data, off, i);
      if bit { val := val + Pow2(i); }
    }
  }

  lemma OneMoreBit(data: seq<bv8>, off: nat, i: nat)
    ensures var s := BytesToBits(data);
            var bit := (off + i) / 8 < |data| && ByteBit(data[(off + i) / 8], (off + i) % 8);
            Peek(s, off + i) == bit && ReadN(s, off, i + 1) == ReadN(s, off, i) + (if bit then Pow2(i) else 0)
  {
    var s := BytesToBits(data);
    assert off + i < |s| ==> s[off + i] == BufBit(data, off + i);
    WindowSplit(s, off, i, 1);
    assert Window(s, off + i, 1) == [Peek(s, off + i)];
    AppendBit(Window(s, off, i), Peek(s, off + i));
  }

  method ReadFlag(data: seq<bv8>, off: nat) returns (bit: bool)
    ensures bit == Peek(BytesToBits(data), off)
  {
    var v := ReadBits(data, off, 1);
    bit := v != 0;
    ReadNothing(BytesToBits(data), off);
    OneMoreBit(data, off, 0);
  }

  method ReadSerializeInt(data: seq<bv8>, off: nat, maxVal: nat) returns (value: nat, next: nat)
    requires maxVal < U32
    ensures NatRead(value, next) == ReadAdaptive(BytesToBits(data), off, maxVal)
  {
    hide BytesToBits;
    value, next := 0, off;
    if maxVal <= 1 { return; }
    ghost var s := BytesToBits(data);
    var mask, k := 1, 0;
    while value + mask < maxVal
      invariant mask == Pow2(k)
      invariant ReadAdaptiveFrom(s, off, maxVal, 0, 0) == ReadAdaptiveFrom(s, next, maxVal, k, value)
      decreases maxVal - mask
    {
      var bit := ReadFlag(data, next);
      if bit { value := value + mask; }
      mask, k, next := 2 * mask, k + 1, next + 1;
    }
  }

  /** The inline SIP loop: five bytes at most, each only if it fits. */
  method ReadPacked(data: seq<bv8>, eff: nat, b: nat) returns (idx: nat, next: nat)
    ensures var r := ReadSip(BytesToBits(data), b, eff, 5); idx == r.value % U32 && next == r.next
  {
    hide BytesToBits, ReadN, Pow2, ReadSip, OnTop;
    ghost var s := BytesToBits(data);
    ghost var sum: nat := 0;
    idx, next := 0, b;
    var tries, more := 0, true;
    OnTopNone(ReadSip(s, b, eff, 5));
    while tries < 5 && next + 8 <= eff && more
      invariant tries <= 5 && idx == sum % U32
      invariant ReadSip(s, b, eff, 5)
             == if more then OnTop(sum, 7 * tries, ReadSip(s, next, eff, 5 - tries)) else NatRead(sum, next)
      decreases 5 - tries, more
    {
      SipTurn(s, next, eff, 5 - tries);
      var bv := ReadBits(data, next, 8);
      var chunk := bv / 2 * Pow2(7 * tries);
      OnTopTurn(sum, tries, bv, if bv % 2 == 1 then ReadSip(s, next + 8, eff, 5 - tries - 1) else NatRead(0, next + 8));
      AddModulo(sum, chunk);
      idx := (idx + chunk % U32) % U32;
      sum := sum + chunk;
      more := bv % 2 == 1;
      tries, next := tries + 1, next + 8;
    }
    SipStops(s, next, eff, 5 - tries);
    OnTopEnd(sum, 7 * tries, next);
  }

  /** sum already read, and r to be read k bits up. */
  function OnTop(sum: nat, k: nat, r: NatRead): NatRead
  {
    NatRead(sum + Pow2(k) * r.value, r.next)
  }

  lemma OnTopNone(r: NatRead)
    ensures OnTop(0, 7 * 0, r) == r
  {}

  lemma OnTopEnd(sum: nat, k: nat, p: nat)
    ensures OnTop(sum, k, NatRead(0, p)) == NatRead(sum, p)
  {}

  lemma SipTurn(s: Bits, p: nat, lim: nat, tries: nat)
    requires tries > 0 && p + 8 <= lim
    ensures var v := ReadN(s, p, 8);
            var rest := ReadSip(s, p + 8, lim, tries - 1);
            ReadSip(s, p, lim, tries)
            == if v % 2 == 0 then NatRead(v / 2, p + 8) else NatRead(v / 2 + 128 * rest.value, rest.next)
  {
    hide ReadN;
  }

  lemma SipStops(s: Bits, p: nat, lim: nat, tries: nat)
    ensures tries == 0 || p + 8 > lim ==> ReadSip(s, p, lim, tries) == NatRead(0, p)
  {}

  lemma OnTopTurn(sum: nat, k: nat, b: nat, rest: NatRead)
    ensures OnTop(sum, 7 * k, NatRead(b / 2 + 128 * rest.value, rest.next))
         == OnTop(sum + b / 2 * Pow2(7 * k), 7 * (k + 1), rest)
    ensures OnTop(sum, 7 * k, NatRead(b / 2, rest.next)) == NatRead(sum + b / 2 * Pow2(7 * k), rest.next)
  {
    var m := Pow2(7 * k);
    Pow2Add(7 * k, 7);
    Pow2Values();
    assert 7 * (k + 1) == 7 * k + 7;
    Distribute(m, b / 2, 128 * rest.value);
    MulAssoc(m, 128, rest.value);
  }

  lemma AddModulo(a: nat, c: nat)
    ensures (a % U32 + c % U32) % U32 == (a + c) % U32
  {}

  method ParseControl(data: seq<bv8>, b: nat) returns (c: Control)
    ensures c == ControlAt(BytesToBits(data), b)
  {
    hide BytesToBits, ReadAdaptive;
    var next := b + 1;
    var open, close := false, false;
    var control := ReadFlag(data, b);
    if control {
      open := ReadFlag(data, b + 1);
      close := ReadFlag(data, b + 2);
      next := b + 3;
      if close {
        var reason;
        reason, next := ReadSerializeInt(data, b + 3, 7);
      }
    }
    var reliable := ReadFlag(data, next + 1);
    c := Control(control, open, close, reliable, next + 2);
  }

  method ParseFlags(data: seq<bv8>, eff: nat, b: nat, reliable: bool, chIdx: nat) returns (f: Flags)
    ensures f == FlagsAt(BytesToBits(data), eff, b, reliable, chIdx)
  {
    hide BytesToBits, ReadN;
    var exports := ReadFlag(data, b);
    var guids := ReadFlag(data, b + 1);
    var partial := ReadFlag(data, b + 2);
    var next := b + 3;
    var chSeq := 0;
    ReadNothing(BytesToBits(data), b + 3);
    if reliable {
      var w := if chIdx == 0 then 10 else 12;
      if next + w > eff { return BadFlags; }
      chSeq := ReadBits(data, next, w);
      next := next + w;
    }
    var initial, cef, final := false, false, false;
    if partial {
      if next + 3 > eff { return BadFlags; }
      initial := ReadFlag(data, next);
      cef := ReadFlag(data, next + 1);
      final := ReadFlag(data, next + 2);
      next := next + 3;
    }
    f := Flags(exports, guids, partial, chSeq, initial, cef, final, next);
  }

  lemma NoChars(s: Bits, p: nat)
    ensures NarrowChars(s, p, 0) == [] && WideChars(s, p, 0) == []
  {}

  lemma NextChar(s: Bits, p: nat, n: nat)
    ensures var c := ReadN(s, p + 8 * n, 8);
            c < 256 && NarrowChars(s, p, n + 1) == NarrowChars(s, p, n) + (if c != 0 then [c] else [])
    ensures var c := ReadN(s, p + 16 * n, 16);
            WideChars(s, p, n + 1) == WideChars(s, p, n) + (if 0 < c < 128 then [c] else [])
  {
    hide ReadN;
    ReadNBound(s, p + 8 * n, 8);
    Pow2Of8();
  }

  method ParseText(data: seq<bv8>, eff: nat, b: nat) returns (name: Name)
    requires b + 32 <= eff
    ensures name == TextAt(BytesToBits(data), eff, b + 32, ReadN(BytesToBits(data), b, 32))
  {
    hide BytesToBits, ReadN, Pow2, NarrowChars, WideChars;
    ghost var s := BytesToBits(data);
    NoChars(s, b + 32);
    var saveNum := ReadBits(data, b, 32);
    ReadNBound(s, b, 32);
    Pow2Of32();
    var wide := saveNum >= 0x8000_0000;
    var count := if wide then U32 - saveNum else saveNum;
    if count > 256 { return BadName; }
    var skip := if wide then count * 16 else count * 8;
    if b + 32 + skip > eff { return BadName; }
    var text: Str := [];
    for i := 0 to count
      invariant text == if wide then WideChars(s, b + 32, i) else NarrowChars(s, b + 32, i)
    {
      NextChar(s, b + 32, i);
      if wide {
        var wc: nat := ReadBits(data, b + 32 + 16 * i, 16);
        text := text + (if 0 < wc < 128 then [wc] else []);
      } else {
        var c: nat := ReadBits(data, b + 32 + 8 * i, 8);
        text := text + (if c != 0 then [c] else []);
      }
    }
    name := GoodName(Text(text), b + 32 + skip);
  }

  method ParseName(data: seq<bv8>, eff: nat, b: nat, present: bool) returns (name: Name)
    ensures name == NameAt(BytesToBits(data), eff, b, present)
  {
    hide BytesToBits, ReadN, TextAt, ReadSip;
    if !present || b + 1 > eff { return GoodName(NoName, b); }
    var hardcoded := ReadFlag(data, b);
    if hardcoded {
      var idx, next := ReadPacked(data, eff, b + 1);
      return GoodName(Indexed(idx), next);
    }
    if b + 33 > eff { return BadName; }
    name := ParseText(data, eff, b + 1);
  }

  method ParsePayload(data: seq<bv8>, start: nat, bits: nat) returns (payload: Str)
    ensures payload == PayloadAt(BytesToBits(data), start, bits)
  {
    hide BytesToBits, ReadN;
    ghost var s := BytesToBits(data);
    payload := [];
    var tb, end := start, start + bits;
    ghost var k := 0;
    while tb + 8 <= end
      invariant tb == start + 8 * k <= end && payload == ReadBytes(s, start, k)
      decreases end - tb
    {
      var byte := ReadBits(data, tb, 8);
      BytesSnoc(s, start, k);
      payload := payload + [byte];
      tb, k := tb + 8, k + 1;
    }
    assert k == bits / 8;
    if end > tb {
      var rest := ReadBits(data, tb, end - tb);
      ghost var last := PartialByte(s, start + bits / 8 * 8, bits % 8);
      assert rest == last;
      payload := payload + [rest];
    }
  }

  /** parse_sc_bunch: on success the bunch and the cursor after it. */
  method ParseScBunch(data: seq<bv8>, eff: nat, b: nat) returns (r: ScRead)
    ensures r == BunchAt(BytesToBits(data), eff, b)
  {
    hide BytesToBits, ReadN, ControlAt, ReadSip, FlagsAt, NameAt, PayloadAt;
    if b + 20 > eff { return Malformed; }
    var ctl := ParseControl(data, b);
    var chIdx, p := ReadPacked(data, eff, ctl.next);
    if chIdx > 32766 { return Malformed; }
    var flags := ParseFlags(data, eff, p, ctl.reliable, chIdx);
    if flags == BadFlags { return Malformed; }
    var present := (ctl.reliable || ctl.open) && (!flags.partial || flags.initial);
    var name := ParseName(data, eff, flags.next, present);
    if name == BadName { return Malformed; }
    r := FinishBunch(data, eff, ctl, chIdx, flags, name.name, name.next);
  }

  method FinishBunch(data: seq<bv8>, eff: nat, ctl: Control, chIdx: nat, flags: Flags, name: ChannelName, p: nat)
      returns (r: ScRead)
    requires flags.Flags?
    ensures r == AfterName(BytesToBits(data), eff, ctl, chIdx, flags, name, p)
  {
    hide BytesToBits, ReadN, PayloadAt;
    if p + 13 > eff { return Malformed; }
    var n := ReadBits(data, p, 13);
    if n > 16383 || p + 13 + n > eff { return Malformed; }
    var payload := ParsePayload(data, p + 13, n);
    r := Parsed(Summary(chIdx, ctl.control, ctl.open, ctl.close, ctl.reliable, flags.exports, flags.guids,
                        flags.partial, flags.initial, flags.cef, flags.final, flags.chSeq,
                        n, name, payload),
                p + 13 + n);
  }

  /** The loop of the inspector over the bunches of one packet. */
  method ParseBunches(data: seq<bv8>, eff: nat, start: nat) returns (out: seq<Summary>)
    ensures out == ParseAll(BytesToBits(data), eff, start)
  {
    hide BytesToBits, BunchAt;
    ghost var s := BytesToBits(data);
    out := [];
    var b := start;
    while b + 20 <= eff
      invariant ParseAll(s, eff, start) == out + ParseAll(s, eff, b)
      decreases eff - b
    {
      var r := ParseScBunch(data, eff, b);
      if r == Malformed {
        assert out + [] == out;
        return;
      }
      ParseSound(s, eff, b);
      assert out + ([r.bunch] + ParseAll(s, eff, r.next)) == (out + [r.bunch]) + ParseAll(s, eff, r.next);
      out := out + [r.bunch];
      b := r.next;
    }
    TooShort(s, eff, b);
    assert out + [] == out;
  }
}
