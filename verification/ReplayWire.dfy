/** The bunch format as the Python decoder reads it, field by field: what stands in the
    stream, and what it makes of it. */
module ReplayWire {
  import opened Bits
  import opened Codec
  import opened Bunches
  import P = ReplayDecoder
  import S = ScBunchParser

  // ---- Bytes -------------------------------------------------------------------------------

  /** The bytes of a read are the bits of its window, least significant first; a read that
      runs past the end gives the whole bytes that are left and consumes everything. */
  lemma BytesWire(s: Bits, p: nat, n: nat)
    requires p <= |s|
    ensures var r := P.BytesAt(s, p, n);
            if p + 8 * n <= |s| then Chars(r.bytes) == s[p..p + 8 * n] && r.next == p + 8 * n
            else Chars(r.bytes) == s[p..p + 8 * ((|s| - p) / 8)] && r.next == |s|
  {
    hide Window, ReadBytes, Chars;
    S.BytesOfWindow(s, p, if p + 8 * n <= |s| then n else (|s| - p) / 8);
    ByteSame(P.BytesAt(s, p, n).bytes);
  }

  lemma ByteSame(t: Str)
    ensures S.Unpack(t) == Chars(t)
  {}

  predicate Shows(d: P.PyBunch, s: Bits, payload: Bits)
  {
    var n := |payload|;
    if d.start + 8 * ((n + 7) / 8) <= |s| then n <= |Chars(d.bytes)| && Chars(d.bytes)[..n] == payload
    else n % 8 != 0 && Chars(d.bytes) == payload[..8 * (n / 8)]
  }

  /** The bytes shown with a decoded bunch are its payload, bit for bit, when the buffer
      goes on to the end of their last byte; otherwise just the bits of that last byte,
      which the payload does not fill, are missing. */
  lemma ShownBytes(s: Bits, p: nat, bs: seq<Bunch>, i: nat)
    requires P.AllReadable(bs) && At(s, p, BunchesBits(bs)) && i < |bs|
    ensures Shows(P.Decoded(s, p, bs)[i], s, bs[i].payload)
  {
    hide P.Decoded, BunchesBits, P.AllReadable, P.BytesAt, Chars, At;
    P.WindowsHoldPayloads(s, p, bs, i);
    var d := P.Decoded(s, p, bs)[i];
    var payload := bs[i].payload;
    BytesOfDecoded(s, p, bs, i);
    AtBound(s, d.start, payload);
    BytesWire(s, d.start, (|payload| + 7) / 8);
    PayloadPart(s, d.start, payload);
    CharsLength(d.bytes);
  }

  lemma CharsLength(t: Str)
    ensures |Chars(t)| == 8 * |t|
  {}

  lemma PayloadPart(s: Bits, q: nat, payload: Bits)
    requires At(s, q, payload)
    ensures var n := |payload|; var m := 8 * ((n + 7) / 8);
            if q + m <= |s| then n <= m && s[q..q + m][..n] == payload
            else n % 8 != 0 && (|s| - q) / 8 == n / 8 && s[q..q + 8 * (n / 8)] == payload[..8 * (n / 8)]
  {
    var n := |payload|;
    var m := 8 * ((n + 7) / 8);
    if q + m <= |s| {
      assert s[q..q + m][..n] == s[q..q + n];
    } else {
      assert s[q..q + 8 * (n / 8)] == s[q..q + n][..8 * (n / 8)];
    }
  }

  lemma {:induction false} BytesOfDecoded(s: Bits, p: nat, bs: seq<Bunch>, i: nat)
    requires P.AllReadable(bs) && At(s, p, BunchesBits(bs)) && i < |bs|
    ensures var d := P.Decoded(s, p, bs)[i];
            d.start <= |s| && d.bytes == P.BytesAt(s, d.start, (|bs[i].payload| + 7) / 8).bytes
    decreases |bs|
  {
    hide At, BunchBits, P.Readable, BunchesBits, P.AllReadable, P.Decoded, P.DecodedOne;
    P.BunchesStep(s, p, bs);
    if i == 0 {
      OneShown(s, p, bs[0]);
    } else {
      BytesOfDecoded(s, p + |BunchBits(bs[0].h, bs[0].payload)|, bs[1..], i - 1);
    }
  }

  lemma OneShown(s: Bits, p: nat, b: Bunch)
    requires P.Readable(b) && At(s, p, BunchBits(b.h, b.payload))
    ensures var d := P.DecodedOne(s, p, b);
            d.start <= |s| && d.bytes == P.BytesAt(s, d.start, (|b.payload| + 7) / 8).bytes
  {
    hide At, BunchBits, HeaderBits, P.WireHeader, P.BytesAt, P.Readable, P.HeaderAt;
    P.OneBunch(s, p, b);
  }

  // ---- The header ----------------------------------------------------------------------------

  /** The control bits; a close reason has four bits here. */
  lemma ControlWire(s: Bits, p: nat, control: bool, open: bool, close: bool, r: nat, paused: bool, reliable: bool)
    requires var e := if !control then [false] else if !close then [true, open, false]
                      else [true, open, true] + ToBits(r, 4);
             At(s, p, e + [paused, reliable])
    ensures P.ControlAt(s, p)
         == P.Control(B2N(control), B2N(control && open), B2N(control && close),
                      if control && close then r % 16 else 0, B2N(paused), B2N(reliable),
                      if !control then p + 3 else if !close then p + 5 else p + 9)
  {
    hide At, ToBits, P.BitAt, P.BitsAt, BitLength, Pow2;
    var e := if !control then [false] else if !close then [true, open, false] else [true, open, true] + ToBits(r, 4);
    AtSplit(s, p, e, [paused, reliable]);
    P.BitIs(s, p, e, 0);
    if control {
      P.BitIs(s, p, e, 1);
      P.BitIs(s, p, e, 2);
      if close {
        AtSplit(s, p, [true, open, true], ToBits(r, 4));
        P.BitsIs(s, p + 3, r, 4);
        FourBits();
      }
    }
    P.BitIs(s, p + |e|, [paused, reliable], 0);
    P.BitIs(s, p + |e|, [paused, reliable], 1);
  }

  lemma FourBits()
    ensures IntWidth(15) == 4 && Pow2(4) == 16
  {
    IntWidths();
  }

  /** The flags: exports, must-map, partial, ten sequence bits if reliable, and for a
      fragment initial, final and custom exports final, in this order. */
  lemma FlagsWire(s: Bits, p: nat, reliable: bool, x: bool, g: bool, partial: bool, n: nat, i: bool, f: bool, c: bool)
    requires At(s, p, [x, g, partial] + (if reliable then ToBits(n, 10) else []) + (if partial then [i, f, c] else []))
    ensures P.FlagsAt(s, p, B2N(reliable))
         == P.Flags(B2N(x), B2N(g), B2N(partial), if reliable then n % 1024 else 0,
                    B2N(partial && i), B2N(partial && f), B2N(partial && c),
                    p + 3 + (if reliable then 10 else 0) + (if partial then 3 else 0))
  {
    hide At, ToBits, P.BitAt, P.BitsAt, Pow2;
    var w := if reliable then ToBits(n, 10) else [];
    var sub := if partial then [i, f, c] else [];
    AtSplit3(s, p, [x, g, partial], w, sub);
    P.BitIs(s, p, [x, g, partial], 0);
    P.BitIs(s, p, [x, g, partial], 1);
    P.BitIs(s, p, [x, g, partial], 2);
    if reliable {
      P.BitsIs(s, p + 3, n, 10);
      assert Pow2(10) == 1024 by { Pow2Values(); }
    }
    if partial {
      P.BitIs(s, p + 3 + |w|, sub, 0);
      P.BitIs(s, p + 3 + |w|, sub, 1);
      P.BitIs(s, p + 3 + |w|, sub, 2);
    }
  }

  /** A name: a set bit and an index, or a clear bit, a string and its 32-bit number. */
  lemma NameWire(s: Bits, p: nat, hard: bool, idx: nat, t: Str, number: nat)
    requires idx < U64 && |t| + 1 < 0x8000_0000
    requires At(s, p, if hard then [true] + Sip(idx) else [false] + FString(t) + ToBits(number, 32))
    ensures P.NameAt(s, p, true)
         == if hard then P.Name(1, idx, [], 0, p + 1 + |Sip(idx)|)
            else P.Name(0, 0, t, number % U32, p + 1 + |FString(t)| + 32)
  {
    hide At, ToBits, Sip, FString, P.BitAt, P.BitsAt, P.SipAt, P.StringNameAt;
    if hard {
      AtSplit(s, p, [true], Sip(idx));
      P.BitIs(s, p, [true], 0);
      P.WideSipIs(s, p + 1, idx);
    } else {
      AtSplit3(s, p, [false], FString(t), ToBits(number, 32));
      P.BitIs(s, p, [false], 0);
      StringWire(s, p + 1, t, number);
      P.Word32(s, p + 1);
    }
  }

  lemma StringWire(s: Bits, p: nat, t: Str, number: nat)
    requires |t| + 1 < 0x8000_0000 && At(s, p, FString(t)) && At(s, p + |FString(t)|, ToBits(number, 32))
    ensures var n := if |t| == 0 then 0 else |t| + 1;
            && P.BitsAt(s, p, 32) == P.IntRead(n, p + 32)
            && P.StringNameAt(s, p + 32, n, 0) == P.Name(0, 0, t, number % U32, p + |FString(t)| + 32)
  {
    hide At, ToBits, P.BitsAt, Pow2, ReadN, FString, ReadBytes, P.StringNameAt;
    var n := if |t| == 0 then 0 else |t| + 1;
    Pow2Of32();
    StringParts(s, p, t);
    P.BitsIs(s, p, n, 32);
    DivUnique(n, U32, 0, n);
    P.BitsIs(s, p + |FString(t)|, number, 32);
    NarrowName(s, p + 32, n, t);
  }

  lemma StringParts(s: Bits, p: nat, t: Str)
    requires |t| + 1 < 0x8000_0000 && At(s, p, FString(t))
    ensures var n := if |t| == 0 then 0 else |t| + 1;
            && At(s, p, ToBits(n, 32)) && |FString(t)| == 32 + 8 * n && p + 32 + 8 * n <= |s|
            && (|t| > 0 ==> ReadBytes(s, p + 32, n) == t + [0])
  {
    hide At, ToBits, ReadBytes, Chars;
    AtBound(s, p, FString(t));
    if |t| > 0 {
      DivUnique(|t| + 1, U32, 0, |t| + 1);
      AtSplit3(s, p, ToBits(|t| + 1, 32), Chars(t), ToBits(0, 8));
      CharsLength(t);
      FStringAt(s, p, t);
    }
  }

  lemma NarrowName(s: Bits, p: nat, n: nat, t: Str)
    requires n < 0x8000_0000 && p + 8 * n <= |s| && n == (if |t| == 0 then 0 else |t| + 1)
    requires |t| > 0 ==> ReadBytes(s, p, n) == t + [0]
    ensures var number := P.BitsAt(s, p + 8 * n, 32);
            P.StringNameAt(s, p, n, 0) == P.Name(0, 0, t, number.v, number.next)
  {
    hide ReadBytes, P.BitsAt;
    assert |t| > 0 ==> (t + [0])[..|t|] == t;
  }

  /** A string of 16-bit characters, which a negative length announces: the number is read
      behind it, and the two bytes of the closing NUL are cut off. */
  lemma WideNameWire(s: Bits, p: nat, t: Str, number: nat)
    requires |t| > 0 && |t| % 2 == 0 && |t| < 0x8000_0000
    requires At(s, p, [false] + ToBits(U32 - |t| / 2, 32) + Chars(t) + ToBits(number, 32))
    ensures P.NameAt(s, p, true) == P.Name(0, 0, t[..|t| - 2], number % U32, p + 33 + 8 * |t| + 32)
  {
    hide At, ToBits, P.BitAt, P.BitsAt, P.SipAt, P.StringNameAt, Chars, Pow2, ReadBytes;
    AtSplit4(s, p, [false], ToBits(U32 - |t| / 2, 32), Chars(t), ToBits(number, 32));
    P.BitIs(s, p, [false], 0);
    Pow2Of32();
    P.BitsIs(s, p + 1, U32 - |t| / 2, 32);
    DivUnique(U32 - |t| / 2, U32, 0, U32 - |t| / 2);
    CharsLength(t);
    CharsRoundTrip(s, p + 33, t);
    AtBound(s, p + 33, Chars(t));
    WideName(s, p + 33, t);
    P.BitsIs(s, p + 33 + 8 * |t|, number, 32);
    P.Word32(s, p + 1);
  }

  lemma WideName(s: Bits, p: nat, t: Str)
    requires |t| > 0 && |t| % 2 == 0 && |t| < 0x8000_0000 && p + 8 * |t| <= |s| && ReadBytes(s, p, |t|) == t
    ensures var number := P.BitsAt(s, p + 8 * |t|, 32);
            P.StringNameAt(s, p, U32 - |t| / 2, 0) == P.Name(0, 0, t[..|t| - 2], number.v, number.next)
  {
    hide ReadBytes, P.BitsAt;
  }

  /** A fragment's sub-flags, and a string name's number: what a BunchHeader does not hold. */
  datatype Extra = Extra(initial: bool, final: bool, exportsFinal: bool, number: nat)

  function ControlForm(h: BunchHeader): Bits
  {
    (if !h.control then [false] else if !h.close then [true, h.open, false]
     else [true, h.open, true] + ToBits(h.closeReason, 4)) + [h.replPaused, h.reliable]
  }

  function FlagsForm(h: BunchHeader, x: Extra): Bits
  {
    [h.hasExports, h.hasMustMap, h.partial] + (if h.reliable then ToBits(h.chSequence, 10) else [])
    + (if h.partial then [x.initial, x.final, x.exportsFinal] else [])
  }

  function NameForm(h: BunchHeader, x: Extra): Bits
  {
    if !h.reliable && !h.open then []
    else if h.nameHardcoded then [true] + Sip(h.nameIndex)
    else [false] + FString(h.nameString) + ToBits(x.number, 32)
  }

  lemma ControlFormAt(s: Bits, p: nat, h: BunchHeader)
    requires (h.open || h.close ==> h.control) && At(s, p, ControlForm(h))
    ensures P.ControlAt(s, p)
         == P.Control(B2N(h.control), B2N(h.open), B2N(h.close), if h.close then h.closeReason % 16 else 0,
                      B2N(h.replPaused), B2N(h.reliable), p + |ControlForm(h)|)
  {
    hide At, ToBits, P.ControlAt;
    ControlWire(s, p, h.control, h.open, h.close, h.closeReason, h.replPaused, h.reliable);
  }

  lemma FlagsFormAt(s: Bits, p: nat, h: BunchHeader, x: Extra)
    requires At(s, p, FlagsForm(h, x))
    ensures P.FlagsAt(s, p, B2N(h.reliable))
         == P.Flags(B2N(h.hasExports), B2N(h.hasMustMap), B2N(h.partial), if h.reliable then h.chSequence % 1024 else 0,
                    B2N(h.partial && x.initial), B2N(h.partial && x.final), B2N(h.partial && x.exportsFinal),
                    p + |FlagsForm(h, x)|)
  {
    hide At, ToBits, P.FlagsAt;
    FlagsWire(s, p, h.reliable, h.hasExports, h.hasMustMap, h.partial, h.chSequence,
              x.initial, x.final, x.exportsFinal);
  }

  lemma NameFormAt(s: Bits, p: nat, h: BunchHeader, x: Extra)
    requires HeaderFits(h) && At(s, p, NameForm(h, x))
    ensures P.NameAt(s, p, h.reliable || h.open) == NameRead(h, x, p + |NameForm(h, x)|)
  {
    hide At, ToBits, Sip, FString, P.NameAt;
    if h.reliable || h.open {
      NameWire(s, p, h.nameHardcoded, h.nameIndex, h.nameString, x.number);
    } else {
      NoNameAt(s, p);
    }
  }

  lemma NoNameAt(s: Bits, p: nat)
    ensures P.NameAt(s, p, false) == P.Name(1, 0, [], 0, p)
  {}

  /** What the decoder says of a name: index and no text, text and number, or neither. */
  function NameRead(h: BunchHeader, x: Extra, end: nat): P.Name
  {
    if !h.reliable && !h.open then P.Name(1, 0, [], 0, end)
    else if h.nameHardcoded then P.Name(1, h.nameIndex, [], 0, end)
    else P.Name(0, 0, h.nameString, x.number % U32, end)
  }

  /** Main law of the format: a header that stands in the stream in the decoder's own
      order, closing, fragment, named by index or by text, or not, is read field by field
      to its end. */
  lemma HeaderWire(s: Bits, p: nat, h: BunchHeader, x: Extra, n: nat)
    requires HeaderFits(h) && (h.open || h.close ==> h.control)
    requires At(s, p, ControlForm(h) + Sip(h.chIndex) + FlagsForm(h, x) + NameForm(h, x) + ToBits(n, 13))
    ensures
      var q := p + |ControlForm(h)|; var g := q + |Sip(h.chIndex)|;
      var m := g + |FlagsForm(h, x)|; var t := m + |NameForm(h, x)|;
      P.HeaderAt(s, p)
      == P.HeaderRead(
           P.PyHeader(
             P.Control(B2N(h.control), B2N(h.open), B2N(h.close), if h.close then h.closeReason % 16 else 0,
                       B2N(h.replPaused), B2N(h.reliable), q),
             h.chIndex,
             P.Flags(B2N(h.hasExports), B2N(h.hasMustMap), B2N(h.partial),
                     if h.reliable then h.chSequence % 1024 else 0,
                     B2N(h.partial && x.initial), B2N(h.partial && x.final), B2N(h.partial && x.exportsFinal), m),
             NameRead(h, x, t), n % 8192),
           t + 13)
  {
    hide At, Sip, ToBits, HeaderFits, ControlForm, FlagsForm, NameForm, NameRead,
         P.ControlAt, P.SipAt, P.FlagsAt, P.NameAt, P.IntAt, P.HeaderAt;
    var q := p + |ControlForm(h)|;
    var g := q + |Sip(h.chIndex)|;
    var m := g + |FlagsForm(h, x)|;
    var t := m + |NameForm(h, x)|;
    HeaderParts(s, p, ControlForm(h), h.chIndex, FlagsForm(h, x), NameForm(h, x), n);
    ControlFormAt(s, p, h);
    ChannelAt(s, q, h);
    FlagsFormAt(s, g, h, x);
    NameFormAt(s, m, h, x);
    NameIsRead(h, x, t);
    P.LengthIs(s, t, n);
    HeaderStages(s, p, P.ControlAt(s, p), h.reliable || h.open, P.SipAt(s, q, 10), P.FlagsAt(s, g, B2N(h.reliable)),
                 P.NameAt(s, m, h.reliable || h.open), P.IntAt(s, t, 8192));
  }

  lemma NameIsRead(h: BunchHeader, x: Extra, end: nat)
    ensures NameRead(h, x, end).Name? && NameRead(h, x, end).next == end
  {}

  lemma ChannelAt(s: Bits, p: nat, h: BunchHeader)
    requires HeaderFits(h) && At(s, p, Sip(h.chIndex))
    ensures P.SipAt(s, p, 10) == P.IntRead(h.chIndex, p + |Sip(h.chIndex)|)
  {
    hide At, Sip, P.SipAt;
    P.WideSipIs(s, p, h.chIndex);
  }

  lemma HeaderParts(s: Bits, p: nat, front: Bits, ch: nat, flags: Bits, name: Bits, n: nat)
    requires At(s, p, front + Sip(ch) + flags + name + ToBits(n, 13))
    ensures var q := p + |front|; var f := q + |Sip(ch)|; var m := f + |flags|;
            && At(s, p, front) && At(s, q, Sip(ch)) && At(s, f, flags) && At(s, m, name)
            && At(s, m + |name|, ToBits(n, 13))
  {
    hide At, Sip, ToBits;
    AtSplit(s, p, front + Sip(ch) + flags + name, ToBits(n, 13));
    AtSplit4(s, p, front, Sip(ch), flags, name);
  }

  lemma HeaderStages(s: Bits, p: nat, ctl: P.Control, named: bool, ch: P.IntRead, flags: P.Flags, name: P.Name,
                     n: P.IntRead)
    requires P.ControlAt(s, p) == ctl && named == (ctl.reliable == 1 || ctl.open == 1)
    requires P.SipAt(s, ctl.next, 10) == ch && P.FlagsAt(s, ch.next, ctl.reliable) == flags
    requires P.NameAt(s, flags.next, named) == name && name.Name? && P.IntAt(s, name.next, 8192) == n
    ensures P.HeaderAt(s, p) == P.HeaderRead(P.PyHeader(ctl, ch.v, flags, name, n.v), n.next)
  {
    hide P.ControlAt, P.SipAt, P.FlagsAt, P.NameAt, P.IntAt;
  }
}
