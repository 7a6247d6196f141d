/** The C++ and the Python readers of a bunch header say the same of every stream on
    which their formats agree. */
module ParserAgreement {
  import opened Bits
  import opened Codec
  import opened Adaptive
  import P = ReplayDecoder
  import S = ScBunchParser

  /** A SIP whose last byte comes within `tries` bytes. */
  predicate SipCloses(s: Bits, p: nat, tries: nat)
    decreases tries
  {
    tries > 0 && p + 8 <= |s| && (ReadN(s, p, 8) % 2 == 0 || SipCloses(s, p + 8, tries - 1))
  }

  /** classify_bunch of the Python decoder, with Python's truth of integers. */
  function Classify(h: P.PyHeader): S.BunchKind
  {
    if h.ctl.control != 0 && h.ctl.open != 0 then S.ActorOpen
    else if h.ctl.control != 0 && h.ctl.close != 0 then S.ActorClose
    else if h.ctl.control != 0 then S.ControlBunch
    else if h.flags.partial != 0 && h.flags.partialInitial == 0 then S.PartialCont
    else if h.flags.hasPme != 0 || h.flags.hasMbg != 0 then S.GuidExportBunch
    else if h.ctl.reliable != 0 then S.ActorReliable
    else S.ActorUpdate
  }

  /** The fields the two readers share. The last two sub-flags of a fragment are the same
      bits under each other's names. */
  predicate SameHeader(h: P.PyHeader, b: S.Summary)
  {
    && h.ctl.control == B2N(b.control) && h.ctl.open == B2N(b.open) && h.ctl.close == B2N(b.close)
    && h.ctl.reliable == B2N(b.reliable) && h.chIndex == b.chIdx
    && h.flags.hasPme == B2N(b.exports) && h.flags.hasMbg == B2N(b.guids) && h.flags.partial == B2N(b.partial)
    && h.flags.partialInitial == B2N(b.partialInitial)
    && h.flags.partialFinal == B2N(b.partialCef) && h.flags.partialCef == B2N(b.partialFinal)
    && h.flags.chSeq == b.chSeq && h.dataBits == b.dataBits && h.name.Name?
    && (b.name.Indexed? ==> h.name.hardcoded == 1 && h.name.enameIdx == b.name.index)
  }

  lemma {:induction false} SipAgrees(s: Bits, p: nat, lim: nat, tries: nat, a: nat, c: nat)
    requires SipCloses(s, p, tries) && tries <= a && tries <= c && lim <= |s|
    requires ReadSip(s, p, lim, a).next + 8 <= lim
    ensures P.SipAt(s, p, c) == P.IntRead(ReadSip(s, p, lim, a).value, ReadSip(s, p, lim, a).next)
    ensures ReadSip(s, p, lim, a).value < Pow2(7 * tries)
    decreases tries
  {
    hide ReadN;
    S.SipTakesByte(s, p, lim, a);
    ReadNBound(s, p, 8);
    Pow2Of8();
    Pow2Add(7, 7 * (tries - 1));
    assert Pow2(7) == 128 by { Pow2Values(); }
    Pow2Monotone(0, 7 * (tries - 1));
    if ReadN(s, p, 8) % 2 == 1 {
      SipAgrees(s, p + 8, lim, tries - 1, a - 1, c - 1);
    } else {
      MulMono(128, 1, Pow2(7 * (tries - 1)));
    }
  }

  lemma ShortSipAgrees(s: Bits, p: nat, lim: nat)
    requires SipCloses(s, p, 4) && lim <= |s| && ReadSip(s, p, lim, 5).next + 8 <= lim
    ensures P.SipAt(s, p, 10) == P.IntRead(ReadSip(s, p, lim, 5).value, ReadSip(s, p, lim, 5).next)
    ensures ReadSip(s, p, lim, 5).value % U32 == ReadSip(s, p, lim, 5).value
  {
    hide SipCloses, ReadSip;
    SipAgrees(s, p, lim, 4, 5, 10);
    Pow2Values();
    Pow2Monotone(28, 32);
  }

  lemma ControlAgrees(s: Bits, p: nat)
    requires S.ControlAt(s, p).next <= |s| && !S.ControlAt(s, p).close
    ensures var c := S.ControlAt(s, p); var h := P.ControlAt(s, p);
            && h.control == B2N(c.control) && h.open == B2N(c.open) && h.close == 0
            && h.reliable == B2N(c.reliable) && h.next == c.next
            && (c.open ==> c.control)
  {
    hide ReadN;
  }

  lemma FlagsAgree(s: Bits, eff: nat, p: nat, reliable: bool, chIdx: nat)
    requires reliable ==> chIdx == 0
    requires var f := S.FlagsAt(s, eff, p, reliable, chIdx); f.Flags? && f.next <= |s|
    ensures var f := S.FlagsAt(s, eff, p, reliable, chIdx); var h := P.FlagsAt(s, p, B2N(reliable));
            && h.hasPme == B2N(f.exports) && h.hasMbg == B2N(f.guids) && h.partial == B2N(f.partial)
            && h.partialInitial == B2N(f.initial) && h.partialFinal == B2N(f.cef) && h.partialCef == B2N(f.final)
            && h.chSeq == f.chSeq && h.next == f.next
  {
    hide ReadN;
    S.ReadNothing(s, p + 3);
  }

  lemma NameAgrees(s: Bits, eff: nat, p: nat, present: bool)
    requires eff <= |s|
    requires var n := S.NameAt(s, eff, p, present); n.GoodName? && !n.name.Text? && n.next + 8 <= eff
    requires S.NameAt(s, eff, p, present).name.Indexed? ==> SipCloses(s, p + 1, 4)
    ensures var n := S.NameAt(s, eff, p, present); var h := P.NameAt(s, p, present);
            && h.Name? && h.next == n.next && (n.name.Indexed? ==> h.hardcoded == 1 && h.enameIdx == n.name.index)
  {
    hide ReadN, SipCloses, ReadSip, P.SipAt;
    if present && Peek(s, p) { ShortSipAgrees(s, p + 1, eff); }
  }

  lemma LengthAgrees(s: Bits, p: nat)
    requires p + 13 <= |s|
    ensures P.IntAt(s, p, 8192) == P.IntRead(ReadN(s, p, 13), p + 13)
  {
    hide ReadN, BitLength;
    IntWidths();
  }

  /** Whether the Python reader of bounded integers undoes the adaptive writer of v. */
  ghost predicate PythonUndoes(v: nat, max: nat)
  {
    forall s: Bits, p: nat :: At(s, p, AdaptiveInt(v, max)) ==>
      P.IntAt(s, p, max) == P.IntRead(v, p + |AdaptiveInt(v, max)|)
  }

  /** The fixed-width Python reader undoes the adaptive writer on every value below the
      bound if and only if the bound is a power of two: otherwise some value is written
      in one bit less than the reader takes. */
  lemma PythonUndoesExactly(max: nat)
    requires max >= 2
    ensures (forall v: nat :: v < max ==> PythonUndoes(v, max)) <==> PowerOfTwo(max)
  {
    hide *;
    if PowerOfTwo(max) {
      forall v: nat | v < max ensures PythonUndoes(v, max) { PythonUndoesFixed(v, max); }
    } else {
      var v := ShortValue(max);
      ShortFails(v, max);
    }
  }

  lemma PythonUndoesFixed(v: nat, max: nat)
    requires max >= 2 && v < max && PowerOfTwo(max)
    ensures PythonUndoes(v, max)
  {
    hide BitLength, AdaptiveInt, ToBits, At, P.BitsAt, ReadN;
    FixedIffPowerOfTwo(max);
    forall s: Bits, p: nat | At(s, p, AdaptiveInt(v, max))
      ensures P.IntAt(s, p, max) == P.IntRead(v, p + |AdaptiveInt(v, max)|)
    {
      P.BitsIs(s, p, v, IntWidth(max));
      WidthBounds(max);
      DivUnique(v, Pow2(IntWidth(max)), 0, v);
    }
  }

  lemma ShortValue(max: nat) returns (v: nat)
    requires max >= 2 && !PowerOfTwo(max)
    ensures v < max && |AdaptiveInt(v, max)| == IntWidth(max) - 1
  {
    hide AdaptiveInt, BitLength, PowerOfTwo;
    SameWidthIffPowerOfTwo(max);
    v :| v < max && |AdaptiveInt(v, max)| != IntWidth(max);
    AdaptiveWidth(v, max);
  }

  lemma ShortFails(v: nat, max: nat)
    requires max >= 2 && |AdaptiveInt(v, max)| == IntWidth(max) - 1
    ensures !PythonUndoes(v, max)
  {
    hide BitLength, AdaptiveInt, ReadN;
    WidthBounds(max);
    var e := AdaptiveInt(v, max);
    assert At(e, 0, e);
    assert P.IntAt(e, 0, max).v == -1;
  }

  /** The three bits of a close reason, for both readers: the C++ parser misses their end
      on reasons that are 3 modulo 4, and the Python parser, which takes four, on all. */
  lemma CloseReasonReaders(s: Bits, p: nat, r: nat)
    requires At(s, p, SerializeInt(r, 5))
    ensures |SerializeInt(r, 5)| == 3
    ensures ReadAdaptive(s, p, 7).next == p + 3 <==> r % 4 != 3
    ensures P.IntAt(s, p, 15).v < 0 || P.IntAt(s, p, 15).next == p + 4
  {
    hide At, SerializeInt, ReadAdaptive, ReadN;
    S.ReasonLength(r);
    S.CloseReasonExact(s, p, r);
    IntWidths();
  }

  /** Where the channel index starts, and where a name index does. */
  function ChannelStart(s: Bits, b: nat): nat
  {
    S.ControlAt(s, b).next
  }

  function NameStart(s: Bits, eff: nat, b: nat): nat
  {
    var ctl := S.ControlAt(s, b);
    var ch := ReadSip(s, ctl.next, eff, 5);
    var flags := S.FlagsAt(s, eff, ch.next, ctl.reliable, ch.value % U32);
    if flags.Flags? then flags.next else 0
  }

  /** The Python parser reads the same header, the same payload window and the same kind. */
  predicate Agrees(s: Bits, eff: nat, b: nat)
    requires S.BunchAt(s, eff, b).Parsed?
  {
    var x := S.BunchAt(s, eff, b); var h := P.HeaderAt(s, b);
    && h.HeaderRead? && SameHeader(h.h, x.bunch) && Classify(h.h) == S.Classify(x.bunch)
    && h.next + x.bunch.dataBits == x.next
  }

  /** A fragment behind the first whose header the C++ parser takes to have no name, and
      the Python parser to have one. */
  predicate NamelessFragment(x: S.Summary)
  {
    x.partial && !x.partialInitial && (x.reliable || x.open)
  }

  /** On every stream where the C++ parser accepts a bunch, whole or a fragment, that does
      not close, is unreliable or on channel 0, carries no string name, is not such a
      nameless fragment and has its SIPs end within four bytes, the two parsers agree. */
  lemma ParsersAgree(s: Bits, eff: nat, b: nat)
    requires eff <= |s| && S.BunchAt(s, eff, b).Parsed?
    requires var x := S.BunchAt(s, eff, b).bunch;
             !x.close && (x.reliable ==> x.chIdx == 0) && !x.name.Text? && !NamelessFragment(x)
    requires SipCloses(s, ChannelStart(s, b), 4)
    requires S.BunchAt(s, eff, b).bunch.name.Indexed? ==> SipCloses(s, NameStart(s, eff, b) + 1, 4)
    ensures Agrees(s, eff, b)
  {
    hide ReadN, SipCloses, ReadSip, S.ControlAt, S.FlagsAt, S.NameAt, S.PayloadAt, S.BunchAt, S.Classify, Classify,
         P.ControlAt, P.SipAt, P.FlagsAt, P.NameAt, P.IntAt, P.HeaderAt, Agrees;
    FrontAgrees(s, eff, b);
    NamesAgree(s, eff, b);
    PyStages(s, b, S.ControlAt(s, b).reliable || S.ControlAt(s, b).open);
    AgreesIs(s, eff, b);
  }

  /** The fields before the name. */
  lemma FrontAgrees(s: Bits, eff: nat, b: nat)
    requires eff <= |s| && S.BunchAt(s, eff, b).Parsed?
    requires var x := S.BunchAt(s, eff, b).bunch; !x.close && (x.reliable ==> x.chIdx == 0)
    requires SipCloses(s, ChannelStart(s, b), 4)
    ensures var x := S.BunchAt(s, eff, b).bunch;
            var ctl := S.ControlAt(s, b);
            var ch := ReadSip(s, ctl.next, eff, 5);
            var c := P.ControlAt(s, b);
            var f := P.FlagsAt(s, ch.next, c.reliable);
            && c.control == B2N(x.control) && c.open == B2N(x.open) && c.close == 0 && c.reliable == B2N(x.reliable)
            && ctl.open == x.open && ctl.reliable == x.reliable && c.next == ctl.next
            && P.SipAt(s, c.next, 10) == P.IntRead(x.chIdx, ch.next)
            && f.hasPme == B2N(x.exports) && f.hasMbg == B2N(x.guids) && f.partial == B2N(x.partial)
            && f.partialInitial == B2N(x.partialInitial) && f.partialFinal == B2N(x.partialCef)
            && f.partialCef == B2N(x.partialFinal) && f.chSeq == x.chSeq
            && (var g := S.FlagsAt(s, eff, ch.next, ctl.reliable, ch.value % U32); g.Flags? && f.next == g.next)
            && b <= |s|
  {
    hide ReadN, SipCloses, ReadSip, S.ControlAt, S.FlagsAt, S.NameAt, S.BunchAt, P.ControlAt, P.SipAt, P.FlagsAt;
    Stages(s, eff, b);
    var ctl := S.ControlAt(s, b);
    var ch := ReadSip(s, ctl.next, eff, 5);
    ControlAgrees(s, b);
    ShortSipAgrees(s, ctl.next, eff);
    FlagsAgree(s, eff, ch.next, ctl.reliable, ch.value % U32);
  }

  /** The names, from where the flags of the C++ parser end. */
  lemma NamesAgree(s: Bits, eff: nat, b: nat)
    requires eff <= |s| && S.BunchAt(s, eff, b).Parsed?
    requires var x := S.BunchAt(s, eff, b).bunch; !x.name.Text? && !NamelessFragment(x)
    requires S.BunchAt(s, eff, b).bunch.name.Indexed? ==> SipCloses(s, NameStart(s, eff, b) + 1, 4)
    ensures var ctl := S.ControlAt(s, b);
            var ch := ReadSip(s, ctl.next, eff, 5);
            var flags := S.FlagsAt(s, eff, ch.next, ctl.reliable, ch.value % U32);
            var x := S.BunchAt(s, eff, b);
            flags.Flags? &&
            var h := P.NameAt(s, flags.next, ctl.reliable || ctl.open);
            && h.Name? && h.next + 13 + x.bunch.dataBits == x.next
            && (x.bunch.name.Indexed? ==> h.hardcoded == 1 && h.enameIdx == x.bunch.name.index)
            && P.IntAt(s, h.next, 8192) == P.IntRead(x.bunch.dataBits, h.next + 13)
  {
    hide ReadN, SipCloses, ReadSip, S.ControlAt, S.FlagsAt, S.NameAt, S.BunchAt, P.NameAt, P.IntAt;
    Stages(s, eff, b);
    var ctl := S.ControlAt(s, b);
    var ch := ReadSip(s, ctl.next, eff, 5);
    var flags := S.FlagsAt(s, eff, ch.next, ctl.reliable, ch.value % U32);
    NameAgrees(s, eff, flags.next, ctl.reliable || ctl.open);
    LengthAgrees(s, S.NameAt(s, eff, flags.next, ctl.reliable || ctl.open).next);
  }

  lemma AgreesIs(s: Bits, eff: nat, b: nat)
    requires S.BunchAt(s, eff, b).Parsed? && P.HeaderAt(s, b).HeaderRead?
    ensures var x := S.BunchAt(s, eff, b); var h := P.HeaderAt(s, b);
            SameHeader(h.h, x.bunch) && h.next + x.bunch.dataBits == x.next ==> Agrees(s, eff, b)
  {
    hide S.BunchAt, P.HeaderAt, Classify, S.Classify;
    var x := S.BunchAt(s, eff, b).bunch;
    if SameHeader(P.HeaderAt(s, b).h, x) { SameKind(P.HeaderAt(s, b).h, x); }
  }

  /** Main law: of the accepted bunches that do not close and whose SIPs end within four
      bytes, the two parsers agree on exactly those that are unreliable or on channel 0,
      carry no string name and are not nameless fragments. */
  lemma ParsersAgreeExactly(s: Bits, eff: nat, b: nat)
    requires eff <= |s| && S.BunchAt(s, eff, b).Parsed? && !S.BunchAt(s, eff, b).bunch.close
    requires SipCloses(s, ChannelStart(s, b), 4)
    requires S.BunchAt(s, eff, b).bunch.name.Indexed? ==> SipCloses(s, NameStart(s, eff, b) + 1, 4)
    ensures var x := S.BunchAt(s, eff, b).bunch;
            Agrees(s, eff, b) <==> (x.reliable ==> x.chIdx == 0) && !x.name.Text? && !NamelessFragment(x)
  {
    hide *;
    var x := S.BunchAt(s, eff, b).bunch;
    if x.reliable && x.chIdx != 0 {
      WideSequenceDisagrees(s, eff, b);
    } else if x.name.Text? || NamelessFragment(x) {
      NameDisagrees(s, eff, b);
    } else {
      ParsersAgree(s, eff, b);
    }
  }

  /** Parsers that agree have ended the name at the same bit. */
  lemma AgreeOnName(s: Bits, eff: nat, b: nat)
    requires eff <= |s| && S.BunchAt(s, eff, b).Parsed? && !S.BunchAt(s, eff, b).bunch.close
    requires SipCloses(s, ChannelStart(s, b), 4) && Agrees(s, eff, b)
    ensures var ctl := S.ControlAt(s, b);
            var ch := ReadSip(s, ctl.next, eff, 5);
            var f := S.FlagsAt(s, eff, ch.next, ctl.reliable, ch.value % U32);
            var g := P.FlagsAt(s, ch.next, B2N(ctl.reliable));
            && f.Flags?
            && (var n := S.NameAt(s, eff, f.next, (ctl.reliable || ctl.open) && (!f.partial || f.initial));
                var m := P.NameAt(s, g.next, ctl.reliable || ctl.open);
                && m.Name? && n.GoodName? && m.next == n.next && n.next + 13 <= |s| && SameFlags(g, f)
                && n.next >= f.next && n.name == S.BunchAt(s, eff, b).bunch.name
                && (n.name.Indexed? ==> m.hardcoded == 1))
  {
    hide ReadN, SipCloses, ReadSip, S.ControlAt, S.FlagsAt, S.NameAt, S.PayloadAt, S.BunchAt, S.Classify, Classify,
         P.ControlAt, P.SipAt, P.FlagsAt, P.NameAt, P.IntAt, P.HeaderAt;
    Stages(s, eff, b);
    var ctl := S.ControlAt(s, b);
    var ch := ReadSip(s, ctl.next, eff, 5);
    var g := P.FlagsAt(s, ch.next, B2N(ctl.reliable));
    ControlAgrees(s, b);
    ShortSipAgrees(s, ctl.next, eff);
    PyStages(s, b, ctl.reliable || ctl.open);
    LengthMoves(s, P.NameAt(s, g.next, ctl.reliable || ctl.open).next);
  }

  predicate SameFlags(h: P.Flags, f: S.Flags)
    requires f.Flags?
  {
    && h.chSeq == f.chSeq && h.partialInitial == B2N(f.initial)
    && h.partialFinal == B2N(f.cef) && h.partialCef == B2N(f.final)
  }

  lemma LengthMoves(s: Bits, p: nat)
    ensures P.IntAt(s, p, 8192).v < 0 || P.IntAt(s, p, 8192).next == p + 13
  {
    hide ReadN, BitLength;
    IntWidths();
  }

  /** A name that only the Python parser sees, and the number it reads behind a string,
      both move it on. */
  lemma NameDisagrees(s: Bits, eff: nat, b: nat)
    requires eff <= |s| && S.BunchAt(s, eff, b).Parsed? && !S.BunchAt(s, eff, b).bunch.close
    requires SipCloses(s, ChannelStart(s, b), 4)
    requires var x := S.BunchAt(s, eff, b).bunch;
             (x.reliable ==> x.chIdx == 0) && (x.name.Text? || NamelessFragment(x))
    ensures !Agrees(s, eff, b)
  {
    hide ReadN, SipCloses, ReadSip, S.ControlAt, S.FlagsAt, S.NameAt, S.BunchAt, P.FlagsAt, P.NameAt, Agrees;
    if Agrees(s, eff, b) {
      Stages(s, eff, b);
      AgreeOnName(s, eff, b);
      var ctl := S.ControlAt(s, b);
      var ch := ReadSip(s, ctl.next, eff, 5);
      var f := S.FlagsAt(s, eff, ch.next, ctl.reliable, ch.value % U32);
      FlagsAgree(s, eff, ch.next, ctl.reliable, ch.value % U32);
      if S.BunchAt(s, eff, b).bunch.name.Text? {
        NumberMoves(s, eff, f.next, (ctl.reliable || ctl.open) && (!f.partial || f.initial));
        assert false;
      } else {
        NameMoves(s, f.next);
        NamePresent(s, eff, f.next, false);
        assert false;
      }
    }
  }

  lemma NameMoves(s: Bits, p: nat)
    requires p < |s|
    ensures P.NameAt(s, p, true).Name? ==> P.NameAt(s, p, true).next > p
  {
    hide ReadN, P.SipAt, P.StringNameAt;
  }

  lemma NumberMoves(s: Bits, eff: nat, p: nat, present: bool)
    requires eff <= |s|
    requires var n := S.NameAt(s, eff, p, present); n.GoodName? && n.name.Text? && n.next + 13 <= |s|
    ensures present
    ensures P.NameAt(s, p, true).Name? ==> P.NameAt(s, p, true).next > S.NameAt(s, eff, p, present).next
  {
    hide ReadN, ReadSip, S.WideChars, S.NarrowChars;
    P.Word32(s, p + 1);
  }

  /** Off channel 0 the Python parser takes two bits of a reliable bunch's sequence for
      what follows it; a bunch on which the sequences are the same has them clear, and then
      the sub-flags or the form of the name differ, or the names end apart. */
  lemma WideSequenceDisagrees(s: Bits, eff: nat, b: nat)
    requires eff <= |s| && S.BunchAt(s, eff, b).Parsed? && !S.BunchAt(s, eff, b).bunch.close
    requires SipCloses(s, ChannelStart(s, b), 4)
    requires S.BunchAt(s, eff, b).bunch.reliable && S.BunchAt(s, eff, b).bunch.chIdx != 0
    ensures !Agrees(s, eff, b)
  {
    hide ReadN, SipCloses, ReadSip, S.ControlAt, S.FlagsAt, S.NameAt, S.BunchAt, P.FlagsAt, P.NameAt, Agrees, Peek;
    if Agrees(s, eff, b) {
      Stages(s, eff, b);
      AgreeOnName(s, eff, b);
      var ctl := S.ControlAt(s, b);
      var ch := ReadSip(s, ctl.next, eff, 5);
      var f := S.FlagsAt(s, eff, ch.next, true, ch.value % U32);
      var g := P.FlagsAt(s, ch.next, 1);
      WideFlags(s, eff, ch.next, ch.value % U32);
      ClearName(s, g.next);
      S.TextTakesBytes(s, eff, f.next, !f.partial || f.initial);
      NamePresent(s, eff, f.next, !f.partial || f.initial);
      assert false;
    }
  }

  /** Flags that are the same for a ten-bit and a twelve-bit sequence: the next bit the
      Python parser reads is clear, and a fragment is not the first. */
  lemma WideFlags(s: Bits, eff: nat, p: nat, chIdx: nat)
    requires chIdx != 0
    requires var f := S.FlagsAt(s, eff, p, true, chIdx); f.Flags? && f.next <= |s|
    requires SameFlags(P.FlagsAt(s, p, 1), S.FlagsAt(s, eff, p, true, chIdx))
    ensures var f := S.FlagsAt(s, eff, p, true, chIdx); var h := P.FlagsAt(s, p, 1);
            h.next + 2 == f.next && !Peek(s, h.next) && (f.partial ==> !f.initial)
  {
    hide ReadN;
    if Peek(s, p + 13) || Peek(s, p + 14) { S.HighBits(s, p + 3); }
    P.TenBits(s, p + 3);
  }

  /** A clear bit starts a string, whose bytes and number keep the grid of bytes. */
  lemma ClearName(s: Bits, p: nat)
    requires p < |s| && !Peek(s, p)
    ensures var m := P.NameAt(s, p, true);
            m.Name? ==> m.hardcoded == 0 && (m.next == |s| || (m.next >= p + 65 && (m.next - p) % 8 == 1))
  {
    hide ReadN, P.SipAt;
  }

  lemma NamePresent(s: Bits, eff: nat, p: nat, present: bool)
    ensures var n := S.NameAt(s, eff, p, present);
            && (present && n.GoodName? && n.next + 13 <= eff ==> !n.name.NoName?)
            && (!present ==> n == S.GoodName(S.NoName, p))
  {
    hide ReadN, ReadSip, S.WideChars, S.NarrowChars;
  }

  /** The stages a successful C++ parse went through. */
  lemma Stages(s: Bits, eff: nat, b: nat)
    requires S.BunchAt(s, eff, b).Parsed?
    ensures var ctl := S.ControlAt(s, b);
            var ch := ReadSip(s, ctl.next, eff, 5);
            var chIdx := ch.value % U32;
            var flags := S.FlagsAt(s, eff, ch.next, ctl.reliable, chIdx);
            var present := (ctl.reliable || ctl.open) && (!flags.partial || flags.initial);
            var name := S.NameAt(s, eff, flags.next, present);
            var x := S.BunchAt(s, eff, b);
            && flags.Flags? && name.GoodName? && b <= ctl.next <= ch.next <= flags.next <= name.next
            && name.next + 13 + x.bunch.dataBits == x.next <= eff && x.bunch.dataBits == ReadN(s, name.next, 13)
            && x.bunch.chIdx == chIdx && x.bunch.control == ctl.control && x.bunch.open == ctl.open
            && x.bunch.close == ctl.close && x.bunch.reliable == ctl.reliable
            && x.bunch.exports == flags.exports && x.bunch.guids == flags.guids && x.bunch.partial == flags.partial
            && x.bunch.partialInitial == flags.initial
            && x.bunch.partialCef == flags.cef && x.bunch.partialFinal == flags.final
            && x.bunch.chSeq == flags.chSeq && x.bunch.name == name.name
  {
    hide ReadN, ReadSip, S.ControlAt, S.FlagsAt, S.NameAt, S.PayloadAt;
  }

  /** The Python parse, stage by stage. */
  lemma PyStages(s: Bits, b: nat, present: bool)
    requires b <= |s|
    requires present == (P.ControlAt(s, b).reliable == 1 || P.ControlAt(s, b).open == 1)
    ensures var ctl := P.ControlAt(s, b);
            var ch := P.SipAt(s, ctl.next, 10);
            var flags := P.FlagsAt(s, ch.next, ctl.reliable);
            var name := P.NameAt(s, flags.next, present);
            if name.NoName? then P.HeaderAt(s, b) == P.NoHeader
            else
              P.HeaderAt(s, b) == P.HeaderRead(P.PyHeader(ctl, ch.v, flags, name, P.IntAt(s, name.next, 8192).v),
                                               P.IntAt(s, name.next, 8192).next)
  {
    hide P.ControlAt, P.SipAt, P.FlagsAt, P.NameAt, P.IntAt;
  }

  lemma SameKind(h: P.PyHeader, b: S.Summary)
    requires SameHeader(h, b)
    ensures Classify(h) == S.Classify(b)
  {}
}
