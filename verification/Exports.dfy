/** PackageMap exports: InternalWriteObject, the two export-list bunches and the
    must-be-mapped list, with the readers that undo them. */
module Exports {
  import opened Wrappers
  import opened Bits
  import opened Codec
  import opened BitWriters

  datatype GuidExport = GuidExport(guid: nat, flags: Byte, outerGuid: nat, name: Str,
                                   checksum: nat, outerChain: seq<GuidExport>)

  predicate HasPath(flags: Byte) { flags % 2 == 1 }
  predicate HasChecksum(flags: Byte) { flags / 4 % 2 == 1 }

  predicate NameFits(t: Str) { |t| + 1 < 0x8000_0000 }

  /** The C++ field widths, along the part of the tree that is written. */
  predicate Fits(e: GuidExport)
  {
    && e.guid < U64 && e.outerGuid < U64 && e.checksum < U32 && NameFits(e.name)
    && (e.outerChain != [] ==> Fits(e.outerChain[0]))
  }

  function OuterRef(g: nat): Bits
  {
    if g == 0 then Sip(g) else Sip(g) + ToBits(0, 8)
  }

  function ChecksumBits(e: GuidExport): Bits
  {
    if HasChecksum(e.flags) then ToBits(e.checksum, 32) else []
  }

  function ObjectBits(e: GuidExport): Bits
    decreases e
  {
    if e.guid == 0 then Sip(0)
    else if !HasPath(e.flags) then Sip(e.guid) + ToBits(e.flags, 8)
    else
      var outer := if e.outerChain != [] then ObjectBits(e.outerChain[0]) else OuterRef(e.outerGuid);
      Sip(e.guid) + ToBits(e.flags, 8) + outer + FString(e.name) + ChecksumBits(e)
  }

  // ---- The reader ----------------------------------------------------------

  /** What a reader can know of an export. */
  datatype Object = Null
                  | Bare(guid: nat, flags: Byte)
                  | Path(guid: nat, flags: Byte, outer: Object, name: Str, checksum: Option<nat>)

  datatype GuidRead = BadGuid | GoodGuid(guid: nat, next: nat)
  datatype ObjectRead = BadObject | GoodObject(object: Object, next: nat)

  /** read_sip64: ten bytes at most, and an error when they do not end. */
  function ReadSip64(s: Bits, p: nat, tries: nat): GuidRead
    decreases tries
  {
    if tries == 0 || p + 8 > |s| then BadGuid
    else
      var b := ReadN(s, p, 8);
      if b % 2 == 0 then GoodGuid(b / 2, p + 8)
      else
        match ReadSip64(s, p + 8, tries - 1)
        case BadGuid => BadGuid
        case GoodGuid(rest, next) => GoodGuid(b / 2 + 128 * rest, next)
  }

  /** Names lose NULs, and characters past ASCII become question marks. */
  function Clean(t: seq<nat>): Str
  {
    if t == [] then []
    else CleanChar(t[0]) + Clean(t[1..])
  }

  function ReadWide(s: Bits, p: nat, n: nat): (t: seq<nat>)
    ensures |t| == n
  {
    seq(n, i requires 0 <= i < n => ReadN(s, p + 16 * i, 16))
  }

  datatype NameRead = BadName | GoodName(name: Str, next: nat)

  function ReadName(s: Bits, p: nat, maxChars: nat): NameRead
  {
    if p + 32 > |s| then BadName
    else
      ReadNBound(s, p, 32); Pow2Of32();
      ReadChars(s, p + 32, ReadN(s, p, 32), maxChars)
  }

  /** The characters after a 32-bit length n, which is negative for wide strings. */
  function ReadChars(s: Bits, p: nat, n: nat, maxChars: nat): NameRead
    requires n < U32
  {
    var wide := n >= 0x8000_0000;
    var count := if wide then U32 - n else n;
    var bits := if wide then 16 * count else 8 * count;
    if n == 0 then GoodName([], p)
    else if count > maxChars || p + bits > |s| then BadName
    else GoodName(Clean(if wide then ReadWide(s, p, count) else ReadBytes(s, p, count)), p + bits)
  }

  /** decode_internal_load_object, with its recursion limit and its longest name as
      parameters: the inspector allows 17 nested objects and 512 characters. */
  function ReadObject(s: Bits, p: nat, levels: nat, maxChars: nat): ObjectRead
    decreases levels
  {
    if levels == 0 then BadObject
    else
      match ReadSip64(s, p, 10)
      case BadGuid => BadObject
      case GoodGuid(guid, q) =>
        if guid == 0 then GoodObject(Null, q)
        else if q + 8 > |s| then BadObject
        else
          var flags := Byte8(s, q);
          if !HasPath(flags) then GoodObject(Bare(guid, flags), q + 8)
          else
            match ReadObject(s, q + 8, levels - 1, maxChars)
            case BadObject => BadObject
            case GoodObject(outer, n) => ReadPathTail(s, guid, flags, outer, ReadName(s, n, maxChars))
  }

  function ReadPathTail(s: Bits, guid: nat, flags: Byte, outer: Object, name: NameRead): ObjectRead
  {
    match name
    case BadName => BadObject
    case GoodName(t, q) =>
      if !HasChecksum(flags) then GoodObject(Path(guid, flags, outer, t, None), q)
      else if q + 32 > |s| then BadObject
      else GoodObject(Path(guid, flags, outer, t, Some(ReadN(s, q, 32))), q + 32)
  }

  /** What the bits of an export mean: a null GUID cuts it off, without the path
      flag it is a bare reference, and an empty chain is a path-less outer. */
  function Canonical(e: GuidExport): Object
  {
    if e.guid == 0 then Null
    else if !HasPath(e.flags) then Bare(e.guid, e.flags)
    else
      var outer := if e.outerChain != [] then Canonical(e.outerChain[0])
                   else if e.outerGuid == 0 then Null else Bare(e.outerGuid, 0);
      Path(e.guid, e.flags, outer, Clean(e.name), if HasChecksum(e.flags) then Some(e.checksum) else None)
  }

  /** How many objects are nested in the encoding. */
  function Levels(e: GuidExport): nat
  {
    if e.guid == 0 || !HasPath(e.flags) then 1
    else 1 + (if e.outerChain != [] then Levels(e.outerChain[0]) else 1)
  }

  predicate NamesWithin(e: GuidExport, maxChars: nat)
  {
    e.guid == 0 || !HasPath(e.flags) ||
    ((|e.name| == 0 || |e.name| + 1 <= maxChars) && (e.outerChain != [] ==> NamesWithin(e.outerChain[0], maxChars)))
  }

  predicate Readable(e: GuidExport, levels: nat, maxChars: nat)
  {
    Levels(e) <= levels && NamesWithin(e, maxChars)
  }

  lemma {:induction false} Sip64RoundTrip(s: Bits, p: nat, v: nat, tries: nat)
    requires At(s, p, Sip(v)) && SipBytes(v) <= tries
    ensures ReadSip64(s, p, tries) == GoodGuid(v, p + |Sip(v)|)
    decreases v
  {
    AtBound(s, p, Sip(v));
    hide At, ReadN, ToBits, SipByte, Sip, SipBytes;
    SipStep(v);
    SipByteParts(v);
    if v < 128 {
      ReadByteAt(s, p, SipByte(v));
    } else {
      AtSplit(s, p, ToBits(SipByte(v), 8), Sip(v / 128));
      ReadByteAt(s, p, SipByte(v));
      Sip64RoundTrip(s, p + 8, v / 128, tries - 1);
      assert p + 8 + |Sip(v / 128)| == p + |Sip(v)|;
    }
  }

  lemma GuidRoundTrip(s: Bits, p: nat, v: nat)
    requires v < U64 && At(s, p, Sip(v))
    ensures ReadSip64(s, p, 10) == GoodGuid(v, p + |Sip(v)|)
  {
    hide At, ReadN, Sip, SipBytes, ReadSip64;
    SipWidths(v);
    Sip64RoundTrip(s, p, v, 10);
  }

  function CleanChar(c: nat): Str
  {
    if c == 0 then [] else if c < 128 then [c] else [63]
  }

  lemma {:induction false} CleanSnoc(a: seq<nat>, c: nat)
    ensures Clean(a + [c]) == Clean(a) + CleanChar(c)
  {
    if a == [] {
      assert a + [c] == [c];
      assert Clean([c]) == CleanChar(c) + Clean([]);
    } else {
      hide CleanChar;
      CleanSnoc(a[1..], c);
      assert (a + [c])[1..] == a[1..] + [c];
      assert (CleanChar(a[0]) + Clean(a[1..])) + CleanChar(c) == CleanChar(a[0]) + (Clean(a[1..]) + CleanChar(c));
    }
  }

  /** The name survives unchanged exactly when it is free of NULs and ASCII. */
  lemma {:induction false} CleanIdentity(t: seq<nat>)
    ensures |Clean(t)| <= |t|
    ensures Clean(t) == t <==> (forall i: nat :: i < |t| ==> 0 < t[i] < 128)
  {
    if t != [] {
      CleanIdentity(t[1..]);
      assert forall i: nat :: i < |t[1..]| ==> t[1..][i] == t[i + 1];
      if Clean(t) == t {
        assert t[0] != 0;
        assert Clean(t)[0] == t[0] && Clean(t)[1..] == Clean(t[1..]);
        forall i: nat | i < |t| ensures 0 < t[i] < 128 { if i > 0 { assert t[1..][i - 1] == t[i]; } }
      }
      if forall i: nat :: i < |t| ==> 0 < t[i] < 128 { assert t == [t[0]] + t[1..]; }
    }
  }

  /** The clean-up character by character: ASCII stays, anything past it becomes a question
      mark, and a NUL is dropped wherever it stands. */
  lemma {:induction false} CleanEach(t: seq<nat>, i: nat)
    requires i < |t| && forall k: nat :: k < |t| ==> t[k] != 0
    ensures |Clean(t)| == |t| && Clean(t)[i] == if t[i] < 128 then t[i] else 63
    decreases |t|
  {
    if i > 0 {
      CleanEach(t[1..], i - 1);
    } else if |t| > 1 {
      CleanEach(t[1..], 0);
    }
  }

  lemma {:induction false} CleanDrops(a: seq<nat>, b: seq<nat>)
    ensures Clean(a + [0] + b) == Clean(a) + Clean(b)
    decreases |a|
  {
    if a == [] {
      assert ([0] + b)[1..] == b && a + [0] + b == [0] + b;
    } else {
      CleanDrops(a[1..], b);
      assert (a + [0] + b)[1..] == a[1..] + [0] + b;
      hide CleanChar;
      assert CleanChar(a[0]) + (Clean(a[1..]) + Clean(b)) == CleanChar(a[0]) + Clean(a[1..]) + Clean(b);
    }
  }

  /** A string of n 16-bit characters, which the negative length -n announces. */
  lemma WideNameRead(s: Bits, p: nat, t: seq<nat>, maxChars: nat)
    requires 0 < |t| <= 0x8000_0000 && At(s, p, ToBits(U32 - |t|, 32)) && p + 32 + 16 * |t| <= |s|
    requires forall k: nat :: k < |t| ==> t[k] < U16 && At(s, p + 32 + 16 * k, ToBits(t[k], 16))
    ensures ReadName(s, p, maxChars)
         == if |t| <= maxChars then GoodName(Clean(t), p + 32 + 16 * |t|) else BadName
  {
    hide *;
    WideCharsRead(s, p + 32, t);
    WideLengthRead(s, p, |t|);
    NameByLength(s, p, U32 - |t|, maxChars);
    WideCharsExact(s, p + 32, t, maxChars);
  }

  lemma WideLengthRead(s: Bits, p: nat, n: nat)
    requires 0 < n <= 0x8000_0000 && At(s, p, ToBits(U32 - n, 32))
    ensures p + 32 <= |s| && ReadN(s, p, 32) == U32 - n < U32
  {
    AtBound(s, p, ToBits(U32 - n, 32));
    hide At, ReadN, ToBits, Pow2;
    Pow2Of32();
    ReadNSmall(s, p, U32 - n, 32);
  }

  lemma WideCharsRead(s: Bits, p: nat, t: seq<nat>)
    requires forall k: nat :: k < |t| ==> t[k] < U16 && At(s, p + 16 * k, ToBits(t[k], 16))
    ensures ReadWide(s, p, |t|) == t
  {
    hide At, ReadN, ToBits, Pow2;
    forall k: nat | k < |t| ensures ReadN(s, p + 16 * k, 16) == t[k] {
      Pow2Of16();
      ReadNSmall(s, p + 16 * k, t[k], 16);
    }
  }

  lemma WideCharsExact(s: Bits, p: nat, t: seq<nat>, maxChars: nat)
    requires 0 < |t| <= 0x8000_0000 && p + 16 * |t| <= |s| && ReadWide(s, p, |t|) == t
    ensures ReadChars(s, p, U32 - |t|, maxChars)
         == if |t| <= maxChars then GoodName(Clean(t), p + 16 * |t|) else BadName
  {
    hide ReadWide, ReadBytes, Clean;
  }

  lemma NameRoundTrip(s: Bits, p: nat, t: Str, maxChars: nat)
    requires NameFits(t) && At(s, p, FString(t))
    ensures |t| == 0 || |t| + 1 <= maxChars ==> ReadName(s, p, maxChars) == GoodName(Clean(t), p + |FString(t)|)
    ensures |t| > 0 && |t| + 1 > maxChars ==> ReadName(s, p, maxChars) == BadName
  {
    AtBound(s, p, FString(t));
    hide *;
    if |t| == 0 { EmptyNameRoundTrip(s, p, t, maxChars); } else { LongNameRoundTrip(s, p, t, maxChars); }
  }

  lemma EmptyNameRoundTrip(s: Bits, p: nat, t: Str, maxChars: nat)
    requires |t| == 0 && At(s, p, FString(t))
    ensures ReadName(s, p, maxChars) == GoodName(Clean(t), p + |FString(t)|)
  {
    AtBound(s, p, FString(t));
    assert NameFits(t);
    hide *;
    EmptyFStringAt(s, p, t);
    NameByLength(s, p, 0, maxChars);
    CharsExact(s, p + 32, t, maxChars);
  }

  lemma LongNameRoundTrip(s: Bits, p: nat, t: Str, maxChars: nat)
    requires |t| > 0 && NameFits(t) && At(s, p, FString(t))
    ensures |t| + 1 <= maxChars ==> ReadName(s, p, maxChars) == GoodName(Clean(t), p + |FString(t)|)
    ensures |t| + 1 > maxChars ==> ReadName(s, p, maxChars) == BadName
  {
    AtBound(s, p, FString(t));
    hide *;
    var n := |t| + 1;
    var q := p + |FString(t)|;
    FStringAt(s, p, t);
    NameByLength(s, p, n, maxChars);
    assert q == p + 32 + 8 * n;
    CharsExact(s, p + 32, t, maxChars);
  }

  lemma NameByLength(s: Bits, p: nat, n: nat, maxChars: nat)
    requires p + 32 <= |s| && n == ReadN(s, p, 32) < U32
    ensures ReadName(s, p, maxChars) == ReadChars(s, p + 32, n, maxChars)
  {}

  lemma EmptyFStringAt(s: Bits, p: nat, t: Str)
    requires |t| == 0 && At(s, p, FString(t))
    ensures ReadN(s, p, 32) == 0
  {
    Pow2Of32();
    ReadNSmall(s, p, 0, 32);
  }

  lemma CharsExact(s: Bits, p: nat, t: Str, maxChars: nat)
    requires NameFits(t)
    requires |t| > 0 ==> p + 8 * (|t| + 1) <= |s| && ReadBytes(s, p, |t| + 1) == t + [0]
    ensures |t| == 0 ==> ReadChars(s, p, 0, maxChars) == GoodName(Clean(t), p)
    ensures |t| > 0 && |t| + 1 <= maxChars ==>
      ReadChars(s, p, |t| + 1, maxChars) == GoodName(Clean(t), p + 8 * (|t| + 1))
    ensures |t| > 0 && |t| + 1 > maxChars ==> ReadChars(s, p, |t| + 1, maxChars) == BadName
  {
    hide ReadBytes, ReadWide, Clean;
    CleanNul(t);
  }

  lemma CleanNul(t: Str)
    ensures Clean(t + [0]) == Clean(t) && (|t| == 0 ==> Clean(t) == [])
  {
    CleanSnoc(t, 0);
  }

  /** Main law: for every export tree, a reader with given limits returns the
      canonical form and consumes exactly the bits written, if and only if the
      tree is within its limits. */
  lemma {:induction false} ObjectRoundTrip(s: Bits, p: nat, e: GuidExport, levels: nat, maxChars: nat)
    requires Fits(e) && At(s, p, ObjectBits(e))
    ensures Readable(e, levels, maxChars) ==>
      ReadObject(s, p, levels, maxChars) == GoodObject(Canonical(e), p + |ObjectBits(e)|)
    ensures !Readable(e, levels, maxChars) ==> ReadObject(s, p, levels, maxChars) == BadObject
    decreases e
  {
    hide At, ReadN, ToBits, Sip, FString, ReadName, Clean, ReadSip64;
    if levels == 0 {
    } else if e.guid == 0 {
      GuidRoundTrip(s, p, 0);
    } else if !HasPath(e.flags) {
      BareRoundTrip(s, p, e.guid, e.flags);
    } else {
      PathRoundTrip(s, p, e, levels, maxChars);
    }
  }

  lemma BareRoundTrip(s: Bits, p: nat, guid: nat, flags: Byte)
    requires 0 < guid < U64 && At(s, p, Sip(guid) + ToBits(flags, 8))
    ensures ReadSip64(s, p, 10) == GoodGuid(guid, p + |Sip(guid)|)
    ensures p + |Sip(guid)| + 8 <= |s| && Byte8(s, p + |Sip(guid)|) == flags
  {
    hide *;
    AtBound(s, p, Sip(guid) + ToBits(flags, 8));
    assert |Sip(guid) + ToBits(flags, 8)| == |Sip(guid)| + 8;
    AtSplit(s, p, Sip(guid), ToBits(flags, 8));
    GuidRoundTrip(s, p, guid);
    Byte8At(s, p + |Sip(guid)|, flags);
  }

  lemma OuterRefRoundTrip(s: Bits, p: nat, g: nat, levels: nat, maxChars: nat)
    requires g < U64 && At(s, p, OuterRef(g))
    ensures levels >= 1 ==>
      ReadObject(s, p, levels, maxChars) == GoodObject(if g == 0 then Null else Bare(g, 0), p + |OuterRef(g)|)
  {
    hide At, ReadN, ToBits, Sip, ReadName, ReadSip64;
    if g == 0 { GuidRoundTrip(s, p, g); } else { BareRoundTrip(s, p, g, 0); }
  }

  function OuterBits(e: GuidExport): Bits
  {
    if e.outerChain != [] then ObjectBits(e.outerChain[0]) else OuterRef(e.outerGuid)
  }

  function OuterObject(e: GuidExport): Object
  {
    if e.outerChain != [] then Canonical(e.outerChain[0])
    else if e.outerGuid == 0 then Null else Bare(e.outerGuid, 0)
  }

  predicate OuterReadable(e: GuidExport, levels: nat, maxChars: nat)
  {
    if e.outerChain != [] then Readable(e.outerChain[0], levels, maxChars) else levels >= 1
  }

  lemma {:induction false} PathRoundTrip(s: Bits, p: nat, e: GuidExport, levels: nat, maxChars: nat)
    requires Fits(e) && At(s, p, ObjectBits(e)) && levels > 0 && e.guid != 0 && HasPath(e.flags)
    ensures Readable(e, levels, maxChars) ==>
      ReadObject(s, p, levels, maxChars) == GoodObject(Canonical(e), p + |ObjectBits(e)|)
    ensures !Readable(e, levels, maxChars) ==> ReadObject(s, p, levels, maxChars) == BadObject
    decreases e, 0
  {
    hide At, ReadN, ToBits, Sip, FString, ReadName, Clean, ReadSip64;
    var head := Sip(e.guid) + ToBits(e.flags, 8);
    var o := p + |head|;
    AtSplit4(s, p, head, OuterBits(e), FString(e.name), ChecksumBits(e));
    BareRoundTrip(s, p, e.guid, e.flags);
    if e.outerChain != [] {
      ObjectRoundTrip(s, o, e.outerChain[0], levels - 1, maxChars);
    } else {
      OuterRefRoundTrip(s, o, e.outerGuid, levels - 1, maxChars);
    }
    var r := ReadObject(s, o, levels - 1, maxChars);
    assert if OuterReadable(e, levels - 1, maxChars) then r == GoodObject(OuterObject(e), o + |OuterBits(e)|)
           else r == BadObject;
    var n := o + |OuterBits(e)|;
    NameRoundTrip(s, n, e.name, maxChars);
    ChecksumRoundTrip(s, n + |FString(e.name)|, e);
  }

  lemma ChecksumRoundTrip(s: Bits, p: nat, e: GuidExport)
    requires Fits(e) && At(s, p, ChecksumBits(e))
    ensures HasChecksum(e.flags) ==> p + 32 <= |s| && ReadN(s, p, 32) == e.checksum
  {
    AtBound(s, p, ChecksumBits(e));
    hide At, ReadN, ToBits;
    if HasChecksum(e.flags) {
      Pow2Of32();
      ReadNSmall(s, p, e.checksum, 32);
    }
  }

  // ---- The writer ----------------------------------------------------------

  method WriteInternalObject(w: BitWriter, e: GuidExport)
    requires w.Valid()
    modifies w, w.data
    ensures w.Valid() && w.Contents == old(w.Contents) + ObjectBits(e)
    ensures w.data == old(w.data) || fresh(w.data)
    decreases e
  {
    hide Holds, ToBits, Sip, FString;
    ghost var c := w.Contents;
    w.WriteSip(e.guid);
    if e.guid == 0 { return; }
    w.Write(e.flags, 8);
    ghost var head := Sip(e.guid) + ToBits(e.flags, 8);
    Assoc(c, Sip(e.guid), ToBits(e.flags, 8));
    if e.flags % 2 == 1 {
      if e.outerChain != [] {
        WriteInternalObject(w, e.outerChain[0]);
      } else {
        w.WriteSip(e.outerGuid);
        if e.outerGuid != 0 {
          w.Write(0, 8);
          Assoc(c + head, Sip(e.outerGuid), ToBits(0, 8));
        }
      }
      assert w.Contents == c + head + OuterBits(e);
      w.WriteFString(e.name);
      if e.flags / 4 % 2 == 1 { w.Write(e.checksum, 32); }
      assert w.Contents == c + head + OuterBits(e) + FString(e.name) + ChecksumBits(e);
      Assoc4(c, head, OuterBits(e), FString(e.name), ChecksumBits(e));
    }
  }

  // ---- The export-list bunch ------------------------------------------------

  function ObjectsBits(es: seq<GuidExport>): Bits
  {
    if |es| == 0 then [] else ObjectBits(es[0]) + ObjectsBits(es[1..])
  }

  function ExportListBits(es: seq<GuidExport>): Bits
  {
    [false] + ToBits(|es|, 32) + ObjectsBits(es)
  }

  datatype ObjectsRead = BadObjects | GoodObjects(objects: seq<Object>, next: nat)

  function ReadObjects(s: Bits, p: nat, n: nat, levels: nat, maxChars: nat): ObjectsRead
    decreases n
  {
    if n == 0 then GoodObjects([], p)
    else
      match ReadObject(s, p, levels, maxChars)
      case BadObject => BadObjects
      case GoodObject(o, q) => PrependObject(o, ReadObjects(s, q, n - 1, levels, maxChars))
  }

  function PrependObject(o: Object, r: ObjectsRead): ObjectsRead
  {
    if r.BadObjects? then BadObjects else GoodObjects([o] + r.objects, r.next)
  }

  /** decode_guid_export_payload_bits: refuses RepLayout exports and counts that
      are negative or above a sanity bound. */
  function ReadExportList(s: Bits, p: nat, levels: nat, maxChars: nat, maxObjects: nat): ObjectsRead
  {
    if p + 33 > |s| || Peek(s, p) then BadObjects
    else
      var n := ReadN(s, p + 1, 32);
      if n >= 0x8000_0000 || n > maxObjects then BadObjects
      else ReadObjects(s, p + 33, n, levels, maxChars)
  }

  function Canonicals(es: seq<GuidExport>): seq<Object>
  {
    if |es| == 0 then [] else [Canonical(es[0])] + Canonicals(es[1..])
  }

  predicate AllFit(es: seq<GuidExport>)
  {
    |es| > 0 ==> Fits(es[0]) && AllFit(es[1..])
  }

  predicate AllReadable(es: seq<GuidExport>, levels: nat, maxChars: nat)
  {
    |es| > 0 ==> Readable(es[0], levels, maxChars) && AllReadable(es[1..], levels, maxChars)
  }

  lemma {:induction false} ObjectsRoundTrip(s: Bits, p: nat, es: seq<GuidExport>, levels: nat, maxChars: nat)
    requires AllFit(es) && At(s, p, ObjectsBits(es))
    ensures AllReadable(es, levels, maxChars) ==>
      ReadObjects(s, p, |es|, levels, maxChars) == GoodObjects(Canonicals(es), p + |ObjectsBits(es)|)
    ensures !AllReadable(es, levels, maxChars) ==> ReadObjects(s, p, |es|, levels, maxChars) == BadObjects
    decreases |es|
  {
    hide At, ObjectBits, ReadObject, Canonical, Readable, Fits;
    if |es| > 0 {
      AtSplit(s, p, ObjectBits(es[0]), ObjectsBits(es[1..]));
      ObjectRoundTrip(s, p, es[0], levels, maxChars);
      ObjectsRoundTrip(s, p + |ObjectBits(es[0])|, es[1..], levels, maxChars);
    }
  }

  lemma {:induction false} FrontBits(es: seq<GuidExport>, n: nat)
    requires n <= |es| && AllFit(es)
    ensures ObjectsBits(es) == ObjectsBits(es[..n]) + ObjectsBits(es[n..]) && AllFit(es[..n])
    ensures n < |es| ==> |ObjectsBits(es[n..])| > 0
    decreases n
  {
    hide ObjectBits, Fits;
    if n == 0 {
      assert es[0..] == es && es[..0] == [];
      if |es| > 0 { ObjectTakesBits(es[0]); }
    } else {
      FrontBits(es[1..], n - 1);
      assert es[..n][0] == es[0] && es[..n][1..] == es[1..][..n - 1] && es[n..] == es[1..][n - 1..];
      Assoc(ObjectBits(es[0]), ObjectsBits(es[..n][1..]), ObjectsBits(es[n..]));
    }
  }

  lemma ObjectTakesBits(e: GuidExport)
    ensures |ObjectBits(e)| > 0
  {
    hide ToBits;
  }

  /** A count as its 32 bits show it. */
  function WireCount(k: nat): (n: nat)
    ensures n <= k && (n == k <==> k < 0x1_0000_0000)
  {
    k % U32
  }

  lemma CountAt(s: Bits, p: nat, k: nat)
    requires At(s, p, ToBits(k, 32))
    ensures ReadN(s, p, 32) == WireCount(k)
  {
    hide At, ToBits, ReadN, Pow2;
    Pow2Of32();
    ReadNAt(s, p, k, 32);
  }

  lemma ReadByCount(s: Bits, p: nat, n: nat, levels: nat, maxChars: nat, maxObjects: nat)
    requires p + 33 <= |s| && !Peek(s, p) && n == ReadN(s, p + 1, 32)
    ensures ReadExportList(s, p, levels, maxChars, maxObjects)
         == if n >= 0x8000_0000 || n > maxObjects then BadObjects else ReadObjects(s, p + 33, n, levels, maxChars)
  {}

  /** The list law, for lists of any length: the reader takes as many objects as the
      32-bit count says, and returns every canonical form and ends at the end of the
      list exactly when the list has fewer than 2^31 entries and its trees and its
      length are within the limits. */
  lemma ExportListRoundTrip(s: Bits, p: nat, es: seq<GuidExport>, levels: nat, maxChars: nat, maxObjects: nat)
    requires AllFit(es) && At(s, p, ExportListBits(es))
    ensures var n := WireCount(|es|); var front := es[..n];
            ReadExportList(s, p, levels, maxChars, maxObjects)
            == if n < 0x8000_0000 && n <= maxObjects && AllReadable(front, levels, maxChars)
               then GoodObjects(Canonicals(front), p + 33 + |ObjectsBits(front)|) else BadObjects
    ensures ReadExportList(s, p, levels, maxChars, maxObjects) == GoodObjects(Canonicals(es), p + |ExportListBits(es)|)
            <==> |es| < 0x8000_0000 && |es| <= maxObjects && AllReadable(es, levels, maxChars)
  {
    hide *;
    var n := WireCount(|es|);
    var front := es[..n];
    ListParts(s, p, es);
    FrontBits(es, n);
    AtSplit(s, p + 33, ObjectsBits(front), ObjectsBits(es[n..]));
    ReadByCount(s, p, n, levels, maxChars, maxObjects);
    ObjectsRoundTrip(s, p + 33, front, levels, maxChars);
    assert |ObjectsBits(es)| == |ObjectsBits(front)| + |ObjectsBits(es[n..])|;
    if n == |es| { assert front == es; }
  }

  lemma ListParts(s: Bits, p: nat, es: seq<GuidExport>)
    requires At(s, p, ExportListBits(es))
    ensures p + 33 <= |s| && !Peek(s, p) && ReadN(s, p + 1, 32) == WireCount(|es|) && At(s, p + 33, ObjectsBits(es))
    ensures |ExportListBits(es)| == 33 + |ObjectsBits(es)|
  {
    AtBound(s, p, ExportListBits(es));
    hide At, ToBits, ReadN, Peek, ObjectsBits, WireCount;
    AtSplit3(s, p, [false], ToBits(|es|, 32), ObjectsBits(es));
    PeekAt(s, p, false);
    CountAt(s, p + 1, |es|);
  }

  method WriteExportList(w: BitWriter, es: seq<GuidExport>)
    requires w.Valid()
    modifies w, w.data
    ensures w.Valid() && w.Contents == old(w.Contents) + ExportListBits(es)
    ensures w.data == old(w.data) || fresh(w.data)
  {
    hide Holds, ToBits, ObjectBits;
    w.WriteBit(false);
    w.Write(|es|, 32);
    ghost var c := w.Contents;
    for i := 0 to |es|
      invariant w.Valid() && (w.data == old(w.data) || fresh(w.data))
      invariant w.Contents + ObjectsBits(es[i..]) == c + ObjectsBits(es)
    {
      ghost var c1 := w.Contents;
      WriteInternalObject(w, es[i]);
      assert es[i..][0] == es[i] && es[i..][1..] == es[i + 1..];
      Assoc(c1, ObjectBits(es[i]), ObjectsBits(es[i + 1..]));
    }
    assert w.Contents + [] == w.Contents;
    Assoc3(old(w.Contents), [false], ToBits(|es|, 32), ObjectsBits(es));
  }

  // ---- RepLayout exports ----------------------------------------------------

  datatype RepField = RepField(handle: nat, compat: nat, exported: bool, name: Str, kind: Byte)
  datatype RepExport = RepExport(pathIndex: nat, exported: bool, pathName: Str, fields: seq<RepField>)

  predicate FieldFits(f: RepField)
  {
    f.handle < U32 && f.compat < U32 && NameFits(f.name)
  }

  predicate FieldsFit(fs: seq<RepField>)
  {
    |fs| > 0 ==> FieldFits(fs[0]) && FieldsFit(fs[1..])
  }

  predicate RepFits(e: RepExport)
  {
    e.pathIndex < U32 && NameFits(e.pathName) && FieldsFit(e.fields)
  }

  predicate RepsFit(es: seq<RepExport>)
  {
    |es| > 0 ==> RepFits(es[0]) && RepsFit(es[1..])
  }

  /** Every count that is written fits its 32 bits. */
  predicate CountsFit(es: seq<RepExport>)
  {
    |es| > 0 ==> (es[0].exported ==> |es[0].fields| < 0x1_0000_0000) && CountsFit(es[1..])
  }

  function FieldTail(f: RepField): Bits
  {
    if f.exported then [true] + FString(f.name) + ToBits(f.kind, 8) else [false]
  }

  function FieldBits(f: RepField): Bits
  {
    ToBits(f.handle, 32) + ToBits(f.compat, 32) + FieldTail(f)
  }

  function FieldsBits(fs: seq<RepField>): Bits
  {
    if |fs| == 0 then [] else FieldBits(fs[0]) + FieldsBits(fs[1..])
  }

  function RepTail(e: RepExport): Bits
  {
    if e.exported then [true] + FString(e.pathName) + ToBits(|e.fields|, 32) + FieldsBits(e.fields) else [false]
  }

  function RepBits(e: RepExport): Bits
  {
    ToBits(e.pathIndex, 32) + RepTail(e)
  }

  function RepsBits(es: seq<RepExport>): Bits
  {
    if |es| == 0 then [] else RepBits(es[0]) + RepsBits(es[1..])
  }

  function RepListBits(es: seq<RepExport>): Bits
  {
    [true] + ToBits(|es|, 32) + RepsBits(es)
  }

  datatype StrRead = StrRead(value: Str, next: nat)

  /** The mirror of write_fstring: the declared length, less its NUL. */
  function ReadFString(s: Bits, p: nat): StrRead
  {
    var n := ReadN(s, p, 32);
    if n == 0 then StrRead([], p + 32) else StrRead(ReadBytes(s, p + 32, n - 1), p + 32 + 8 * n)
  }

  lemma FStringRoundTrip(s: Bits, p: nat, t: Str)
    requires NameFits(t) && At(s, p, FString(t))
    ensures ReadFString(s, p) == StrRead(t, p + |FString(t)|)
  {
    hide At, ReadN, FString, ReadBytes;
    if |t| == 0 { EmptyFStringAt(s, p, t); } else { FStringAt(s, p, t); }
  }

  datatype FieldRead = FieldRead(value: RepField, next: nat)
  datatype FieldsRead = FieldsRead(values: seq<RepField>, next: nat)
  datatype RepRead = RepRead(value: RepExport, next: nat)
  datatype RepsRead = RepsRead(values: seq<RepExport>, next: nat)

  function ReadField(s: Bits, p: nat): FieldRead
  {
    var handle, compat := ReadN(s, p, 32), ReadN(s, p + 32, 32);
    if !Peek(s, p + 64) then FieldRead(RepField(handle, compat, false, [], 0), p + 65)
    else
      var t := ReadFString(s, p + 65);
      FieldRead(RepField(handle, compat, true, t.value, Byte8(s, t.next)), t.next + 8)
  }

  function ReadFields(s: Bits, p: nat, n: nat): FieldsRead
    decreases n
  {
    if n == 0 then FieldsRead([], p)
    else
      var f := ReadField(s, p);
      var rest := ReadFields(s, f.next, n - 1);
      FieldsRead([f.value] + rest.values, rest.next)
  }

  function ReadRep(s: Bits, p: nat): RepRead
  {
    var index := ReadN(s, p, 32);
    if !Peek(s, p + 32) then RepRead(RepExport(index, false, [], []), p + 33)
    else
      var t := ReadFString(s, p + 33);
      var fs := ReadFields(s, t.next + 32, ReadN(s, t.next, 32));
      RepRead(RepExport(index, true, t.value, fs.values), fs.next)
  }

  function ReadReps(s: Bits, p: nat, n: nat): RepsRead
    decreases n
  {
    if n == 0 then RepsRead([], p)
    else
      var e := ReadRep(s, p);
      var rest := ReadReps(s, e.next, n - 1);
      RepsRead([e.value] + rest.values, rest.next)
  }

  /** What is on the wire of a field: an unexported one loses its name and type. */
  function WireField(f: RepField): RepField
  {
    if f.exported then f else RepField(f.handle, f.compat, false, [], 0)
  }

  function WireFields(fs: seq<RepField>): seq<RepField>
  {
    if |fs| == 0 then [] else [WireField(fs[0])] + WireFields(fs[1..])
  }

  function WireRep(e: RepExport): RepExport
  {
    if e.exported then RepExport(e.pathIndex, true, e.pathName, WireFields(e.fields))
    else RepExport(e.pathIndex, false, [], [])
  }

  function WireReps(es: seq<RepExport>): seq<RepExport>
  {
    if |es| == 0 then [] else [WireRep(es[0])] + WireReps(es[1..])
  }

  lemma Read32At(s: Bits, p: nat, v: nat)
    requires v < U32 && At(s, p, ToBits(v, 32))
    ensures ReadN(s, p, 32) == v
  {
    Pow2Of32();
    ReadNSmall(s, p, v, 32);
  }

  lemma FieldRoundTrip(s: Bits, p: nat, f: RepField)
    requires FieldFits(f) && At(s, p, FieldBits(f))
    ensures ReadField(s, p) == FieldRead(WireField(f), p + |FieldBits(f)|)
  {
    hide At, ToBits, ReadN, FString, ReadFString, Peek, Byte8;
    AtSplit3(s, p, ToBits(f.handle, 32), ToBits(f.compat, 32), FieldTail(f));
    Read32At(s, p, f.handle);
    Read32At(s, p + 32, f.compat);
    if f.exported {
      AtSplit3(s, p + 64, [true], FString(f.name), ToBits(f.kind, 8));
      FStringRoundTrip(s, p + 65, f.name);
      Byte8At(s, p + 65 + |FString(f.name)|, f.kind);
    }
    PeekAt(s, p + 64, f.exported);
  }

  lemma {:induction false} FieldsRoundTrip(s: Bits, p: nat, fs: seq<RepField>)
    requires FieldsFit(fs) && At(s, p, FieldsBits(fs))
    ensures ReadFields(s, p, |fs|) == FieldsRead(WireFields(fs), p + |FieldsBits(fs)|)
    decreases |fs|
  {
    hide At, FieldBits, ReadField, WireField, FieldFits;
    if |fs| > 0 {
      AtSplit(s, p, FieldBits(fs[0]), FieldsBits(fs[1..]));
      FieldRoundTrip(s, p, fs[0]);
      FieldsRoundTrip(s, p + |FieldBits(fs[0])|, fs[1..]);
    }
  }

  lemma {:induction false} FrontFields(fs: seq<RepField>, n: nat)
    requires n <= |fs| && FieldsFit(fs)
    ensures FieldsBits(fs) == FieldsBits(fs[..n]) + FieldsBits(fs[n..]) && FieldsFit(fs[..n])
    decreases n
  {
    hide FieldBits, FieldFits;
    if n == 0 {
      assert fs[0..] == fs && fs[..0] == [];
    } else {
      FrontFields(fs[1..], n - 1);
      assert fs[..n][0] == fs[0] && fs[..n][1..] == fs[1..][..n - 1] && fs[n..] == fs[1..][n - 1..];
      Assoc(FieldBits(fs[0]), FieldsBits(fs[..n][1..]), FieldsBits(fs[n..]));
    }
  }

  lemma {:induction false} WireFieldsLength(fs: seq<RepField>)
    ensures |WireFields(fs)| == |fs|
  {
    if |fs| > 0 { WireFieldsLength(fs[1..]); }
  }

  /** As many fields are read as the 32-bit count says: an export comes back, to its end,
      exactly when it carries fewer than 2^32 fields. */
  lemma RepRoundTrip(s: Bits, p: nat, e: RepExport)
    requires RepFits(e) && At(s, p, RepBits(e))
    ensures (e.exported ==> |e.fields| < U32) ==> ReadRep(s, p) == RepRead(WireRep(e), p + |RepBits(e)|)
    ensures e.exported && |e.fields| >= U32 ==> ReadRep(s, p).value != WireRep(e)
  {
    hide At, ToBits, ReadN, FString, ReadFString, Peek, ReadFields, FieldsBits, WireFields, FieldsFit, WireCount;
    AtSplit(s, p, ToBits(e.pathIndex, 32), RepTail(e));
    Read32At(s, p, e.pathIndex);
    if e.exported {
      var t := p + 33 + |FString(e.pathName)|;
      AtSplit4(s, p + 32, [true], FString(e.pathName), ToBits(|e.fields|, 32), FieldsBits(e.fields));
      FStringRoundTrip(s, p + 33, e.pathName);
      CountAt(s, t, |e.fields|);
      FieldsByCount(s, t + 32, e.fields, WireCount(|e.fields|));
    }
    PeekAt(s, p + 32, e.exported);
  }

  lemma FieldsByCount(s: Bits, p: nat, fs: seq<RepField>, n: nat)
    requires n <= |fs| && FieldsFit(fs) && At(s, p, FieldsBits(fs))
    ensures n == |fs| ==> ReadFields(s, p, n) == FieldsRead(WireFields(fs), p + |FieldsBits(fs)|)
    ensures n < |fs| ==> ReadFields(s, p, n).values != WireFields(fs)
  {
    hide *;
    FrontFields(fs, n);
    AtSplit(s, p, FieldsBits(fs[..n]), FieldsBits(fs[n..]));
    FieldsRoundTrip(s, p, fs[..n]);
    WireFieldsLength(fs);
    WireFieldsLength(fs[..n]);
    if n == |fs| { assert fs[..n] == fs; }
  }

  /** The exports come back, to the end of the last one, exactly when every count fits. */
  lemma {:induction false} RepsRoundTrip(s: Bits, p: nat, es: seq<RepExport>)
    requires RepsFit(es) && At(s, p, RepsBits(es))
    ensures CountsFit(es) ==> ReadReps(s, p, |es|) == RepsRead(WireReps(es), p + |RepsBits(es)|)
    ensures !CountsFit(es) ==> ReadReps(s, p, |es|).values != WireReps(es)
    decreases |es|
  {
    hide At, RepBits, ReadRep, WireRep, RepFits;
    if |es| > 0 {
      AtSplit(s, p, RepBits(es[0]), RepsBits(es[1..]));
      RepRoundTrip(s, p, es[0]);
      var first, q := ReadRep(s, p), p + |RepBits(es[0])|;
      var rest := ReadReps(s, first.next, |es| - 1);
      HeadsDiffer(first.value, rest.values, WireRep(es[0]), WireReps(es[1..]));
      if !es[0].exported || |es[0].fields| < U32 { RepsRoundTrip(s, q, es[1..]); }
    }
  }

  lemma HeadsDiffer(x: RepExport, xs: seq<RepExport>, y: RepExport, ys: seq<RepExport>)
    ensures [x] + xs == [y] + ys <==> x == y && xs == ys
  {
    assert ([x] + xs)[0] == x && ([x] + xs)[1..] == xs && ([y] + ys)[0] == y && ([y] + ys)[1..] == ys;
  }

  lemma {:induction false} FrontReps(es: seq<RepExport>, n: nat)
    requires n <= |es| && RepsFit(es)
    ensures RepsBits(es) == RepsBits(es[..n]) + RepsBits(es[n..]) && RepsFit(es[..n])
    decreases n
  {
    hide RepBits, RepFits;
    if n == 0 {
      assert es[0..] == es && es[..0] == [];
    } else {
      FrontReps(es[1..], n - 1);
      assert es[..n][0] == es[0] && es[..n][1..] == es[1..][..n - 1] && es[n..] == es[1..][n - 1..];
      Assoc(RepBits(es[0]), RepsBits(es[..n][1..]), RepsBits(es[n..]));
    }
  }

  lemma {:induction false} WireRepsLength(es: seq<RepExport>)
    ensures |WireReps(es)| == |es|
  {
    if |es| > 0 { WireRepsLength(es[1..]); }
  }

  lemma {:induction false} ReadRepsLength(s: Bits, p: nat, n: nat)
    ensures |ReadReps(s, p, n).values| == n
    decreases n
  {
    hide ReadRep;
    if n > 0 { ReadRepsLength(s, ReadRep(s, p).next, n - 1); }
  }

  /** The nested lists, of any length: as many exports are read as the 32-bit count says,
      and the whole list comes back as it is on the wire, with nothing left over, exactly
      when it and every field list that is written have fewer than 2^32 entries. */
  lemma RepListRoundTrip(s: Bits, p: nat, es: seq<RepExport>)
    requires RepsFit(es) && At(s, p, RepListBits(es))
    ensures Peek(s, p) && ReadN(s, p + 1, 32) == WireCount(|es|)
    ensures var front := es[..WireCount(|es|)];
            CountsFit(front) ==>
              ReadReps(s, p + 33, ReadN(s, p + 1, 32)) == RepsRead(WireReps(front), p + 33 + |RepsBits(front)|)
    ensures ReadReps(s, p + 33, ReadN(s, p + 1, 32)) == RepsRead(WireReps(es), p + |RepListBits(es)|)
            <==> |es| < 0x1_0000_0000 && CountsFit(es)
  {
    hide *;
    var n := WireCount(|es|);
    var front := es[..n];
    RepListParts(s, p, es);
    FrontReps(es, n);
    AtSplit(s, p + 33, RepsBits(front), RepsBits(es[n..]));
    RepsRoundTrip(s, p + 33, front);
    WireRepsLength(es);
    ReadRepsLength(s, p + 33, n);
    if n == |es| { assert front == es; }
  }

  lemma RepListParts(s: Bits, p: nat, es: seq<RepExport>)
    requires At(s, p, RepListBits(es))
    ensures Peek(s, p) && ReadN(s, p + 1, 32) == WireCount(|es|) && At(s, p + 33, RepsBits(es))
    ensures |RepListBits(es)| == 33 + |RepsBits(es)|
  {
    hide At, ToBits, ReadN, Peek, RepsBits, WireCount;
    AtSplit3(s, p, [true], ToBits(|es|, 32), RepsBits(es));
    PeekAt(s, p, true);
    CountAt(s, p + 1, |es|);
  }

  method WriteField(w: BitWriter, f: RepField)
    requires w.Valid()
    modifies w, w.data
    ensures w.Valid() && w.Contents == old(w.Contents) + FieldBits(f)
    ensures w.data == old(w.data) || fresh(w.data)
  {
    hide Holds, ToBits, FString;
    ghost var c := w.Contents;
    w.Write(f.handle, 32);
    w.Write(f.compat, 32);
    ghost var c1 := w.Contents;
    w.WriteBit(f.exported);
    if f.exported {
      w.WriteFString(f.name);
      w.Write(f.kind, 8);
      Assoc3(c1, [true], FString(f.name), ToBits(f.kind, 8));
    }
    assert w.Contents == c1 + FieldTail(f);
    Assoc3(c, ToBits(f.handle, 32), ToBits(f.compat, 32), FieldTail(f));
  }

  method WriteRep(w: BitWriter, e: RepExport)
    requires w.Valid()
    modifies w, w.data
    ensures w.Valid() && w.Contents == old(w.Contents) + RepBits(e)
    ensures w.data == old(w.data) || fresh(w.data)
  {
    hide Holds, ToBits, FString, FieldBits;
    w.Write(e.pathIndex, 32);
    ghost var c1 := w.Contents;
    w.WriteBit(e.exported);
    if e.exported {
      w.WriteFString(e.pathName);
      w.Write(|e.fields|, 32);
      ghost var c2 := w.Contents;
      for i := 0 to |e.fields|
        invariant w.Valid() && (w.data == old(w.data) || fresh(w.data))
        invariant w.Contents + FieldsBits(e.fields[i..]) == c2 + FieldsBits(e.fields)
      {
        ghost var c3 := w.Contents;
        WriteField(w, e.fields[i]);
        assert e.fields[i..][0] == e.fields[i] && e.fields[i..][1..] == e.fields[i + 1..];
        Assoc(c3, FieldBits(e.fields[i]), FieldsBits(e.fields[i + 1..]));
      }
      assert w.Contents + [] == w.Contents;
      Assoc4(c1, [true], FString(e.pathName), ToBits(|e.fields|, 32), FieldsBits(e.fields));
    }
    assert w.Contents == c1 + RepTail(e);
    Assoc(old(w.Contents), ToBits(e.pathIndex, 32), RepTail(e));
  }

  method WriteRepList(w: BitWriter, es: seq<RepExport>)
    requires w.Valid()
    modifies w, w.data
    ensures w.Valid() && w.Contents == old(w.Contents) + RepListBits(es)
    ensures w.data == old(w.data) || fresh(w.data)
  {
    hide Holds, ToBits, RepBits;
    w.WriteBit(true);
    w.Write(|es|, 32);
    ghost var c := w.Contents;
    for i := 0 to |es|
      invariant w.Valid() && (w.data == old(w.data) || fresh(w.data))
      invariant w.Contents + RepsBits(es[i..]) == c + RepsBits(es)
    {
      ghost var c1 := w.Contents;
      assert es[i..][0] == es[i] && es[i..][1..] == es[i + 1..];
      WriteRep(w, es[i]);
      Assoc(c1, RepBits(es[i]), RepsBits(es[i + 1..]));
    }
    assert w.Contents + [] == w.Contents;
    Assoc3(old(w.Contents), [true], ToBits(|es|, 32), RepsBits(es));
  }

  // ---- Must-be-mapped GUIDs -------------------------------------------------

  function SipsBits(gs: seq<nat>): Bits
  {
    if |gs| == 0 then [] else Sip(gs[0]) + SipsBits(gs[1..])
  }

  /** The count is cast to 16 bits; every GUID is written whatever the count says. */
  function MustMapBits(gs: seq<nat>): Bits
  {
    ToBits(|gs| % U16, 16) + SipsBits(gs)
  }

  datatype GuidsRead = GuidsRead(guids: seq<nat>, next: nat)

  function ReadGuids(s: Bits, p: nat, n: nat): GuidsRead
    decreases n
  {
    if n == 0 then GuidsRead([], p)
    else
      var g := ReadSip(s, p, |s|, 10);
      var rest := ReadGuids(s, g.next, n - 1);
      GuidsRead([g.value] + rest.guids, rest.next)
  }

  function ReadMustMap(s: Bits, p: nat): GuidsRead
  {
    ReadGuids(s, p + 16, ReadN(s, p, 16))
  }

  predicate GuidsFit(gs: seq<nat>) { forall i: nat :: i < |gs| ==> gs[i] < U64 }

  lemma {:induction false} GuidsRoundTrip(s: Bits, p: nat, gs: seq<nat>, n: nat)
    requires GuidsFit(gs) && n <= |gs| && At(s, p, SipsBits(gs))
    ensures ReadGuids(s, p, n).guids == gs[..n]
    ensures ReadGuids(s, p, n).next == p + |SipsBits(gs[..n])| <= p + |SipsBits(gs)|
    ensures n < |gs| ==> ReadGuids(s, p, n).next < p + |SipsBits(gs)|
    decreases n
  {
    hide At, Sip, ReadSip, SipBytes;
    if n > 0 {
      AtSplit(s, p, Sip(gs[0]), SipsBits(gs[1..]));
      AtBound(s, p, Sip(gs[0]));
      SipWidths(gs[0]);
      SipRoundTrip(s, p, gs[0], |s|, 10);
      GuidsRoundTrip(s, p + |Sip(gs[0])|, gs[1..], n - 1);
      assert gs[..n][0] == gs[0] && gs[..n][1..] == gs[1..][..n - 1];
    }
  }

  /** The list is read back whole, to its end, exactly when it has fewer than 65536
      entries; a longer list is cut to its length modulo 65536. */
  lemma MustMapRoundTrip(s: Bits, p: nat, gs: seq<nat>)
    requires GuidsFit(gs) && At(s, p, MustMapBits(gs))
    ensures ReadMustMap(s, p).guids == gs[..|gs| % U16]
    ensures ReadMustMap(s, p) == GuidsRead(gs, p + |MustMapBits(gs)|) <==> |gs| < U16
  {
    hide At, ToBits, ReadN, SipsBits, ReadGuids, GuidsFit;
    AtSplit(s, p, ToBits(|gs| % U16, 16), SipsBits(gs));
    Pow2Of16();
    ReadNSmall(s, p, |gs| % U16, 16);
    GuidsRoundTrip(s, p + 16, gs, |gs| % U16);
    if |gs| < U16 { assert gs[..|gs|] == gs; }
  }

  method WriteMustBeMapped(w: BitWriter, gs: seq<nat>)
    requires w.Valid()
    modifies w, w.data
    ensures w.Valid() && w.Contents == old(w.Contents) + MustMapBits(gs)
    ensures w.data == old(w.data) || fresh(w.data)
  {
    hide Holds, ToBits, Sip;
    w.Write(|gs| % U16, 16);
    ghost var c := w.Contents;
    for i := 0 to |gs|
      invariant w.Valid() && (w.data == old(w.data) || fresh(w.data))
      invariant w.Contents + SipsBits(gs[i..]) == c + SipsBits(gs)
    {
      ghost var c1 := w.Contents;
      w.WriteSip(gs[i]);
      assert gs[i..][0] == gs[i] && gs[i..][1..] == gs[i + 1..];
      Assoc(c1, Sip(gs[i]), SipsBits(gs[i + 1..]));
    }
    assert w.Contents + [] == w.Contents;
    Assoc(old(w.Contents), ToBits(|gs| % U16, 16), SipsBits(gs));
  }
}
