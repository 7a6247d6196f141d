/** tools/netguid_remap.py: replacing the SIP encodings of captured GUIDs in a bit
    stream, in place and at every bit offset. */
module NetGuidRemap {
  import opened Bits
  import opened Codec
  import opened BitWriters

  datatype Pair = Pair(captured: nat, ours: nat)
  datatype Replacement = Replacement(off: nat, captured: nat, ours: nat, bits: nat)

  /** A captured value stands at off, and ours is encoded in as many bits. */
  predicate Hit(s: Bits, off: nat, p: Pair)
  {
    At(s, off, Sip(p.captured)) && |Sip(p.captured)| == |Sip(p.ours)|
  }

  datatype Swept = Swept(stream: Bits, log: seq<Replacement>)

  function Entry(off: nat, p: Pair): Replacement
  {
    Replacement(off, p.captured, p.ours, |Sip(p.captured)|)
  }

  function Logged(r: Replacement, rest: Swept): Swept
  {
    Swept(rest.stream, [r] + rest.log)
  }

  /** What the scan makes of a stream from offset off and pair j on. */
  function Sweep(s: Bits, off: nat, j: nat, m: seq<Pair>): Swept
    decreases |s| - off, |m| - j
  {
    if off >= |s| then Swept(s, [])
    else if j >= |m| then Sweep(s, off + 1, 0, m)
    else if Hit(s, off, m[j]) then
      Logged(Entry(off, m[j]), Sweep(Overwrite(s, off, Sip(m[j].ours)), off, j + 1, m))
    else Sweep(s, off, j + 1, m)
  }

  // ---- What the scan guarantees ---------------------------------------------------------

  /** The log explains the result: each window held its captured encoding just before
      its write and holds ours just after, both of the logged width and in the mapping. */
  predicate Explains(s: Bits, log: seq<Replacement>, t: Bits, m: seq<Pair>)
    decreases |log|
  {
    if |log| == 0 then s == t
    else
      var r := log[0];
      && Pair(r.captured, r.ours) in m && r.bits == |Sip(r.captured)| == |Sip(r.ours)|
      && At(s, r.off, Sip(r.captured))
      && At(Overwrite(s, r.off, Sip(r.ours)), r.off, Sip(r.ours))
      && Explains(Overwrite(s, r.off, Sip(r.ours)), log[1..], t, m)
  }

  lemma OverwriteAt(s: Bits, off: nat, e: Bits)
    requires off + |e| <= |s|
    ensures At(Overwrite(s, off, e), off, e)
  {}

  lemma {:induction false} SweepExplained(s: Bits, off: nat, j: nat, m: seq<Pair>)
    ensures Explains(s, Sweep(s, off, j, m).log, Sweep(s, off, j, m).stream, m)
    decreases |s| - off, |m| - j
  {
    hide At, Sip, Overwrite;
    if off >= |s| {
    } else if j >= |m| {
      SweepExplained(s, off + 1, 0, m);
    } else if Hit(s, off, m[j]) {
      HitFits(s, off, m[j]);
      var t := Overwrite(s, off, Sip(m[j].ours));
      OverwriteAt(s, off, Sip(m[j].ours));
      SweepExplained(t, off, j + 1, m);
      LogHead(Entry(off, m[j]), Sweep(t, off, j + 1, m));
      assert m[j] == Pair(m[j].captured, m[j].ours);
    } else {
      SweepExplained(s, off, j + 1, m);
    }
  }

  lemma LogHead(r: Replacement, rest: Swept)
    ensures Logged(r, rest).log[0] == r && Logged(r, rest).log[1..] == rest.log
  {}

  lemma HitFits(s: Bits, off: nat, p: Pair)
    requires Hit(s, off, p)
    ensures off + |Sip(p.ours)| <= |s|
  {}

  predicate Inside(i: nat, r: Replacement) { r.off <= i < r.off + r.bits }

  /** An explained rewrite keeps the length and every bit outside its windows. */
  lemma {:induction false} OutsideWindows(s: Bits, log: seq<Replacement>, t: Bits, m: seq<Pair>, i: nat)
    requires Explains(s, log, t, m) && i < |s|
    ensures |t| == |s|
    ensures (forall k: nat :: k < |log| ==> !Inside(i, log[k])) ==> t[i] == s[i]
    decreases |log|
  {
    if |log| > 0 {
      var r := log[0];
      AtBound(s, r.off, Sip(r.captured));
      hide At, Sip;
      var u := Overwrite(s, r.off, Sip(r.ours));
      OutsideWindows(u, log[1..], t, m, i);
      if forall k: nat :: k < |log| ==> !Inside(i, log[k]) {
        assert !Inside(i, log[0]);
        forall k: nat | k < |log[1..]| ensures !Inside(i, log[1..][k]) { assert log[1..][k] == log[k + 1]; }
        OverwriteElsewhere(s, r.off, Sip(r.ours), i);
      }
    }
  }

  lemma OverwriteElsewhere(s: Bits, off: nat, e: Bits, i: nat)
    requires off + |e| <= |s| && i < |s| && !(off <= i < off + |e|)
    ensures Overwrite(s, off, e)[i] == s[i]
  {}

  /** The offsets of the log never go back. */
  lemma {:induction false} OffsetsAscend(s: Bits, off: nat, j: nat, m: seq<Pair>)
    ensures forall k: nat :: k < |Sweep(s, off, j, m).log| ==> off <= Sweep(s, off, j, m).log[k].off
    ensures forall k: nat :: k + 1 < |Sweep(s, off, j, m).log| ==>
      Sweep(s, off, j, m).log[k].off <= Sweep(s, off, j, m).log[k + 1].off
    decreases |s| - off, |m| - j
  {
    hide Hit, Sip, Overwrite;
    if off >= |s| {
    } else if j >= |m| {
      OffsetsAscend(s, off + 1, 0, m);
    } else if Hit(s, off, m[j]) {
      HitFits(s, off, m[j]);
      OffsetsAscend(Overwrite(s, off, Sip(m[j].ours)), off, j + 1, m);
    } else {
      OffsetsAscend(s, off, j + 1, m);
    }
  }

  /** No pair hits anywhere from (off, j) on. */
  predicate NoHitFrom(s: Bits, off: nat, j: nat, m: seq<Pair>)
  {
    && (forall k: nat :: j <= k < |m| ==> !Hit(s, off, m[k]))
    && (forall o: nat, k: nat :: off < o < |s| && k < |m| ==> !Hit(s, o, m[k]))
  }

  lemma {:induction false} NothingIffNoHit(s: Bits, off: nat, j: nat, m: seq<Pair>)
    requires off < |s|
    ensures Sweep(s, off, j, m).log == [] <==> NoHitFrom(s, off, j, m)
    ensures NoHitFrom(s, off, j, m) ==> Sweep(s, off, j, m).stream == s
    decreases |s| - off, |m| - j
  {
    hide Hit, Sip, Overwrite;
    if j >= |m| {
      if off + 1 < |s| {
        NothingIffNoHit(s, off + 1, 0, m);
        NextOffset(s, off, j, m);
      }
    } else if Hit(s, off, m[j]) {
      HitFits(s, off, m[j]);
    } else {
      NothingIffNoHit(s, off, j + 1, m);
    }
  }

  lemma NextOffset(s: Bits, off: nat, j: nat, m: seq<Pair>)
    requires j >= |m| && off + 1 < |s|
    ensures NoHitFrom(s, off, j, m) <==> NoHitFrom(s, off + 1, 0, m)
  {
    hide Hit;
  }

  /** The first hit of the stream as it stands, offset by offset and pair by pair, is the
      next entry of the log, and the scan goes on behind it in the rewritten stream. With
      NothingIffAbsent this fixes the whole scan. */
  lemma {:induction false} FirstHitLogged(s: Bits, off: nat, j: nat, m: seq<Pair>, o: nat, k: nat)
    requires off <= o < |s| && k < |m| && (o == off ==> j <= k)
    requires At(s, o, Sip(m[k].captured)) && |Sip(m[k].captured)| == |Sip(m[k].ours)|
    requires forall a: nat, i: nat :: off <= a <= o && i < |m| && (a == off ==> j <= i) && (a == o ==> i < k) ==>
               !(At(s, a, Sip(m[i].captured)) && |Sip(m[i].captured)| == |Sip(m[i].ours)|)
    ensures o + |Sip(m[k].ours)| <= |s|
    ensures var rest := Sweep(Overwrite(s, o, Sip(m[k].ours)), o, k + 1, m);
            && Sweep(s, off, j, m).stream == rest.stream
            && Sweep(s, off, j, m).log
               == [Replacement(o, m[k].captured, m[k].ours, |Sip(m[k].captured)|)] + rest.log
    decreases |s| - off, |m| - j
  {
    hide At, Sip, Overwrite;
    HitFits(s, o, m[k]);
    if j >= |m| {
      FirstHitLogged(s, off + 1, 0, m, o, k);
    } else if off < o || j < k {
      assert !Hit(s, off, m[j]);
      FirstHitLogged(s, off, j + 1, m, o, k);
    }
  }

  /** Nothing is replaced, and the stream comes back as it was, exactly when no captured
      value whose replacement is encoded in as many bits stands in it at any offset. */
  lemma NothingIffAbsent(s: Bits, m: seq<Pair>)
    ensures Sweep(s, 0, 0, m).log == [] <==>
              forall a: nat, i: nat :: a < |s| && i < |m| ==>
                !(At(s, a, Sip(m[i].captured)) && |Sip(m[i].captured)| == |Sip(m[i].ours)|)
    ensures Sweep(s, 0, 0, m).log == [] ==> Sweep(s, 0, 0, m).stream == s
  {
    hide At, Sip, Sweep;
    if |s| > 0 {
      NothingIffNoHit(s, 0, 0, m);
      if NoHitFrom(s, 0, 0, m) {
        forall a: nat, i: nat | a < |s| && i < |m|
          ensures !(At(s, a, Sip(m[i].captured)) && |Sip(m[i].captured)| == |Sip(m[i].ours)|)
        {
          assert !Hit(s, a, m[i]);
        }
      } else {
        var a, i := SomeHit(s, m);
        assert exists a: nat, i: nat :: a < |s| && i < |m| &&
                 At(s, a, Sip(m[i].captured)) && |Sip(m[i].captured)| == |Sip(m[i].ours)|;
      }
    } else {
      SweepEmpty(s, m);
    }
  }

  lemma SomeHit(s: Bits, m: seq<Pair>) returns (a: nat, i: nat)
    requires |s| > 0 && !NoHitFrom(s, 0, 0, m)
    ensures a < |s| && i < |m| && Hit(s, a, m[i])
  {
    hide Hit;
    if k: nat :| k < |m| && Hit(s, 0, m[k]) {
      a, i := 0, k;
    } else {
      a, i :| 0 < a < |s| && i < |m| && Hit(s, a, m[i]);
    }
  }

  lemma SweepEmpty(s: Bits, m: seq<Pair>)
    requires |s| == 0
    ensures Sweep(s, 0, 0, m) == Swept(s, [])
  {}

  // ---- The program ------------------------------------------------------------------------

  predicate StrBit(t: Str, i: nat)
    requires i < 8 * |t|
  {
    (t[i / 8] / Pow2(i % 8)) % 2 == 1
  }

  lemma {:induction false} CharsBit(t: Str, i: nat)
    requires i < 8 * |t|
    ensures Chars(t)[i] == StrBit(t, i)
    decreases |t|
  {
    var n := |t| - 1;
    assert Chars(t) == Chars(t[..n]) + ToBits(t[n], 8);
    if i < 8 * n {
      CharsBit(t[..n], i);
    } else {
      ToBitsAt(t[n], 8, i - 8 * n);
    }
  }

  /** encode_serialize_int_packed: the bytes of a SIP and their bit count. */
  method EncodeSip(value: nat) returns (bytes: Str, bits: nat)
    ensures Chars(bytes) == Sip(value) && bits == 8 * |bytes|
  {
    hide ToBits;
    bytes := [];
    var v, more := value, true;
    while more
      invariant Sip(value) == if more then Chars(bytes) + Sip(v) else Chars(bytes)
      decreases more, v
    {
      var chunk := v % 128;
      var next := v / 128;
      var byte := chunk * 2 + (if next > 0 then 1 else 0);
      SipByteIs(v);
      CharsSnoc(bytes, byte);
      if next > 0 { Assoc(Chars(bytes), ToBits(SipByte(v), 8), Sip(next)); }
      bytes := bytes + [byte];
      more, v := next > 0, next;
    }
    bits := |bytes| * 8;
  }

  lemma CharsSnoc(t: Str, c: Byte)
    ensures Chars(t + [c]) == Chars(t) + ToBits(c, 8)
  {
    assert (t + [c])[..|t|] == t;
  }

  /** write_bytes_into: overwrite a window of the buffer, bit by bit. */
  method WriteBytesInto(buf: array<bv8>, off: nat, src: Str, bits: nat)
    requires bits == 8 * |src| && off + bits <= 8 * buf.Length
    modifies buf
    ensures BytesToBits(buf[..]) == Overwrite(BytesToBits(old(buf[..])), off, Chars(src))
  {
    hide BytesToBits, Overwrite, Chars, StrBit;
    ghost var s, e := BytesToBits(buf[..]), Chars(src);
    OverwriteNone(s, off, e);
    for i := 0 to bits
      invariant BytesToBits(buf[..]) == Overwrite(s, off, e[..i])
    {
      CharsBit(src, i);
      OverwriteStep(s, off, e, i);
      SetStreamBit(buf, off + i, StrBit(src, i));
    }
    assert e[..bits] == e;
  }

  /** The comparison loop, which stops at the first bit that differs. */
  method Matches(buf: array<bv8>, off: nat, src: Str, bits: nat) returns (match_: bool)
    requires bits == 8 * |src| && off + bits <= 8 * buf.Length
    ensures match_ == At(BytesToBits(buf[..]), off, Chars(src))
  {
    hide StrBit, Chars;
    ghost var s, e := BytesToBits(buf[..]), Chars(src);
    match_ := true;
    var i := 0;
    while i < bits && match_
      invariant i <= bits && (match_ ==> forall k: nat :: k < i ==> s[off + k] == e[k])
      invariant !match_ ==> exists k: nat :: k < bits && s[off + k] != e[k]
    {
      CharsBit(src, i);
      var on := BufferBit(buf, off + i);
      if StrBit(src, i) != on {
        assert s[off + i] != e[i];
        match_ := false;
      }
      i := i + 1;
    }
    AtExactly(s, off, e);
  }

  method BufferBit(buf: array<bv8>, k: nat) returns (on: bool)
    requires k < 8 * buf.Length
    ensures on == BytesToBits(buf[..])[k]
  {
    on := ByteBit(buf[k / 8], k % 8);
  }

  lemma AtExactly(s: Bits, off: nat, e: Bits)
    requires off + |e| <= |s|
    ensures At(s, off, e) <==> forall k: nat :: k < |e| ==> s[off + k] == e[k]
  {
    if At(s, off, e) {
      assert forall k: nat :: k < |e| ==> s[off..off + |e|][k] == e[k];
    }
  }

  /** One pair at one offset: compare, and overwrite when it hits. */
  method TryPair(buf: array<bv8>, off: nat, p: Pair) returns (hit: bool)
    requires off < 8 * buf.Length
    modifies buf
    ensures hit == Hit(old(BytesToBits(buf[..])), off, p)
    ensures hit ==> off + |Sip(p.ours)| <= 8 * buf.Length
    ensures hit ==> BytesToBits(buf[..]) == Overwrite(old(BytesToBits(buf[..])), off, Sip(p.ours))
    ensures !hit ==> buf[..] == old(buf[..])
  {
    ghost var s := BytesToBits(buf[..]);
    assert |s| == 8 * buf.Length;
    var capBytes, capBits := EncodeSip(p.captured);
    var ourBytes, ourBits := EncodeSip(p.ours);
    assert |Chars(capBytes)| == capBits && |Chars(ourBytes)| == ourBits;
    hide BytesToBits, Sip, Chars, Overwrite;
    if off + capBits > 8 * buf.Length { return false; }
    var match_ := Matches(buf, off, capBytes, capBits);
    if match_ && capBits == ourBits {
      WriteBytesInto(buf, off, ourBytes, ourBits);
      return true;
    }
    hit := false;
  }

  /** remap_sip_in_stream, on a copy of the data. */
  method RemapSipInStream(data: seq<bv8>, m: seq<Pair>) returns (out: array<bv8>, log: seq<Replacement>)
    ensures fresh(out) && out.Length == |data|
    ensures Swept(BytesToBits(out[..]), log) == Sweep(BytesToBits(data), 0, 0, m)
  {
    hide Hit, Sip, Overwrite, BytesToBits;
    out := new bv8[|data|](i requires 0 <= i < |data| => data[i]);
    assert out[..] == data;
    log := [];
    ghost var s := BytesToBits(data);
    var off := 0;
    LogNone(Sweep(s, 0, 0, m));
    while off < 8 * |data|
      invariant out.Length == |data| && fresh(out) && |BytesToBits(out[..])| == 8 * |data|
      invariant Sweep(s, 0, 0, m) == LogAll(log, Sweep(BytesToBits(out[..]), off, 0, m))
    {
      var j := 0;
      while j < |m|
        invariant j <= |m| && fresh(out) && out.Length == |data| && |BytesToBits(out[..])| == 8 * |data|
        invariant Sweep(s, 0, 0, m) == LogAll(log, Sweep(BytesToBits(out[..]), off, j, m))
      {
        ghost var cur := BytesToBits(out[..]);
        var bits := SipBitCount(m[j].captured);
        SweepStep(cur, off, j, m);
        var hit := TryPair(out, off, m[j]);
        if hit {
          LogSnoc(log, Entry(off, m[j]), Sweep(BytesToBits(out[..]), off, j + 1, m));
          log := log + [Replacement(off, m[j].captured, m[j].ours, bits)];
        }
        j := j + 1;
      }
      SweepStep(BytesToBits(out[..]), off, j, m);
      off := off + 1;
    }
    LogEnd(log, BytesToBits(out[..]), off, m);
  }

  method SipBitCount(v: nat) returns (bits: nat)
    ensures bits == |Sip(v)|
  {
    var bytes, n := EncodeSip(v);
    assert |Chars(bytes)| == n;
    bits := n;
  }

  function LogAll(log: seq<Replacement>, rest: Swept): Swept
  {
    Swept(rest.stream, log + rest.log)
  }

  lemma LogNone(r: Swept)
    ensures LogAll([], r) == r
  {
    assert [] + r.log == r.log;
  }

  lemma LogSnoc(log: seq<Replacement>, r: Replacement, rest: Swept)
    ensures LogAll(log, Logged(r, rest)) == LogAll(log + [r], rest)
  {
    assert log + ([r] + rest.log) == (log + [r]) + rest.log;
  }

  lemma LogEnd(log: seq<Replacement>, s: Bits, off: nat, m: seq<Pair>)
    requires off >= |s|
    ensures LogAll(log, Sweep(s, off, 0, m)) == Swept(s, log)
  {
    assert log + [] == log;
  }

  lemma SweepStep(s: Bits, off: nat, j: nat, m: seq<Pair>)
    requires off < |s|
    ensures j >= |m| ==> Sweep(s, off, j, m) == Sweep(s, off + 1, 0, m)
    ensures j < |m| && !Hit(s, off, m[j]) ==> Sweep(s, off, j, m) == Sweep(s, off, j + 1, m)
    ensures j < |m| && Hit(s, off, m[j]) ==>
      off + |Sip(m[j].ours)| <= |s|
      && Sweep(s, off, j, m) == Logged(Entry(off, m[j]), Sweep(Overwrite(s, off, Sip(m[j].ours)), off, j + 1, m))
  {
    hide Sip, Overwrite;
  }
}
