/** ChannelSequenceManager: per-channel reliable sequence numbers, ten bits wide. */
module Sequences {

  const WRAP: nat := 1024

  /** A call a client of the manager can make. */
  datatype Call = NextFromBase(ch: nat) | Next(ch: nat)

  /** The numbers handed out so far, and the base. */
  datatype State = State(seqs: map<nat, nat>, base: nat)

  function Initial(base: nat): State { State(map[], base) }

  /** What one call hands out. */
  function Answer(s: State, c: Call): nat
  {
    if c.ch in s.seqs then (s.seqs[c.ch] + 1) % WRAP
    else if c.Next? then 1 else (s.base + 1) % WRAP
  }

  function After(s: State, c: Call): State
  {
    s.(seqs := s.seqs[c.ch := Answer(s, c)])
  }

  function Run(s: State, calls: seq<Call>): State
    decreases |calls|
  {
    if |calls| == 0 then s else After(Run(s, calls[..|calls| - 1]), calls[|calls| - 1])
  }

  /** How many calls were made on a channel. */
  function CallsOn(calls: seq<Call>, ch: nat): nat
    decreases |calls|
  {
    if |calls| == 0 then 0
    else CallsOn(calls[..|calls| - 1], ch) + (if calls[|calls| - 1].ch == ch then 1 else 0)
  }

  /** The number a channel's first call starts counting from. */
  function Start(calls: seq<Call>, ch: nat, base: nat): nat
    decreases |calls|
  {
    if |calls| == 0 then base
    else if CallsOn(calls[..|calls| - 1], ch) > 0 then Start(calls[..|calls| - 1], ch, base)
    else if calls[|calls| - 1] == Next(ch) then 0 else base
  }

  /** Whether the first call on a channel is a next_seq, which ignores the base; what
      later calls on the channel are does not matter, nor what other channels do. */
  predicate FirstIsNext(calls: seq<Call>, ch: nat)
  {
    exists i: nat :: i < |calls| && calls[i] == Next(ch) && forall j: nat :: j < i ==> calls[j].ch != ch
  }

  /** On every interleaving of calls, of either kind and on any channels, what a
      channel holds is its start plus its own number of calls, modulo 1024. */
  lemma {:induction false} HeldAfter(base: nat, calls: seq<Call>, ch: nat)
    ensures ch in Run(Initial(base), calls).seqs <==> CallsOn(calls, ch) > 0
    ensures CallsOn(calls, ch) > 0 ==>
      Run(Initial(base), calls).seqs[ch] == (Start(calls, ch, base) + CallsOn(calls, ch)) % WRAP
    ensures Run(Initial(base), calls).base == base
    decreases |calls|
  {
    if |calls| > 0 {
      HeldAfter(base, calls[..|calls| - 1], ch);
      NextModulo(Start(calls, ch, base) + CallsOn(calls[..|calls| - 1], ch));
    }
  }

  lemma StillFirst(calls: seq<Call>, ch: nat, i: nat, n: nat)
    requires i < n <= |calls| && calls[i] == Next(ch) && forall j: nat :: j < i ==> calls[j].ch != ch
    ensures FirstIsNext(calls[..n], ch)
  {
    assert calls[..n][i] == Next(ch);
  }

  lemma {:induction false} StartIs(base: nat, calls: seq<Call>, ch: nat)
    ensures CallsOn(calls, ch) == 0 <==> forall j: nat :: j < |calls| ==> calls[j].ch != ch
    ensures Start(calls, ch, base) == if FirstIsNext(calls, ch) then 0 else base
    decreases |calls|
  {
    if |calls| > 0 {
      var n := |calls| - 1;
      var before := calls[..n];
      StartIs(base, before, ch);
      if FirstIsNext(before, ch) {
        var i: nat :| i < n && before[i] == Next(ch) && forall j: nat :: j < i ==> before[j].ch != ch;
        assert calls[i] == Next(ch) && forall j: nat :: j < i ==> calls[j].ch != ch;
      } else if FirstIsNext(calls, ch) {
        var i: nat :| i < |calls| && calls[i] == Next(ch) && forall j: nat :: j < i ==> calls[j].ch != ch;
        if i < n {
          StillFirst(calls, ch, i, n);
          assert false;
        }
      }
      if CallsOn(before, ch) == 0 && calls[n] == Next(ch) {
        assert forall j: nat :: j < n ==> calls[j] == before[j];
      }
    }
  }

  lemma AnswerIs(base: nat, calls: seq<Call>, ch: nat)
    ensures Answer(Run(Initial(base), calls), NextFromBase(ch))
         == (Start(calls, ch, base) + CallsOn(calls, ch) + 1) % WRAP
    ensures Start(calls, ch, base) == if FirstIsNext(calls, ch) then 0 else base
  {
    hide Run, CallsOn, Start, FirstIsNext;
    HeldAfter(base, calls, ch);
    StartIs(base, calls, ch);
    NextModulo(Start(calls, ch, base) + CallsOn(calls, ch));
    NoCallNoNext(base, calls, ch);
  }

  /** After init_base(base), whatever was called on other channels meanwhile, the n-th
      call on a channel answers (base + n) modulo 1024, if and only if the channel's
      first call was not a next_seq or the base is a multiple of 1024. */
  lemma NthAnswer(base: nat, calls: seq<Call>, ch: nat)
    ensures Answer(Run(Initial(base), calls), NextFromBase(ch)) == (base + CallsOn(calls, ch) + 1) % WRAP
            <==> (!FirstIsNext(calls, ch) || base % WRAP == 0)
  {
    hide *;
    var n := CallsOn(calls, ch);
    AnswerIs(base, calls, ch);
    SameModulo(n + 1, base + n + 1);
    SameModulo(0, base);
  }

  lemma NoCallNoNext(base: nat, calls: seq<Call>, ch: nat)
    ensures FirstIsNext(calls, ch) ==> CallsOn(calls, ch) > 0
  {
    StartIs(base, calls, ch);
  }

  lemma NextModulo(a: nat)
    ensures (a % WRAP + 1) % WRAP == (a + 1) % WRAP
  {}

  /** So a channel's numbers repeat, in any two runs in which it starts the same way,
      exactly when a multiple of 1024 of its own calls lies between them: no two of 1024
      consecutive ones are equal. */
  lemma RepeatsExactly(base: nat, before: seq<Call>, after: seq<Call>, ch: nat)
    requires FirstIsNext(before, ch) == FirstIsNext(after, ch)
    ensures Answer(Run(Initial(base), before), NextFromBase(ch)) == Answer(Run(Initial(base), after), NextFromBase(ch))
            <==> (CallsOn(after, ch) - CallsOn(before, ch)) % WRAP == 0
  {
    hide *;
    AnswerIs(base, before, ch);
    AnswerIs(base, after, ch);
    var start := Start(before, ch, base);
    SameModulo(start + CallsOn(before, ch) + 1, start + CallsOn(after, ch) + 1);
  }

  lemma SameModulo(a: int, b: int)
    ensures a % WRAP == b % WRAP <==> (b - a) % WRAP == 0
  {
    var k := (b - a) / WRAP;
    var q := a / WRAP;
    assert b - a == WRAP * k + (b - a) % WRAP;
    assert a == WRAP * q + a % WRAP;
    if (b - a) % WRAP == 0 {
      assert b == WRAP * (q + k) + a % WRAP;
    }
  }

  class ChannelSequenceManager {
    var seqs: map<nat, nat>
    var base: nat

    constructor ()
      ensures Abs() == Initial(0)
    {
      seqs := map[];
      base := 0;
    }

    function Abs(): State
      reads this
    {
      State(seqs, base)
    }

    method NextSeq(ch: nat) returns (r: nat)
      modifies this
      ensures Abs() == After(old(Abs()), Next(ch)) && r == Answer(old(Abs()), Next(ch))
    {
      if ch !in seqs {
        seqs := seqs[ch := 1];
        return 1;
      }
      seqs := seqs[ch := (seqs[ch] + 1) % 0x400];
      r := seqs[ch];
    }

    method InitBase(base: nat)
      modifies this
      ensures Abs() == Initial(base)
    {
      this.base := base;
      seqs := map[];
    }

    method NextSeqFromBase(ch: nat) returns (r: nat)
      modifies this
      ensures Abs() == After(old(Abs()), NextFromBase(ch)) && r == Answer(old(Abs()), NextFromBase(ch))
    {
      if ch !in seqs {
        var first := (base + 1) % 0x400;
        seqs := seqs[ch := first];
        return first;
      }
      seqs := seqs[ch := (seqs[ch] + 1) % 0x400];
      r := seqs[ch];
    }
  }
}
