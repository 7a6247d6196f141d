/** LiveWorld::tick_loop: the replication scheduler against an arbitrary clock that
    never goes back. */
module TickLoop {

  /** One tick: its deadline, the reading at which it fired, the reading of the
      heartbeat test, and the one from which the next deadline is decided. */
  datatype Tick = Tick(deadline: int, fired: int, beat: int, after: int)

  /** One interval later, or, when that is over five intervals ago, one from now. */
  function NextDeadline(t: Tick, interval: nat): int
  {
    var next := t.deadline + interval;
    if t.after > next + 5 * interval then t.after + interval else next
  }

  /** WorldClock::interval_us. */
  function IntervalUs(hz: nat): nat
  {
    if hz == 0 then 0 else 1_000_000 / hz
  }

  predicate Nondecreasing(clock: seq<int>)
  {
    forall i: nat, j: nat :: i <= j < |clock| ==> clock[i] <= clock[j]
  }

  /** The ticks of a run that started at `start`, in order. */
  predicate Schedule(start: int, interval: nat, ticks: seq<Tick>)
  {
    && (|ticks| > 0 ==> ticks[0].deadline == start + interval)
    && (forall k: nat :: k < |ticks| ==> ticks[k].deadline <= ticks[k].fired <= ticks[k].after)
    && (forall k: nat :: k + 1 < |ticks| ==>
          ticks[k].after <= ticks[k + 1].fired && ticks[k + 1].deadline == NextDeadline(ticks[k], interval))
  }

  // ---- The run as a function of its clock readings ---------------------------------------

  /** The ticks of the loop from reading `at` on, while the running flag is set for
      `live` more loads; a run is cut where the readings end. */
  function Ticks(clock: seq<int>, at: nat, live: nat, next: int, interval: nat): seq<Tick>
    decreases live
  {
    if live == 0 then [] else Wait(clock, at, live - 1, next, interval)
  }

  function Wait(clock: seq<int>, at: nat, live: nat, next: int, interval: nat): seq<Tick>
    decreases live
  {
    if live == 0 || at >= |clock| then []
    else if clock[at] < next then Wait(clock, at + 1, live - 1, next, interval)
    else if live == 1 || at + 3 > |clock| then []
    else
      var t := Tick(next, clock[at], clock[at + 1], clock[at + 2]);
      [t] + Ticks(clock, at + 3, live - 2, NextDeadline(t, interval), interval)
  }

  /** What follows the reading at - 1 that found a tick due. */
  function Fire(clock: seq<int>, at: nat, live: nat, next: int, interval: nat): seq<Tick>
    requires 0 < at <= |clock|
  {
    if live == 0 || at + 2 > |clock| then []
    else
      var t := Tick(next, clock[at - 1], clock[at], clock[at + 1]);
      [t] + Ticks(clock, at + 2, live - 1, NextDeadline(t, interval), interval)
  }

  /** The heartbeats: a tick's reading that is far enough from the previous one. */
  function Beats(ticks: seq<Tick>, first: int, gap: nat): seq<int>
    decreases |ticks|
  {
    if |ticks| == 0 then []
    else
      var before := Beats(ticks[..|ticks| - 1], first, gap);
      var t := ticks[|ticks| - 1];
      if t.beat - LastBeat(before, first) >= gap then before + [t.beat] else before
  }

  function LastBeat(beats: seq<int>, first: int): int
  {
    if |beats| == 0 then first else beats[|beats| - 1]
  }

  /** The ticks of a whole run: the first reading starts it, the second the heartbeat. */
  function LoopTicks(clock: seq<int>, liveLoads: nat, interval: nat): seq<Tick>
    requires |clock| >= 2
  {
    Ticks(clock, 2, liveLoads, clock[0] + interval, interval)
  }

  /** tick_loop on the clock readings it makes, in order, while the running flag is
      still set for liveLoads of its loads. */
  method Run(clock: seq<int>, liveLoads: nat, interval: nat, heartbeat: nat)
      returns (ticks: seq<Tick>, beats: seq<int>)
    requires |clock| >= 2
    ensures ticks == LoopTicks(clock, liveLoads, interval)
    ensures beats == Beats(ticks, clock[1], heartbeat)
  {
    var next := clock[0] + interval;
    var lastHeartbeat := clock[1];
    var at, live := 2, liveLoads;
    ticks, beats := [], [];
    ghost var all := Ticks(clock, at, live, next, interval);
    hide Ticks, Wait, Fire, Beats, LastBeat;
    EmptyFront(all);
    BeatsNone(clock[1], heartbeat);
    while live > 0
      invariant all == ticks + Ticks(clock, at, live, next, interval)
      invariant beats == Beats(ticks, clock[1], heartbeat) && lastHeartbeat == LastBeat(beats, clock[1])
      decreases live
    {
      TicksStep(clock, at, live, next, interval);
      live := live - 1;
      var due := false;
      while live > 0 && !due
        invariant due ==> 0 < at <= |clock|
        invariant all == ticks + (if due then Fire(clock, at, live, next, interval)
                                  else Wait(clock, at, live, next, interval))
        decreases live, !due
      {
        WaitStep(clock, at, live, next, interval);
        live := live - 1;
        if at >= |clock| { Nothing(ticks); return; }
        var now := clock[at];
        at := at + 1;
        if now >= next { due := true; }
      }
      if live == 0 || !due {
        WaitEnd(clock, at, next, interval);
        Nothing(ticks);
        return;
      }
      FireStep(clock, at, live, next, interval);
      live := live - 1;
      if at + 2 > |clock| { Nothing(ticks); return; }
      ghost var t0 := ticks;
      var fired, nowHb, now := clock[at - 1], clock[at], clock[at + 1];
      ticks := ticks + [Tick(next, fired, nowHb, now)];
      BeatsSnoc(t0, Tick(next, fired, nowHb, now), clock[1], heartbeat);
      if nowHb - lastHeartbeat >= heartbeat {
        beats := beats + [nowHb];
        lastHeartbeat := nowHb;
      }
      at := at + 2;
      next := next + interval;
      if now > next + interval * 5 { next := now + interval; }
      ConsAppend(t0, ticks[|t0|], Ticks(clock, at, live, next, interval));
    }
    TicksStep(clock, at, 0, next, interval);
    Nothing(ticks);
  }

  lemma EmptyFront(a: seq<Tick>)
    ensures [] + a == a
  {}

  lemma BeatsNone(first: int, gap: nat)
    ensures Beats([], first, gap) == [] && LastBeat([], first) == first
    ensures forall b: seq<int>, x: int :: LastBeat(b + [x], first) == x
  {}

  lemma TicksStep(clock: seq<int>, at: nat, live: nat, next: int, interval: nat)
    ensures Ticks(clock, at, live, next, interval)
         == if live == 0 then [] else Wait(clock, at, live - 1, next, interval)
  {}

  lemma WaitEnd(clock: seq<int>, at: nat, next: int, interval: nat)
    ensures Wait(clock, at, 0, next, interval) == []
    ensures 0 < at <= |clock| ==> Fire(clock, at, 0, next, interval) == []
  {}

  lemma WaitStep(clock: seq<int>, at: nat, live: nat, next: int, interval: nat)
    requires live > 0
    ensures Wait(clock, at, live, next, interval)
         == if at >= |clock| then []
            else if clock[at] < next then Wait(clock, at + 1, live - 1, next, interval)
            else Fire(clock, at + 1, live - 1, next, interval)
  {}

  lemma FireStep(clock: seq<int>, at: nat, live: nat, next: int, interval: nat)
    requires live > 0 && 0 < at <= |clock|
    ensures Fire(clock, at, live, next, interval)
         == if at + 2 > |clock| then []
            else var t := Tick(next, clock[at - 1], clock[at], clock[at + 1]);
                 [t] + Ticks(clock, at + 2, live - 1, NextDeadline(t, interval), interval)
  {}

  lemma Nothing(ticks: seq<Tick>)
    ensures ticks + [] == ticks
  {}

  lemma ConsAppend(a: seq<Tick>, t: Tick, b: seq<Tick>)
    ensures a + ([t] + b) == (a + [t]) + b
  {}

  lemma BeatsSnoc(ticks: seq<Tick>, t: Tick, first: int, gap: nat)
    ensures Beats(ticks + [t], first, gap)
         == (var b := Beats(ticks, first, gap); if t.beat - LastBeat(b, first) >= gap then b + [t.beat] else b)
  {
    assert (ticks + [t])[..|ticks|] == ticks;
  }

  // ---- What every run keeps -----------------------------------------------------------------

  /** Whatever the readings, as long as they never go back, the ticks form a schedule. */
  lemma {:induction false} TicksSchedule(clock: seq<int>, at: nat, live: nat, next: int, interval: nat)
    requires Nondecreasing(clock) && 0 < at <= |clock|
    ensures Schedule(next - interval, interval, Ticks(clock, at, live, next, interval))
    ensures var r := Ticks(clock, at, live, next, interval); |r| > 0 ==> clock[at - 1] <= r[0].fired
    decreases live, 1
  {
    if live > 0 { WaitSchedule(clock, at, live - 1, next, interval); }
  }

  lemma {:induction false} WaitSchedule(clock: seq<int>, at: nat, live: nat, next: int, interval: nat)
    requires Nondecreasing(clock) && 0 < at <= |clock|
    ensures Schedule(next - interval, interval, Wait(clock, at, live, next, interval))
    ensures var r := Wait(clock, at, live, next, interval); |r| > 0 ==> clock[at - 1] <= r[0].fired
    decreases live, 0
  {
    if live == 0 || at >= |clock| {
    } else if clock[at] < next {
      WaitSchedule(clock, at + 1, live - 1, next, interval);
    } else if live > 1 && at + 3 <= |clock| {
      var t := Tick(next, clock[at], clock[at + 1], clock[at + 2]);
      TicksSchedule(clock, at + 3, live - 2, NextDeadline(t, interval), interval);
      ScheduleCons(t, interval, Ticks(clock, at + 3, live - 2, NextDeadline(t, interval), interval));
    }
  }

  lemma ScheduleCons(t: Tick, interval: nat, rest: seq<Tick>)
    requires t.deadline <= t.fired <= t.after && Schedule(NextDeadline(t, interval) - interval, interval, rest)
    requires |rest| > 0 ==> t.after <= rest[0].fired
    ensures Schedule(t.deadline - interval, interval, [t] + rest)
  {
    hide NextDeadline;
    var r := [t] + rest;
    forall k: nat | k + 1 < |r|
      ensures r[k].after <= r[k + 1].fired && r[k + 1].deadline == NextDeadline(r[k], interval)
    {
      if k > 0 { assert r[k] == rest[k - 1] && r[k + 1] == rest[k - 1 + 1]; }
    }
  }

  /** The rule of the deadlines, on the ticks themselves: the first is one interval after
      the start, and each next one is an interval after the last, unless the tick ended
      more than six intervals behind its own deadline: then an interval from its end. */
  lemma {:induction false} DeadlineRule(clock: seq<int>, live: nat, interval: nat, k: nat)
    requires |clock| >= 2
    ensures var ts := LoopTicks(clock, live, interval);
            && (|ts| > 0 ==> ts[0].deadline == clock[0] + interval)
            && (k + 1 < |ts| ==>
                  ts[k + 1].deadline == if ts[k].after > ts[k].deadline + 6 * interval then ts[k].after + interval
                                        else ts[k].deadline + interval)
  {
    DeadlinesFollow(clock, 2, live, clock[0] + interval, interval, k);
  }

  lemma {:induction false} DeadlinesFollow(clock: seq<int>, at: nat, live: nat, next: int, interval: nat, k: nat)
    ensures var ts := Ticks(clock, at, live, next, interval);
            && (|ts| > 0 ==> ts[0].deadline == next)
            && (k + 1 < |ts| ==> ts[k + 1].deadline == NextDeadline(ts[k], interval))
    decreases live
  {
    var ts := Ticks(clock, at, live, next, interval);
    if |ts| > 0 {
      var i := FirstDue(clock, at, live, next, interval);
      DeadlinesFollow(clock, i + 3, live - 3 - (i - at), NextDeadline(ts[0], interval), interval,
                      if k > 0 then k - 1 else 0);
      if 0 < k && k + 1 < |ts| { assert ts[1..][k - 1] == ts[k] && ts[1..][k] == ts[k + 1]; }
    }
  }

  /** A tick fires at the first reading that has reached its deadline, takes the next two
      readings as its own, and the loop goes on behind them. */
  lemma FirstDue(clock: seq<int>, at: nat, live: nat, next: int, interval: nat) returns (i: nat)
    requires |Ticks(clock, at, live, next, interval)| > 0
    ensures at <= i && i + 2 < |clock| && live >= 3 + (i - at)
    ensures clock[i] >= next && forall j: nat :: at <= j < i ==> clock[j] < next
    ensures var ts := Ticks(clock, at, live, next, interval);
            && ts[0] == Tick(next, clock[i], clock[i + 1], clock[i + 2])
            && ts[1..] == Ticks(clock, i + 3, live - 3 - (i - at), NextDeadline(ts[0], interval), interval)
  {
    i := FirstDueWait(clock, at, live - 1, next, interval);
  }

  lemma {:induction false} FirstDueWait(clock: seq<int>, at: nat, live: nat, next: int, interval: nat) returns (i: nat)
    requires |Wait(clock, at, live, next, interval)| > 0
    ensures at <= i && i + 2 < |clock| && live >= 2 + (i - at)
    ensures clock[i] >= next && forall j: nat :: at <= j < i ==> clock[j] < next
    ensures var ts := Wait(clock, at, live, next, interval);
            && ts[0] == Tick(next, clock[i], clock[i + 1], clock[i + 2])
            && ts[1..] == Ticks(clock, i + 3, live - 2 - (i - at), NextDeadline(ts[0], interval), interval)
    decreases live
  {
    hide NextDeadline, Ticks;
    if clock[at] < next {
      i := FirstDueWait(clock, at + 1, live - 1, next, interval);
    } else {
      i := at;
    }
  }

  /** No heartbeat is missed: they are readings of the ticks, and once a tick is done the
      last one is less than a positive gap behind its reading. */
  lemma {:induction false} BeatsComplete(ticks: seq<Tick>, first: int, gap: nat, i: nat)
    ensures var b := Beats(ticks, first, gap); i < |b| ==> exists k: nat :: k < |ticks| && b[i] == ticks[k].beat
    ensures gap > 0 && |ticks| > 0 ==> ticks[|ticks| - 1].beat - LastBeat(Beats(ticks, first, gap), first) < gap
    ensures |ticks| > 0 ==> Beats(ticks[..|ticks| - 1], first, gap) <= Beats(ticks, first, gap)
    decreases |ticks|
  {
    if |ticks| > 0 {
      var front := ticks[..|ticks| - 1];
      BeatsComplete(front, first, gap, i);
      if i < |Beats(front, first, gap)| {
        var k: nat :| k < |front| && Beats(front, first, gap)[i] == front[k].beat;
        assert ticks[k].beat == front[k].beat;
      } else if i < |Beats(ticks, first, gap)| {
        assert Beats(ticks, first, gap)[i] == ticks[|ticks| - 1].beat;
      }
    }
  }

  /** Heartbeats are at least the gap apart, and after the first reading. */
  lemma {:induction false} BeatsSpaced(ticks: seq<Tick>, first: int, gap: nat)
    ensures var b := Beats(ticks, first, gap);
            (|b| > 0 ==> first + gap <= b[0]) && forall k: nat :: k + 1 < |b| ==> b[k] + gap <= b[k + 1]
    decreases |ticks|
  {
    if |ticks| > 0 { BeatsSpaced(ticks[..|ticks| - 1], first, gap); }
  }

  /** The k-th tick (from 1) never fires before start + k intervals. */
  lemma {:induction false} NeverEarly(start: int, interval: nat, ticks: seq<Tick>, k: nat)
    requires Schedule(start, interval, ticks) && k < |ticks|
    ensures start + (k + 1) * interval <= ticks[k].deadline <= ticks[k].fired
    decreases k
  {
    if k > 0 {
      NeverEarly(start, interval, ticks, k - 1);
      Successor(k, interval);
    }
  }

  lemma Successor(k: nat, interval: nat)
    ensures (k + 1) * interval == k * interval + interval
  {}

  /** After every iteration the deadline lags the last reading by at most five intervals. */
  lemma BoundedLag(start: int, interval: nat, ticks: seq<Tick>, k: nat)
    requires Schedule(start, interval, ticks) && k < |ticks|
    ensures ticks[k].after - NextDeadline(ticks[k], interval) <= 5 * interval
  {}

  /** Deadlines are at least an interval apart. */
  lemma {:induction false} DeadlinesApart(start: int, interval: nat, ticks: seq<Tick>, i: nat, j: nat)
    requires Schedule(start, interval, ticks) && i <= j < |ticks|
    ensures ticks[i].deadline + (j - i) * interval <= ticks[j].deadline
    decreases j
  {
    if i < j {
      DeadlinesApart(start, interval, ticks, i, j - 1);
      Successor(j - 1 - i, interval);
    }
  }

  /** Rate bound: the ticks i to j that fired within a window of length `length` number
      at most length / interval + 7. */
  lemma WindowBound(start: int, interval: nat, ticks: seq<Tick>, i: nat, j: nat, from: int, length: nat)
    requires interval > 0 && Schedule(start, interval, ticks) && i <= j < |ticks|
    requires from <= ticks[i].fired && ticks[j].fired <= from + length
    ensures j - i + 1 <= length / interval + 7
  {
    if j > i {
      BoundedLag(start, interval, ticks, i);
      DeadlinesApart(start, interval, ticks, i + 1, j);
      var n := j - i - 6;
      assert (j - (i + 1)) * interval == n * interval + 5 * interval;
      assert n * interval <= length;
      AtMostQuotient(n, interval, length);
    }
  }

  lemma AtMostQuotient(n: int, d: nat, length: nat)
    requires d > 0 && n * d <= length
    ensures n <= length / d
  {
    var q, r := length / d, length % d;
    assert length == q * d + r && r < d;
    if n >= q + 1 {
      ProductMonotone(q + 1, n, d);
      assert false;
    }
  }

  lemma ProductMonotone(a: int, b: int, d: nat)
    requires a <= b
    ensures a * d <= b * d
  {}

  // ---- The same for the ticks of the loop ------------------------------------------------------

  /** On every clock that never goes back, the ticks of the loop are never early and
      its deadline never lags by more than five intervals. */
  lemma LoopOnTime(clock: seq<int>, live: nat, interval: nat, k: nat)
    requires |clock| >= 2 && Nondecreasing(clock) && k < |LoopTicks(clock, live, interval)|
    ensures var t := LoopTicks(clock, live, interval)[k];
            && clock[0] + (k + 1) * interval <= t.fired
            && t.after - NextDeadline(t, interval) <= 5 * interval
  {
    hide Ticks, NextDeadline, Schedule;
    TicksSchedule(clock, 2, live, clock[0] + interval, interval);
    NeverEarly(clock[0], interval, LoopTicks(clock, live, interval), k);
    BoundedLag(clock[0], interval, LoopTicks(clock, live, interval), k);
  }

  /** Rate bound of the loop: with a positive interval, on every clock that never goes
      back, at most length / interval + 7 ticks fire within a window of that length. */
  lemma LoopRateBound(clock: seq<int>, live: nat, interval: nat, i: nat, j: nat, from: int, length: nat)
    requires |clock| >= 2 && Nondecreasing(clock) && interval > 0
    requires i <= j < |LoopTicks(clock, live, interval)|
    requires var ticks := LoopTicks(clock, live, interval); from <= ticks[i].fired && ticks[j].fired <= from + length
    ensures j - i + 1 <= length / interval + 7
  {
    hide Ticks, NextDeadline, Schedule;
    TicksSchedule(clock, 2, live, clock[0] + interval, interval);
    WindowBound(clock[0], interval, LoopTicks(clock, live, interval), i, j, from, length);
  }

  /** The reading at tick k of a loop that stalls for seven intervals and then runs on time. */
  function StallReading(k: nat, interval: nat): nat
  {
    (if k < 7 then 7 else k + 1) * interval
  }

  function StalledClock(n: nat, interval: nat): seq<int>
  {
    [0, 0] + seq(3 * n, i requires 0 <= i => StallReading(i / 3, interval))
  }

  lemma StallMonotone(i: nat, j: nat, interval: nat)
    requires i <= j
    ensures (i + 1) * interval <= StallReading(i, interval) <= StallReading(j, interval)
    ensures StallReading(i, interval) <= (i + 2) * interval + 5 * interval
  {
    var a, b := if i < 7 then 7 else i + 1, if j < 7 then 7 else j + 1;
    ProductMonotone(i + 1, a, interval);
    ProductMonotone(a, b, interval);
    ProductMonotone(a, i + 7, interval);
    assert (i + 7) * interval == (i + 2) * interval + 5 * interval;
  }

  lemma StalledNondecreasing(n: nat, interval: nat)
    ensures |StalledClock(n, interval)| == 2 + 3 * n && Nondecreasing(StalledClock(n, interval))
  {
    hide StallReading;
    var clock := StalledClock(n, interval);
    forall i: nat, j: nat | i <= j < |clock| ensures clock[i] <= clock[j] {
      if i >= 2 { StallMonotone((i - 2) / 3, (j - 2) / 3, interval); }
    }
  }

  /** On that clock every tick fires at its own reading, from tick k on. */
  lemma {:induction false} StalledTicks(n: nat, interval: nat, k: nat)
    requires k <= n
    ensures var r := Ticks(StalledClock(n, interval), 2 + 3 * k, 3 * (n - k), (k + 1) * interval, interval);
            |r| == n - k && forall i: nat :: i < n - k ==> r[i].fired == StallReading(k + i, interval)
    decreases n - k
  {
    hide StallReading;
    var clock := StalledClock(n, interval);
    if k < n {
      var at, next, c := 2 + 3 * k, (k + 1) * interval, StallReading(k, interval);
      assert clock[at] == c && clock[at + 1] == c && clock[at + 2] == c;
      StallMonotone(k, k, interval);
      Successor(k + 1, interval);
      var t := Tick(next, c, c, c);
      assert NextDeadline(t, interval) == (k + 2) * interval;
      StalledTicks(n, interval, k + 1);
      var rest := Ticks(clock, 2 + 3 * (k + 1), 3 * (n - (k + 1)), (k + 2) * interval, interval);
      var r := Ticks(clock, at, 3 * (n - k), next, interval);
      assert r == [t] + rest;
      forall i: nat | i < n - k ensures r[i].fired == StallReading(k + i, interval) {
        if i > 0 { assert r[i] == rest[i - 1] && rest[i - 1].fired == StallReading(k + 1 + (i - 1), interval); }
      }
    }
  }

  /** The bound is reached for every interval and every length: a clock on which
      length / interval + 7 ticks fire within the window. */
  lemma RateBoundReached(interval: nat, length: nat) returns (clock: seq<int>, live: nat, from: int)
    requires interval > 0
    ensures |clock| >= 2 && Nondecreasing(clock)
    ensures |LoopTicks(clock, live, interval)| == length / interval + 7
    ensures forall k: nat :: k < |LoopTicks(clock, live, interval)| ==>
      from <= LoopTicks(clock, live, interval)[k].fired <= from + length
  {
    hide Ticks, StallReading;
    var n := length / interval + 7;
    clock, live, from := StalledClock(n, interval), 3 * n, 7 * interval;
    StalledNondecreasing(n, interval);
    StalledTicks(n, interval, 0);
    forall k: nat | k < n ensures from <= StallReading(k, interval) <= from + length {
      ReadingInWindow(k, interval, length);
    }
  }

  lemma ReadingInWindow(k: nat, interval: nat, length: nat)
    requires interval > 0 && k < length / interval + 7
    ensures 7 * interval <= StallReading(k, interval) <= 7 * interval + length
  {
    var q := length / interval;
    var a := if k < 7 then 7 else k + 1;
    assert length == q * interval + length % interval;
    ProductMonotone(7, a, interval);
    ProductMonotone(a, q + 7, interval);
    assert (q + 7) * interval == q * interval + 7 * interval;
  }

  /** Without an interval there is no bound: any number of ticks can fire at one instant. */
  lemma NoBoundWithoutInterval(n: nat) returns (clock: seq<int>, live: nat)
    ensures |clock| >= 2 && Nondecreasing(clock)
    ensures |LoopTicks(clock, live, 0)| == n
    ensures forall k: nat :: k < n ==> LoopTicks(clock, live, 0)[k].fired == clock[0]
  {
    hide Ticks, StallReading;
    clock, live := StalledClock(n, 0), 3 * n;
    StalledNondecreasing(n, 0);
    StalledTicks(n, 0, 0);
    forall k: nat ensures StallReading(k, 0) == 0 { ZeroReading(k); }
  }

  lemma ZeroReading(k: nat)
    ensures StallReading(k, 0) == 0
  {}

  /** The interval is positive exactly for rates of 1 to 1000000 Hz; the rate bound
      needs that. */
  lemma IntervalPositive(hz: nat)
    ensures IntervalUs(hz) > 0 <==> 1 <= hz <= 1_000_000
    ensures hz > 0 ==> IntervalUs(hz) * hz <= 1_000_000 < (IntervalUs(hz) + 1) * hz
  {
    if hz > 0 {
      var q, r := 1_000_000 / hz, 1_000_000 % hz;
      assert 1_000_000 == q * hz + r;
    }
  }
}
