/** The session protocol as a step machine on values: what each hook of LiveWorld does
    to the sessions, the allocator and the counters, and what every run keeps. */
module Sessions {
  import opened Bits
  import opened Allocator

  datatype Phase = AwaitingHandshake | HandshakeInProgress | NmtNegotiating | Authenticated
                 | LoadingMap | Spawning | InWorld | Disconnecting

  function Rank(p: Phase): nat
  {
    match p
    case AwaitingHandshake => 0
    case HandshakeInProgress => 1
    case NmtNegotiating => 2
    case Authenticated => 3
    case LoadingMap => 4
    case Spawning => 5
    case InWorld => 6
    case Disconnecting => 7
  }

  datatype Session = Session(key: Key, phase: Phase, playerName: string, onlineId: string, block: Block,
                             pc: nat, pawn: nat, playerState: nat, packetsReceived: nat)

  function NewSession(key: Key): Session
  {
    Session(key, AwaitingHandshake, "", "", NO_BLOCK, 0, 0, 0, 0)
  }

  /** DispatchOp: the last two stand for the operations that pass through without a
      phase change and for those the dispatcher does not know. */
  datatype Op = HandshakeInitial | HandshakeResponse | NmtHello | NmtLogin | NmtWelcome | NmtJoin | NmtAbort
              | NmtGameSpecific | ActorMovement | ClientDisconnect | PassThrough | Unknown

  datatype Packet = Packet(op: Op, key: Key, name: string, onlineId: string)

  datatype Error = NoError | EmptyKey | MissingSession | WrongPhase | EmptyName | UnknownOp

  datatype Result = Result(accepted: bool, error: Error, oldPhase: Phase, newPhase: Phase, changed: bool)

  /** How often each handler ran, and why packets were refused. */
  datatype Stats = Stats(ran: map<Op, nat>, wrongPhase: nat, missingSession: nat, unknownOp: nat)

  const NO_STATS: Stats := Stats(map[], 0, 0, 0)

  function Ran(st: Stats, op: Op): Stats
  {
    st.(ran := st.ran[op := (if op in st.ran then st.ran[op] else 0) + 1])
  }

  /** A call into the UDP emitter. */
  datatype Reply = Challenge(key: Key) | Welcome(key: Key)

  datatype World = World(sessions: map<Key, Session>, alloc: Alloc, stats: Stats,
                         packetsIn: nat, rejects: nat, replies: seq<Reply>)

  const START: World := World(map[], Alloc(0, map[]), NO_STATS, 0, 0, [])

  // ---- The dispatcher ------------------------------------------------------------------------

  /** What a handler makes of its session, the allocator and the counters. */
  datatype Handled = Handled(session: Session, alloc: Alloc, stats: Stats, result: Result)

  function Accept(cs: Session, before: Phase): Result
  {
    Result(true, NoError, before, cs.phase, before != cs.phase)
  }

  function Rejected(cs: Session, a: Alloc, st: Stats, error: Error): Handled
  {
    Handled(cs, a, st.(wrongPhase := st.wrongPhase + 1), Result(false, error, cs.phase, cs.phase, false))
  }

  function MovedTo(cs: Session, a: Alloc, st: Stats, phase: Phase): Handled
  {
    var cs' := cs.(phase := phase);
    Handled(cs', a, st, Accept(cs', cs.phase))
  }

  function LoggedIn(cs: Session, b: Block, pkt: Packet): Session
  {
    cs.(playerName := pkt.name, onlineId := pkt.onlineId, block := b, pc := b.playerController,
        pawn := b.pawn, playerState := b.playerState, phase := Authenticated)
  }

  function HandleLogin(cs: Session, a: Alloc, st: Stats, pkt: Packet): Handled
  {
    if cs.phase != NmtNegotiating then Rejected(cs, a, st, WrongPhase)
    else if |pkt.name| == 0 then Rejected(cs, a, st, EmptyName)
    else
      var cs' := LoggedIn(cs, BlockFor(a.nextSlot), pkt);
      Handled(cs', Allocated(a, cs.key), st, Accept(cs', cs.phase))
  }

  /** The handler of each operation, with its counter already advanced in st. */
  function Handle(cs: Session, a: Alloc, st: Stats, pkt: Packet): Handled
  {
    match pkt.op
    case HandshakeInitial =>
      if cs.phase == AwaitingHandshake || cs.phase == HandshakeInProgress then MovedTo(cs, a, st, HandshakeInProgress)
      else Rejected(cs, a, st, WrongPhase)
    case HandshakeResponse =>
      if cs.phase == HandshakeInProgress then MovedTo(cs, a, st, NmtNegotiating) else Rejected(cs, a, st, WrongPhase)
    case NmtHello =>
      if cs.phase == NmtNegotiating then MovedTo(cs, a, st, cs.phase) else Rejected(cs, a, st, WrongPhase)
    case NmtLogin => HandleLogin(cs, a, st, pkt)
    case NmtWelcome =>
      if cs.phase == Authenticated then MovedTo(cs, a, st, LoadingMap) else Rejected(cs, a, st, WrongPhase)
    case NmtJoin =>
      if cs.phase == LoadingMap then MovedTo(cs, a, st, Spawning) else Rejected(cs, a, st, WrongPhase)
    case NmtAbort => MovedTo(cs, a, st, Disconnecting)
    case NmtGameSpecific =>
      if cs.phase == Authenticated || cs.phase == LoadingMap || cs.phase == Spawning || cs.phase == InWorld
      then MovedTo(cs, a, st, InWorld) else Rejected(cs, a, st, WrongPhase)
    case ActorMovement =>
      if cs.phase == InWorld then MovedTo(cs, a, st, cs.phase) else Rejected(cs, a, st, WrongPhase)
    case ClientDisconnect =>
      MovedTo(cs, if IsValid(cs.block) then Released(a, cs.key) else a, st, Disconnecting)
    case PassThrough => MovedTo(cs, a, st, cs.phase)
    case Unknown =>
      Handled(cs, a, st.(unknownOp := st.unknownOp + 1), Result(false, UnknownOp, cs.phase, cs.phase, false))
  }

  /** The operations that have a counter of their own. */
  predicate Counted(op: Op) { op != PassThrough && op != Unknown }

  datatype Dispatched = Dispatched(world: World, result: Result)

  function Refusal(error: Error): Result
  {
    Result(false, error, AwaitingHandshake, AwaitingHandshake, false)
  }

  function GetOrCreate(w: World, key: Key): Session
  {
    if key in w.sessions then w.sessions[key] else NewSession(key)
  }

  function Dispatch(w: World, pkt: Packet): Dispatched
  {
    if |pkt.key| == 0 then Dispatched(w, Refusal(EmptyKey))
    else if pkt.op != HandshakeInitial && pkt.key !in w.sessions then
      Dispatched(w.(stats := w.stats.(missingSession := w.stats.missingSession + 1)), Refusal(MissingSession))
    else
      var cs := GetOrCreate(w, pkt.key);
      var h := Handle(cs.(packetsReceived := cs.packetsReceived + 1), w.alloc,
                      if Counted(pkt.op) then Ran(w.stats, pkt.op) else w.stats, pkt);
      Dispatched(w.(sessions := w.sessions[pkt.key := h.session], alloc := h.alloc, stats := h.stats), h.result)
  }

  // ---- The hooks of LiveWorld ----------------------------------------------------------------

  datatype Event = Connected(key: Key) | Received(pkt: Packet) | Observed(key: Key) | Disconnected(key: Key)

  /** maybe_send_nmt_reply, when a UDP emitter is installed. */
  function Replies(pkt: Packet, r: Result): seq<Reply>
  {
    if pkt.op == NmtHello then [Challenge(pkt.key)]
    else if pkt.op == NmtLogin && r.newPhase == Authenticated then [Welcome(pkt.key)]
    else []
  }

  function OnConnected(w: World, key: Key): World
  {
    var cs := GetOrCreate(w, key);
    w.(sessions := w.sessions[key := if cs.phase == AwaitingHandshake then cs.(phase := NmtNegotiating) else cs])
  }

  function OnDisconnected(w: World, key: Key): World
  {
    w.(sessions := w.sessions - {key},
       alloc := if key in w.sessions && IsValid(w.sessions[key].block) then Released(w.alloc, key) else w.alloc)
  }

  function OnPacket(w: World, pkt: Packet, udp: bool): Dispatched
  {
    var d := Dispatch(w.(packetsIn := w.packetsIn + 1), pkt);
    if !d.result.accepted then d.(world := d.world.(rejects := d.world.rejects + 1))
    else if udp then d.(world := d.world.(replies := d.world.replies + Replies(pkt, d.result)))
    else d
  }

  function OnObserved(w: World, key: Key): World
  {
    w.(packetsIn := w.packetsIn + 1,
       sessions := if key in w.sessions
                   then w.sessions[key := w.sessions[key].(packetsReceived := w.sessions[key].packetsReceived + 1)]
                   else w.sessions)
  }

  function Step(w: World, e: Event, udp: bool): World
  {
    match e
    case Connected(key) => OnConnected(w, key)
    case Received(pkt) => OnPacket(w, pkt, udp).world
    case Observed(key) => OnObserved(w, key)
    case Disconnected(key) => OnDisconnected(w, key)
  }

  function Run(es: seq<Event>, udp: bool): World
    decreases |es|
  {
    if |es| == 0 then START else Step(Run(es[..|es| - 1], udp), es[|es| - 1], udp)
  }

  // ---- The joint invariant ---------------------------------------------------------------------

  predicate LoggedInPhase(p: Phase) { 3 <= Rank(p) <= 6 }

  /** One session agrees with the block table. */
  predicate SessionOk(key: Key, cs: Session, blocks: map<Key, Block>)
  {
    && cs.key == key
    && (key in blocks ==> cs.block == blocks[key] && IsValid(cs.block))
    && (LoggedInPhase(cs.phase) ==> key in blocks && |cs.playerName| > 0)
    && (Rank(cs.phase) < 3 ==> key !in blocks && cs.block == NO_BLOCK)
    && cs.pc == cs.block.playerController && cs.pawn == cs.block.pawn && cs.playerState == cs.block.playerState
  }

  /** Every block belongs to a session that holds it, every logged-in session has one
      and a name, and no session before login has one. */
  predicate Inv(w: World)
  {
    && (forall k :: k in w.alloc.blocks ==> k in w.sessions)
    && (forall k :: k in w.sessions ==> SessionOk(k, w.sessions[k], w.alloc.blocks))
  }

  predicate IsLogin(w: World, e: Event)
  {
    && e.Received? && e.pkt.op == NmtLogin && |e.pkt.key| > 0 && e.pkt.key in w.sessions
    && w.sessions[e.pkt.key].phase == NmtNegotiating && |e.pkt.name| > 0
  }

  lemma HandleOk(cs: Session, a: Alloc, st: Stats, pkt: Packet)
    requires SessionOk(pkt.key, cs, a.blocks)
    requires pkt.op == NmtLogin && cs.phase == NmtNegotiating && |pkt.name| > 0 ==> IsValid(BlockFor(a.nextSlot))
    ensures var h := Handle(cs, a, st, pkt);
            && SessionOk(pkt.key, h.session, h.alloc.blocks)
            && (forall k :: k != pkt.key ==> (k in h.alloc.blocks <==> k in a.blocks))
            && (forall k :: k != pkt.key && k in a.blocks ==> h.alloc.blocks[k] == a.blocks[k])
  {
    hide Base, Ran;
    if pkt.op == NmtLogin { RefusedHasNoBlock(a.nextSlot); }
  }

  lemma RefusedHasNoBlock(slot: nat)
    ensures Refused(slot) ==> !IsValid(BlockFor(slot))
  {}

  lemma DispatchOk(w: World, pkt: Packet)
    requires Inv(w) && (IsLogin(w, Received(pkt)) ==> IsValid(BlockFor(w.alloc.nextSlot)))
    ensures Inv(Dispatch(w, pkt).world)
  {
    hide Handle, BlockFor, SessionOk, Ran;
    if |pkt.key| > 0 && (pkt.op == HandshakeInitial || pkt.key in w.sessions) {
      var cs := GetOrCreate(w, pkt.key);
      var cs1 := cs.(packetsReceived := cs.packetsReceived + 1);
      var st := if Counted(pkt.op) then Ran(w.stats, pkt.op) else w.stats;
      CountedOk(w, pkt.key, cs, cs1);
      HandleOk(cs1, w.alloc, st, pkt);
      ReplaceOk(w, Dispatch(w, pkt).world, pkt.key);
    }
  }

  lemma CountedOk(w: World, key: Key, cs: Session, cs1: Session)
    requires Inv(w) && cs == GetOrCreate(w, key) && cs1 == cs.(packetsReceived := cs1.packetsReceived)
    ensures SessionOk(key, cs1, w.alloc.blocks) && cs1.phase == cs.phase
  {}

  /** A step that touches one key only keeps the others. */
  lemma ReplaceOk(w: World, w': World, key: Key)
    requires Inv(w)
    requires key in w'.sessions && SessionOk(key, w'.sessions[key], w'.alloc.blocks)
    requires forall k :: k != key ==> (k in w'.sessions <==> k in w.sessions)
    requires forall k :: k != key && k in w.sessions ==> w'.sessions[k] == w.sessions[k]
    requires forall k :: k != key ==> (k in w'.alloc.blocks <==> k in w.alloc.blocks)
    requires forall k :: k != key && k in w.alloc.blocks ==> w'.alloc.blocks[k] == w.alloc.blocks[k]
    ensures Inv(w')
  {
    forall k | k in w'.sessions ensures SessionOk(k, w'.sessions[k], w'.alloc.blocks) {
      if k != key { assert SessionOk(k, w.sessions[k], w.alloc.blocks); }
    }
  }

  /** Every step keeps the invariant, as long as a login that is accepted finds a slot
      whose block is valid. */
  lemma StepKeepsInv(w: World, e: Event, udp: bool)
    requires Inv(w) && (IsLogin(w, e) ==> IsValid(BlockFor(w.alloc.nextSlot)))
    ensures Inv(Step(w, e, udp))
  {
    hide BlockFor;
    match e
    case Connected(key) =>
      ReplaceOk(w, OnConnected(w, key), key);
    case Received(pkt) =>
      DispatchOk(w.(packetsIn := w.packetsIn + 1), pkt);
      CountersOnly(w, pkt, udp);
    case Observed(key) =>
      if key in w.sessions {
        CountedOk(w, key, w.sessions[key], OnObserved(w, key).sessions[key]);
        ReplaceOk(w, OnObserved(w, key), key);
      }
    case Disconnected(key) =>
      DisconnectOk(w, key);
  }

  lemma CountersOnly(w: World, pkt: Packet, udp: bool)
    ensures var d := Dispatch(w.(packetsIn := w.packetsIn + 1), pkt).world; var x := OnPacket(w, pkt, udp).world;
            x.sessions == d.sessions && x.alloc == d.alloc
  {
    hide Dispatch;
  }

  lemma DisconnectOk(w: World, key: Key)
    requires Inv(w)
    ensures Inv(OnDisconnected(w, key))
  {
    var x := OnDisconnected(w, key);
    assert key in w.alloc.blocks ==> key in w.sessions && SessionOk(key, w.sessions[key], w.alloc.blocks);
    forall k | k in x.sessions ensures SessionOk(k, x.sessions[k], x.alloc.blocks) {
      assert SessionOk(k, w.sessions[k], w.alloc.blocks);
    }
  }

  /** How many logins a run has accepted. */
  function Logins(es: seq<Event>, udp: bool): nat
    decreases |es|
  {
    if |es| == 0 then 0
    else
      var before := es[..|es| - 1];
      Logins(before, udp) + (if IsLogin(Run(before, udp), es[|es| - 1]) then 1 else 0)
  }

  lemma StepSlots(w: World, e: Event, udp: bool)
    ensures Step(w, e, udp).alloc.nextSlot == if IsLogin(w, e) then (w.alloc.nextSlot + 1) % U64 else w.alloc.nextSlot
  {
    hide BlockFor, Refused, Ran;
  }

  /** Over every run the slots issued are exactly the logins accepted. */
  lemma {:induction false} SlotsAreLogins(es: seq<Event>, udp: bool)
    ensures Run(es, udp).alloc.nextSlot == Logins(es, udp) % U64
    decreases |es|
  {
    hide *;
    if |es| == 0 {
      NoLogins(es, udp);
    } else {
      LoginsStep(es, udp);
      var before, e := es[..|es| - 1], es[|es| - 1];
      SlotsAreLogins(before, udp);
      StepSlots(Run(before, udp), e, udp);
      NextInCycle(Logins(before, udp));
    }
  }

  lemma NoLogins(es: seq<Event>, udp: bool)
    ensures |es| == 0 ==> Logins(es, udp) == 0 && Run(es, udp).alloc.nextSlot == 0 % U64
  {}

  lemma LoginsStep(es: seq<Event>, udp: bool)
    requires |es| > 0
    ensures var before, e := es[..|es| - 1], es[|es| - 1]; var w := Run(before, udp);
            Run(es, udp) == Step(w, e, udp) && Logins(es, udp) == Logins(before, udp) + (if IsLogin(w, e) then 1 else 0)
  {
    hide Step, IsLogin;
  }

  lemma NextInCycle(n: nat)
    ensures (n % U64 + 1) % U64 == (n + 1) % U64
  {}

  /** Main law: every run that accepts at most SLOT_LIMIT logins keeps the joint invariant,
      in all its prefixes. */
  lemma {:induction false} RunKeepsInv(es: seq<Event>, udp: bool)
    requires Logins(es, udp) <= SLOT_LIMIT
    ensures Inv(Run(es, udp))
    decreases |es|
  {
    if |es| > 0 {
      hide Step, IsLogin, BlockFor, Inv;
      var before, e := es[..|es| - 1], es[|es| - 1];
      var w := Run(before, udp);
      RunKeepsInv(before, udp);
      if IsLogin(w, e) {
        SlotsAreLogins(before, udp);
        SmallSlot(Logins(before, udp));
        AboveBaseExactly(w.alloc.nextSlot);
      }
      StepKeepsInv(w, e, udp);
    } else {
      StartOk();
    }
  }

  lemma StartOk()
    ensures Inv(START)
  {}

  lemma SmallSlot(n: nat)
    requires n < SLOT_LIMIT
    ensures n % U64 == n && n % SLOT_CYCLE == n
  {}

  // ---- Where the invariant ends ------------------------------------------------------------------

  /** An accepted login keeps the invariant exactly when its slot's block is valid. */
  lemma LoginKeepsInvExactly(w: World, pkt: Packet, udp: bool)
    requires Inv(w) && IsLogin(w, Received(pkt))
    ensures Inv(Step(w, Received(pkt), udp))
            <==> (w.alloc.nextSlot % SLOT_CYCLE != SLOT_LIMIT && w.alloc.nextSlot % SLOT_CYCLE != SLOT_LIMIT + 1)
  {
    AboveBaseExactly(w.alloc.nextSlot);
    if IsValid(BlockFor(w.alloc.nextSlot)) {
      StepKeepsInv(w, Received(pkt), udp);
    } else {
      LoginWithoutBlock(w, pkt, udp);
    }
  }

  lemma LoginWithoutBlock(w: World, pkt: Packet, udp: bool)
    requires IsLogin(w, Received(pkt)) && !IsValid(BlockFor(w.alloc.nextSlot))
    ensures !Inv(Step(w, Received(pkt), udp))
  {
    hide BlockFor, Refused, Ran;
    var x := Step(w, Received(pkt), udp);
    assert x.sessions[pkt.key].block == BlockFor(w.alloc.nextSlot) && x.sessions[pkt.key].phase == Authenticated;
    assert !SessionOk(pkt.key, x.sessions[pkt.key], x.alloc.blocks);
  }

  /** A block outlives its session exactly at the slot, in each cycle, whose base wraps
      to zero: there a login and the disconnect after it leave the block behind, because
      it looks invalid; at every other slot, the refused one included, they do not. */
  lemma LeakExactly(w: World, pkt: Packet, udp: bool)
    requires Inv(w) && IsLogin(w, Received(pkt))
    ensures var x := Step(Step(w, Received(pkt), udp), Disconnected(pkt.key), udp);
            && pkt.key !in x.sessions
            && (pkt.key in x.alloc.blocks <==> w.alloc.nextSlot % SLOT_CYCLE == SLOT_LIMIT + 1)
            && (pkt.key in x.alloc.blocks ==> x.alloc.blocks[pkt.key] == BlockAt(0))
  {
    hide *;
    AboveBaseExactly(w.alloc.nextSlot);
    ZeroBlock(w.alloc.nextSlot);
    LoginOutcome(w, pkt, udp);
    DisconnectOutcome(Step(w, Received(pkt), udp), pkt.key, udp);
    BeforeLogin(w, pkt);
  }

  /** The block left behind lasts only until the key logs in again at a slot with a
      valid block: from any world, the disconnect after such a login releases it. */
  lemma LeakEnds(w: World, pkt: Packet, udp: bool)
    requires IsLogin(w, Received(pkt)) && IsValid(BlockFor(w.alloc.nextSlot))
    ensures pkt.key !in Step(Step(w, Received(pkt), udp), Disconnected(pkt.key), udp).alloc.blocks
  {
    hide *;
    LoginOutcome(w, pkt, udp);
    DisconnectOutcome(Step(w, Received(pkt), udp), pkt.key, udp);
  }

  lemma LoginOutcome(w: World, pkt: Packet, udp: bool)
    requires IsLogin(w, Received(pkt))
    ensures var y := Step(w, Received(pkt), udp); var slot := w.alloc.nextSlot;
            && pkt.key in y.sessions && y.sessions[pkt.key].block == BlockFor(slot)
            && (w.sessions[pkt.key].key == pkt.key ==>
                  (pkt.key in y.alloc.blocks <==> !Refused(slot) || pkt.key in w.alloc.blocks)
                  && (!Refused(slot) ==> y.alloc.blocks[pkt.key] == BlockFor(slot)))
  {
    hide BlockFor, Refused, Ran;
  }

  lemma ZeroBlock(slot: nat)
    ensures !Refused(slot) && !IsValid(BlockFor(slot)) ==> BlockFor(slot) == BlockAt(0)
  {}

  lemma DisconnectOutcome(y: World, key: Key, udp: bool)
    requires key in y.sessions
    ensures var x := Step(y, Disconnected(key), udp);
            && key !in x.sessions
            && (key in x.alloc.blocks <==> key in y.alloc.blocks && !IsValid(y.sessions[key].block))
            && (key in x.alloc.blocks ==> x.alloc.blocks[key] == y.alloc.blocks[key])
  {}

  lemma BeforeLogin(w: World, pkt: Packet)
    requires Inv(w) && IsLogin(w, Received(pkt))
    ensures pkt.key !in w.alloc.blocks && w.sessions[pkt.key].key == pkt.key
  {
    assert SessionOk(pkt.key, w.sessions[pkt.key], w.alloc.blocks);
  }

  /** The exact law over runs: the joint invariant holds in every prefix of a run if and
      only if the run accepts at most SLOT_LIMIT logins. */
  lemma RunInvExactly(es: seq<Event>, udp: bool)
    ensures (forall k: nat :: k <= |es| ==> Inv(Run(es[..k], udp))) <==> Logins(es, udp) <= SLOT_LIMIT
  {
    hide *;
    if Logins(es, udp) <= SLOT_LIMIT {
      forall k: nat | k <= |es| ensures Inv(Run(es[..k], udp)) {
        LoginsGrow(es, udp, k);
        RunKeepsInv(es[..k], udp);
      }
    } else {
      var k := FirstFailure(es, udp);
      assert !Inv(Run(es[..k], udp));
    }
  }

  lemma {:induction false} LoginsGrow(es: seq<Event>, udp: bool, k: nat)
    requires k <= |es|
    ensures Logins(es[..k], udp) <= Logins(es, udp)
    decreases |es|
  {
    hide *;
    if k < |es| {
      LoginsStep(es, udp);
      LoginsGrow(es[..|es| - 1], udp, k);
      assert es[..|es| - 1][..k] == es[..k];
    } else {
      assert es[..k] == es;
    }
  }

  /** A run with more logins breaks the invariant, at the latest with the first of them. */
  lemma {:induction false} FirstFailure(es: seq<Event>, udp: bool) returns (k: nat)
    requires Logins(es, udp) > SLOT_LIMIT
    ensures k <= |es| && !Inv(Run(es[..k], udp))
    decreases |es|
  {
    hide *;
    NoLogins(es, udp);
    LoginsStep(es, udp);
    var before, e := es[..|es| - 1], es[|es| - 1];
    var w := Run(before, udp);
    if Logins(before, udp) > SLOT_LIMIT {
      k := FirstFailure(before, udp);
      assert before[..k] == es[..k];
    } else if Inv(w) {
      k := |es|;
      assert es[..k] == es;
      SlotsAreLogins(before, udp);
      LimitSlot();
      IsReceived(w, e);
      LoginKeepsInvExactly(w, e.pkt, udp);
    } else {
      k := |es| - 1;
    }
  }

  lemma IsReceived(w: World, e: Event)
    ensures IsLogin(w, e) ==> e == Received(e.pkt)
  {}

  lemma LimitSlot()
    ensures SLOT_LIMIT % U64 == SLOT_LIMIT && SLOT_LIMIT % SLOT_CYCLE == SLOT_LIMIT
  {}

  // ---- Session lifetimes ---------------------------------------------------------------------------

  lemma HandleForward(cs: Session, a: Alloc, st: Stats, pkt: Packet)
    ensures var q := Handle(cs, a, st, pkt).session.phase;
            Rank(cs.phase) <= Rank(q) && (cs.phase == Disconnecting ==> q == Disconnecting)
  {
    hide BlockFor, Refused, Allocated;
  }

  lemma DispatchForward(w: World, pkt: Packet, key: Key)
    requires key in w.sessions
    ensures key in Dispatch(w, pkt).world.sessions
    ensures var p, q := w.sessions[key].phase, Dispatch(w, pkt).world.sessions[key].phase;
            Rank(p) <= Rank(q) && (p == Disconnecting ==> q == Disconnecting)
  {
    hide Handle, Ran, Rank;
    if |pkt.key| > 0 && (pkt.op == HandshakeInitial || pkt.key in w.sessions) {
      var cs := GetOrCreate(w, pkt.key);
      HandleForward(cs.(packetsReceived := cs.packetsReceived + 1), w.alloc,
                    if Counted(pkt.op) then Ran(w.stats, pkt.op) else w.stats, pkt);
    }
  }

  lemma DispatchKeepsTotals(w: World, pkt: Packet)
    ensures var x := Dispatch(w, pkt).world;
            x.packetsIn == w.packetsIn && x.rejects == w.rejects && x.replies == w.replies
  {
    hide Handle;
  }

  /** A step never moves a surviving session's phase back, and Disconnecting absorbs. */
  lemma PhaseForward(w: World, e: Event, udp: bool, key: Key)
    requires key in w.sessions && key in Step(w, e, udp).sessions
    ensures var p, q := w.sessions[key].phase, Step(w, e, udp).sessions[key].phase;
            Rank(p) <= Rank(q) && (p == Disconnecting ==> q == Disconnecting)
  {
    hide Dispatch;
    if e.Received? {
      DispatchForward(w.(packetsIn := w.packetsIn + 1), e.pkt, key);
      CountersOnly(w, e.pkt, udp);
    }
  }

  /** Over every run a session's phase never moves back, and Disconnecting absorbs,
      between any two points of the run at which, and between which, it is there. */
  lemma {:induction false} PhaseForwardInRun(es: seq<Event>, udp: bool, key: Key, i: nat, j: nat)
    requires i <= j <= |es|
    requires forall k: nat :: i <= k <= j ==> key in Run(es[..k], udp).sessions
    ensures var p, q := Run(es[..i], udp).sessions[key].phase, Run(es[..j], udp).sessions[key].phase;
            Rank(p) <= Rank(q) && (p == Disconnecting ==> q == Disconnecting)
    decreases j
  {
    if i < j {
      PhaseForwardInRun(es, udp, key, i, j - 1);
      RunStep(es[..j], udp);
      assert es[..j][..j - 1] == es[..j - 1];
      hide *;
      PhaseForward(Run(es[..j - 1], udp), es[j - 1], udp, key);
    }
  }

  lemma RunStep(es: seq<Event>, udp: bool)
    requires |es| > 0
    ensures Run(es, udp) == Step(Run(es[..|es| - 1], udp), es[|es| - 1], udp)
  {}

  /** A login moves its session from before Authenticated to Authenticated. */
  lemma LoginMoves(w: World, e: Event, udp: bool)
    requires IsLogin(w, e)
    ensures e.pkt.key in Step(w, e, udp).sessions && Step(w, e, udp).sessions[e.pkt.key].phase == Authenticated
  {
    hide BlockFor, Refused, Ran, Allocated;
  }

  /** The logins counted over runs are exactly the login packets that are accepted. */
  lemma AcceptedIffLogin(w: World, pkt: Packet, udp: bool)
    requires pkt.op == NmtLogin
    ensures OnPacket(w, pkt, udp).result.accepted <==> IsLogin(w, Received(pkt))
  {
    hide BlockFor, Refused, Ran, Allocated;
  }

  /** The logins accepted for a key since its present session was created. */
  function LifetimeLogins(es: seq<Event>, udp: bool, key: Key): nat
    decreases |es|
  {
    if |es| == 0 then 0
    else
      var before, e := es[..|es| - 1], es[|es| - 1];
      var w := Run(before, udp);
      if key !in w.sessions || key !in Step(w, e, udp).sessions then 0
      else LifetimeLogins(before, udp, key) + (if IsLogin(w, e) && e.pkt.key == key then 1 else 0)
  }

  /** In every run at most one login is accepted in the lifetime of a session, and none
      while it is still before Authenticated. */
  lemma {:induction false} OneLoginPerLifetime(es: seq<Event>, udp: bool, key: Key)
    ensures LifetimeLogins(es, udp, key) <= 1
    ensures key in Run(es, udp).sessions && Rank(Run(es, udp).sessions[key].phase) < 3 ==>
      LifetimeLogins(es, udp, key) == 0
    decreases |es|
  {
    if |es| > 0 {
      hide Step, IsLogin;
      var before, e := es[..|es| - 1], es[|es| - 1];
      var w := Run(before, udp);
      OneLoginPerLifetime(before, udp, key);
      if key in w.sessions && key in Step(w, e, udp).sessions {
        PhaseForward(w, e, udp, key);
        if IsLogin(w, e) && e.pkt.key == key {
          LoginMoves(w, e, udp);
          NegotiatingRank(w, e);
        }
      }
    }
  }

  lemma NegotiatingRank(w: World, e: Event)
    requires IsLogin(w, e)
    ensures e.pkt.key in w.sessions && Rank(w.sessions[e.pkt.key].phase) == 2
  {}

  // ---- Conservation ------------------------------------------------------------------------------------

  function Welcomes(rs: seq<Reply>): nat
  {
    if |rs| == 0 then 0 else Welcomes(rs[..|rs| - 1]) + (if rs[|rs| - 1].Welcome? then 1 else 0)
  }

  function Challenges(rs: seq<Reply>): nat
  {
    if |rs| == 0 then 0 else Challenges(rs[..|rs| - 1]) + (if rs[|rs| - 1].Challenge? then 1 else 0)
  }

  predicate IsHello(w: World, e: Event)
  {
    && e.Received? && e.pkt.op == NmtHello && |e.pkt.key| > 0 && e.pkt.key in w.sessions
    && w.sessions[e.pkt.key].phase == NmtNegotiating
  }

  function Hellos(es: seq<Event>, udp: bool): nat
    decreases |es|
  {
    if |es| == 0 then 0
    else
      var before := es[..|es| - 1];
      Hellos(before, udp) + (if IsHello(Run(before, udp), es[|es| - 1]) then 1 else 0)
  }

  lemma StepReplies(w: World, e: Event, udp: bool)
    ensures Step(w, e, udp).replies ==
      if !udp then w.replies
      else if IsLogin(w, e) then w.replies + [Welcome(e.pkt.key)]
      else if IsHello(w, e) then w.replies + [Challenge(e.pkt.key)]
      else w.replies
  {
    hide BlockFor, Refused, Ran, Allocated;
    assert w.replies + [] == w.replies;
  }

  lemma CountSnoc(rs: seq<Reply>, r: Reply)
    ensures Welcomes(rs + [r]) == Welcomes(rs) + (if r.Welcome? then 1 else 0)
    ensures Challenges(rs + [r]) == Challenges(rs) + (if r.Challenge? then 1 else 0)
  {
    assert (rs + [r])[..|rs|] == rs;
  }

  /** Over every run with a UDP emitter: one welcome for every accepted login, one
      challenge for every accepted hello, and no others; without one, no replies. */
  lemma {:induction false} RepliesMatch(es: seq<Event>, udp: bool)
    ensures udp ==> Welcomes(Run(es, udp).replies) == Logins(es, udp)
    ensures udp ==> Challenges(Run(es, udp).replies) == Hellos(es, udp)
    ensures udp ==> |Run(es, udp).replies| == Logins(es, udp) + Hellos(es, udp)
    ensures !udp ==> Run(es, udp).replies == []
    decreases |es|
  {
    if |es| > 0 {
      hide Step, IsLogin, IsHello;
      var before, e := es[..|es| - 1], es[|es| - 1];
      var w := Run(before, udp);
      RepliesMatch(before, udp);
      StepReplies(w, e, udp);
      NotBoth(w, e);
      if e.Received? {
        CountSnoc(w.replies, Welcome(e.pkt.key));
        CountSnoc(w.replies, Challenge(e.pkt.key));
      } else {
        NeitherUnlessReceived(w, e);
      }
    }
  }

  lemma NotBoth(w: World, e: Event)
    ensures !(IsLogin(w, e) && IsHello(w, e))
  {}

  lemma NeitherUnlessReceived(w: World, e: Event)
    ensures !e.Received? ==> !IsLogin(w, e) && !IsHello(w, e)
  {}

  /** Packets received, packets observed, and packets without a client key. */
  function CountReceived(es: seq<Event>): nat
    decreases |es|
  {
    if |es| == 0 then 0 else CountReceived(es[..|es| - 1]) + (if es[|es| - 1].Received? then 1 else 0)
  }

  function CountObserved(es: seq<Event>): nat
    decreases |es|
  {
    if |es| == 0 then 0 else CountObserved(es[..|es| - 1]) + (if es[|es| - 1].Observed? then 1 else 0)
  }

  predicate Keyless(e: Event) { e.Received? && |e.pkt.key| == 0 }

  function CountKeyless(es: seq<Event>): nat
    decreases |es|
  {
    if |es| == 0 then 0 else CountKeyless(es[..|es| - 1]) + (if Keyless(es[|es| - 1]) then 1 else 0)
  }

  function Refusals(st: Stats): nat { st.wrongPhase + st.missingSession + st.unknownOp }

  lemma HandleCounts(cs: Session, a: Alloc, st: Stats, pkt: Packet)
    ensures var h := Handle(cs, a, st, pkt);
            Refusals(h.stats) == Refusals(st) + (if h.result.accepted then 0 else 1)
  {
    hide BlockFor, Refused, Allocated;
  }

  lemma DispatchCounts(w: World, pkt: Packet)
    ensures var d := Dispatch(w, pkt);
            && Refusals(d.world.stats) == Refusals(w.stats) + (if d.result.accepted || |pkt.key| == 0 then 0 else 1)
            && d.world.packetsIn == w.packetsIn && d.world.rejects == w.rejects
            && (|pkt.key| == 0 ==> !d.result.accepted)
  {
    hide Handle;
    if |pkt.key| > 0 && (pkt.op == HandshakeInitial || pkt.key in w.sessions) {
      var cs := GetOrCreate(w, pkt.key);
      HandleCounts(cs.(packetsReceived := cs.packetsReceived + 1), w.alloc,
                   if Counted(pkt.op) then Ran(w.stats, pkt.op) else w.stats, pkt);
    }
  }

  lemma StepCounts(w: World, e: Event, udp: bool)
    ensures var x := Step(w, e, udp);
            && x.packetsIn == w.packetsIn + (if e.Received? || e.Observed? then 1 else 0)
            && x.rejects - Refusals(x.stats) == w.rejects - Refusals(w.stats) + (if Keyless(e) then 1 else 0)
  {
    hide Dispatch;
    if e.Received? { DispatchCounts(w.(packetsIn := w.packetsIn + 1), e.pkt); }
  }

  /** The counters balance over every run: every packet in was received or observed,
      and every reject has exactly one reason; only packets without a key have none in
      the dispatcher's own counters. */
  lemma {:induction false} CountersBalance(es: seq<Event>, udp: bool)
    ensures Run(es, udp).packetsIn == CountReceived(es) + CountObserved(es)
    ensures Run(es, udp).rejects == Refusals(Run(es, udp).stats) + CountKeyless(es)
    decreases |es|
  {
    if |es| > 0 {
      hide Step, Keyless, Refusals;
      CountersBalance(es[..|es| - 1], udp);
      StepCounts(Run(es[..|es| - 1], udp), es[|es| - 1], udp);
    }
  }
}
