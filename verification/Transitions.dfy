/** The session protocol row by row: what each operation accepts, where it leads and what
    it leaves alone, and what a client's own events make of its session in every run. */
module Transitions {
  import opened Bits
  import A = Allocator
  import opened Sessions

  /** The table. For a packet whose session is there: which phases each operation accepts,
      the phase it leads to, and why it is refused otherwise. A refusal keeps the phase. */
  lemma TransitionTable(w: World, pkt: Packet, udp: bool)
    requires |pkt.key| > 0 && pkt.key in w.sessions
    ensures pkt.key in Step(w, Received(pkt), udp).sessions
    ensures var p := w.sessions[pkt.key].phase;
            OnPacket(w, pkt, udp).result.accepted <==>
              match pkt.op
              case HandshakeInitial => p in {AwaitingHandshake, HandshakeInProgress}
              case HandshakeResponse => p == HandshakeInProgress
              case NmtHello => p == NmtNegotiating
              case NmtLogin => p == NmtNegotiating && |pkt.name| > 0
              case NmtWelcome => p == Authenticated
              case NmtJoin => p == LoadingMap
              case NmtGameSpecific => p in {Authenticated, LoadingMap, Spawning, InWorld}
              case ActorMovement => p == InWorld
              case NmtAbort => true
              case ClientDisconnect => true
              case PassThrough => true
              case Unknown => false
    ensures var p, q := w.sessions[pkt.key].phase, Step(w, Received(pkt), udp).sessions[pkt.key].phase;
            q == if !OnPacket(w, pkt, udp).result.accepted then p
                 else match pkt.op
                 case HandshakeInitial => HandshakeInProgress
                 case HandshakeResponse => NmtNegotiating
                 case NmtLogin => Authenticated
                 case NmtWelcome => LoadingMap
                 case NmtJoin => Spawning
                 case NmtGameSpecific => InWorld
                 case NmtAbort => Disconnecting
                 case ClientDisconnect => Disconnecting
                 case _ => p
    ensures var p, q := w.sessions[pkt.key].phase, Step(w, Received(pkt), udp).sessions[pkt.key].phase;
            var r := OnPacket(w, pkt, udp).result;
            && r.oldPhase == p && r.newPhase == q && r.changed == (p != q)
            && r.error == (if r.accepted then NoError
                           else if pkt.op == Unknown then UnknownOp
                           else if pkt.op == NmtLogin && p == NmtNegotiating then EmptyName else WrongPhase)
  {
    hide A.BlockFor, Ran, A.Allocated, A.Released, A.Refused;
  }

  /** What an accepted login stores: the name, the online id and the block of the next
      slot, whose GUIDs lie two apart from the base; no other packet touches them. */
  lemma SessionFields(w: World, pkt: Packet, udp: bool)
    requires |pkt.key| > 0 && pkt.key in w.sessions
    ensures var x := Step(w, Received(pkt), udp).sessions;
            pkt.key in x && x[pkt.key].key == w.sessions[pkt.key].key
            && x[pkt.key].packetsReceived == w.sessions[pkt.key].packetsReceived + 1
    ensures var a, c := w.sessions[pkt.key], Step(w, Received(pkt), udp).sessions[pkt.key];
            if pkt.op == NmtLogin && OnPacket(w, pkt, udp).result.accepted
            then c.playerName == pkt.name && c.onlineId == pkt.onlineId && c.block == A.BlockFor(w.alloc.nextSlot)
                 && c.pc == c.block.playerController && c.pawn == c.block.pawn && c.playerState == c.block.playerState
            else SameLogin(c, a)
  {
    hide A.BlockFor, Ran, A.Allocated, A.Released, A.Refused;
  }

  /** What a login stores is the same in two sessions. */
  predicate SameLogin(c: Session, a: Session)
  {
    && c.playerName == a.playerName && c.onlineId == a.onlineId && c.block == a.block
    && c.pc == a.pc && c.pawn == a.pawn && c.playerState == a.playerState
  }

  /** The block of a slot in numbers. */
  lemma BlockFields(slot: nat)
    requires slot % A.SLOT_CYCLE < A.SLOT_LIMIT
    ensures var b := A.BlockFor(slot); var base := 0x0100_0000 + 256 * (slot % A.SLOT_CYCLE);
            && b.base == base && b.playerController == base && b.pawn == base + 2 && b.playerState == base + 4
            && b.ability == base + 6 && b.stats == base + 8 && b.alignment == base + 10 && b.combat == base + 12
            && b.characterInfo == base + 14 && b.interactInfo == base + 16
  {
    A.AboveBaseExactly(slot);
    A.BaseInCycle(slot);
    hide A.Base, A.Refused;
  }

  /** The counters: one more run of the operation's own handler, and one more refusal of
      its kind. */
  lemma CounterTable(w: World, pkt: Packet, udp: bool, op: Op)
    requires |pkt.key| > 0 && pkt.key in w.sessions
    ensures var x := Step(w, Received(pkt), udp);
            RanSoFar(x, op) == RanSoFar(w, op) + (if op == pkt.op && op !in {PassThrough, Unknown} then 1 else 0)
    ensures var x := Step(w, Received(pkt), udp); var r := OnPacket(w, pkt, udp).result;
            && x.stats.wrongPhase == w.stats.wrongPhase + (if r.accepted || pkt.op == Unknown then 0 else 1)
            && x.stats.unknownOp == w.stats.unknownOp + (if pkt.op == Unknown then 1 else 0)
            && x.stats.missingSession == w.stats.missingSession
  {
    hide Handle, Ran;
    var cs := w.sessions[pkt.key];
    var st := if Counted(pkt.op) then Ran(w.stats, pkt.op) else w.stats;
    HandlerCounters(cs.(packetsReceived := cs.packetsReceived + 1), w.alloc, st, pkt);
    RanOnce(w.stats, pkt.op, op);
  }

  lemma HandlerCounters(cs: Session, a: A.Alloc, st: Stats, pkt: Packet)
    ensures var h := Handle(cs, a, st, pkt);
            && h.stats.ran == st.ran && h.stats.missingSession == st.missingSession
            && h.stats.wrongPhase == st.wrongPhase + (if h.result.accepted || pkt.op == Unknown then 0 else 1)
            && h.stats.unknownOp == st.unknownOp + (if pkt.op == Unknown then 1 else 0)
  {
    hide A.BlockFor, A.Allocated, A.Released;
  }

  lemma RanOnce(st: Stats, ran: Op, op: Op)
    ensures var x := Ran(st, ran);
            && (if op in x.ran then x.ran[op] else 0)
               == (if op in st.ran then st.ran[op] else 0) + (if op == ran then 1 else 0)
            && x.wrongPhase == st.wrongPhase && x.missingSession == st.missingSession && x.unknownOp == st.unknownOp
  {}

  /** The block table: the next slot is used up by an accepted login, which stores its
      block unless refused, and a disconnect of a session that shows a valid block gives it
      back; nothing else touches it. */
  lemma BlockTable(w: World, pkt: Packet, udp: bool)
    requires |pkt.key| > 0 && pkt.key in w.sessions && w.sessions[pkt.key].key == pkt.key
    ensures var x := Step(w, Received(pkt), udp).alloc; var r := OnPacket(w, pkt, udp).result;
            if pkt.op == NmtLogin && r.accepted
            then x.nextSlot == (w.alloc.nextSlot + 1) % U64
                 && x.blocks == if w.alloc.nextSlot % A.SLOT_CYCLE == A.SLOT_LIMIT then w.alloc.blocks
                                else w.alloc.blocks[pkt.key := A.BlockFor(w.alloc.nextSlot)]
            else x.nextSlot == w.alloc.nextSlot
                 && x.blocks == if pkt.op == ClientDisconnect && w.sessions[pkt.key].block.base != 0
                                then w.alloc.blocks - {pkt.key} else w.alloc.blocks
  {
    hide A.BlockFor, A.Refused, Ran;
    A.AboveBaseExactly(w.alloc.nextSlot);
  }

  function RanSoFar(w: World, op: Op): nat
  {
    if op in w.stats.ran then w.stats.ran[op] else 0
  }

  /** Every step leaves all other sessions alone, and the blocks of all other clients. */
  lemma OthersUntouched(w: World, e: Event, udp: bool, k: A.Key)
    requires k != KeyOf(e)
    ensures var x := Step(w, e, udp);
            (k in x.sessions <==> k in w.sessions) && (k in w.sessions ==> x.sessions[k] == w.sessions[k])
    ensures KeyOf(e) in w.sessions ==> w.sessions[KeyOf(e)].key == KeyOf(e) ==>
      var x := Step(w, e, udp);
      && (k in x.alloc.blocks <==> k in w.alloc.blocks)
      && (k in w.alloc.blocks ==> x.alloc.blocks[k] == w.alloc.blocks[k])
  {
    hide A.BlockFor, Ran, A.Refused;
  }

  function KeyOf(e: Event): A.Key
  {
    match e
    case Connected(key) => key
    case Received(pkt) => pkt.key
    case Observed(key) => key
    case Disconnected(key) => key
  }

  /** A packet whose session is not there: an initial handshake creates it and leads to
      HandshakeInProgress; anything else, and any packet without a key, changes no session
      and no block and is refused. */
  lemma WithoutSession(w: World, pkt: Packet, udp: bool)
    requires |pkt.key| == 0 || pkt.key !in w.sessions
    ensures var x := Step(w, Received(pkt), udp); var r := OnPacket(w, pkt, udp).result;
            if |pkt.key| > 0 && pkt.op == HandshakeInitial
            then r.accepted && r.changed && r.oldPhase == AwaitingHandshake && r.newPhase == HandshakeInProgress
                 && x.sessions.Keys == w.sessions.Keys + {pkt.key} && x.alloc == w.alloc
                 && x.sessions[pkt.key].phase == HandshakeInProgress && x.sessions[pkt.key].packetsReceived == 1
                 && x.sessions[pkt.key].key == pkt.key && x.sessions[pkt.key].block.base == 0
                 && x.sessions[pkt.key].playerName == "" && x.sessions[pkt.key].onlineId == ""
            else !r.accepted && x.sessions == w.sessions && x.alloc == w.alloc
                 && r.error == (if |pkt.key| == 0 then EmptyKey else MissingSession)
  {}

  /** The other hooks: a connect finds or creates the session and takes it from the first
      phase to NmtNegotiating, from no other phase anywhere; an observed packet is counted;
      a disconnect removes the session. */
  lemma HookTable(w: World, k: A.Key, udp: bool)
    ensures var x := Step(w, Connected(k), udp);
            && x.sessions.Keys == w.sessions.Keys + {k} && x.alloc == w.alloc
            && x.sessions[k].phase == (if k !in w.sessions || w.sessions[k].phase == AwaitingHandshake
                                       then NmtNegotiating else w.sessions[k].phase)
            && (k !in w.sessions ==> x.sessions[k].packetsReceived == 0 && x.sessions[k].block.base == 0
                                     && x.sessions[k].playerName == "" && x.sessions[k].onlineId == "")
            && (k in w.sessions ==> x.sessions[k].packetsReceived == w.sessions[k].packetsReceived
                                    && SameLogin(x.sessions[k], w.sessions[k]))
    ensures var x := Step(w, Observed(k), udp);
            && x.sessions.Keys == w.sessions.Keys && x.alloc == w.alloc && x.packetsIn == w.packetsIn + 1
            && (k in w.sessions ==> x.sessions[k].packetsReceived == w.sessions[k].packetsReceived + 1
                                    && x.sessions[k].phase == w.sessions[k].phase
                                    && SameLogin(x.sessions[k], w.sessions[k]))
    ensures Step(w, Disconnected(k), udp).sessions.Keys == w.sessions.Keys - {k}
  {}

  // ---- Runs ------------------------------------------------------------------------------------

  /** The events of one client, in order. */
  function Own(es: seq<Event>, k: A.Key): seq<Event>
    decreases |es|
  {
    if |es| == 0 then []
    else Own(es[..|es| - 1], k) + (if KeyOf(es[|es| - 1]) == k then [es[|es| - 1]] else [])
  }

  /** Two worlds in which a client has the same session, but for its NetGUIDs. */
  predicate SameClient(a: World, b: World, k: A.Key)
  {
    && (k in a.sessions <==> k in b.sessions)
    && (k in a.sessions ==>
          var x, y := a.sessions[k], b.sessions[k];
          && x.phase == y.phase && x.playerName == y.playerName && x.onlineId == y.onlineId
          && x.packetsReceived == y.packetsReceived)
  }

  lemma OwnStep(a: World, b: World, e: Event, udp: bool, k: A.Key)
    requires SameClient(a, b, k)
    ensures KeyOf(e) == k ==> SameClient(Step(a, e, udp), Step(b, e, udp), k)
    ensures KeyOf(e) != k ==> SameClient(Step(a, e, udp), b, k)
  {
    hide Step, OnPacket;
    if KeyOf(e) != k {
      OthersUntouched(a, e, udp, k);
    } else if e.Received? && (|k| == 0 || k !in a.sessions) {
      WithoutSession(a, e.pkt, udp);
      WithoutSession(b, e.pkt, udp);
    } else if e.Received? {
      TransitionTable(a, e.pkt, udp); SessionFields(a, e.pkt, udp);
      TransitionTable(b, e.pkt, udp); SessionFields(b, e.pkt, udp);
    } else {
      HookTable(a, k, udp);
      HookTable(b, k, udp);
    }
  }

  /** Clients do not disturb each other: in every run, whether a client has a session, and
      its phase, name, online id and packet count, are what the client's own events alone
      would have made of them. */
  lemma {:induction false} ClientsIndependent(es: seq<Event>, udp: bool, k: A.Key)
    ensures SameClient(Run(es, udp), Run(Own(es, k), udp), k)
    decreases |es|
  {
    if |es| > 0 {
      hide Step, SameClient;
      var before, e := es[..|es| - 1], es[|es| - 1];
      ClientsIndependent(before, udp, k);
      OwnStep(Run(before, udp), Run(Own(before, k), udp), e, udp, k);
      if KeyOf(e) == k {
        assert Own(es, k) == Own(before, k) + [e];
        assert Own(es, k)[..|Own(es, k)| - 1] == Own(before, k);
      } else {
        assert Own(es, k) == Own(before, k);
      }
    } else {
      hide Step;
    }
  }

  /** The path of the game's own client: connect, hello, login, game-specific, movement.
      From any world without its session every packet is accepted and it ends in the world. */
  lemma ClientJoins(w: World, k: A.Key, name: string, id: string, udp: bool)
    requires |k| > 0 && |name| > 0 && k !in w.sessions
    ensures var hello, login := Packet(NmtHello, k, "", ""), Packet(NmtLogin, k, name, id);
            var ready, move := Packet(NmtGameSpecific, k, "", ""), Packet(ActorMovement, k, "", "");
            var w1 := Step(w, Connected(k), udp); var w2 := Step(w1, Received(hello), udp);
            var w3 := Step(w2, Received(login), udp); var w4 := Step(w3, Received(ready), udp);
            var w5 := Step(w4, Received(move), udp);
            && OnPacket(w1, hello, udp).result.accepted && OnPacket(w2, login, udp).result.accepted
            && OnPacket(w3, ready, udp).result.accepted && OnPacket(w4, move, udp).result.accepted
            && k in w5.sessions && w5.sessions[k].phase == InWorld
            && w5.sessions[k].playerName == name && w5.sessions[k].onlineId == id
            && w5.sessions[k].packetsReceived == 4 && w5.sessions[k].block == A.BlockFor(w.alloc.nextSlot)
  {
    hide Step, OnPacket, A.BlockFor;
    var hello, login := Packet(NmtHello, k, "", ""), Packet(NmtLogin, k, name, id);
    var ready, move := Packet(NmtGameSpecific, k, "", ""), Packet(ActorMovement, k, "", "");
    var w1 := Step(w, Connected(k), udp);
    var w2 := Step(w1, Received(hello), udp);
    var w3 := Step(w2, Received(login), udp);
    var w4 := Step(w3, Received(ready), udp);
    HookTable(w, k, udp);
    TransitionTable(w1, hello, udp); SessionFields(w1, hello, udp); SlotKept(w1, hello, udp);
    TransitionTable(w2, login, udp); SessionFields(w2, login, udp);
    TransitionTable(w3, ready, udp); SessionFields(w3, ready, udp);
    TransitionTable(w4, move, udp); SessionFields(w4, move, udp);
  }

  /** So in every run, whatever all other clients do before, between and after, a client
      whose own events are these ends in the world under its name. */
  lemma JoinsInAnyRun(es: seq<Event>, udp: bool, k: A.Key, name: string, id: string)
    requires |k| > 0 && |name| > 0
    requires Own(es, k) == [Connected(k), Received(Packet(NmtHello, k, "", "")),
                            Received(Packet(NmtLogin, k, name, id)),
                            Received(Packet(NmtGameSpecific, k, "", "")), Received(Packet(ActorMovement, k, "", ""))]
    ensures k in Run(es, udp).sessions
    ensures var c := Run(es, udp).sessions[k];
            c.phase == InWorld && c.playerName == name && c.onlineId == id && c.packetsReceived == 4
  {
    hide Step, OnPacket, Own, A.BlockFor, Run;
    var own := Own(es, k);
    ClientsIndependent(es, udp, k);
    ClientJoins(START, k, name, id, udp);
    FiveSteps(own[0], own[1], own[2], own[3], own[4], udp);
  }

  lemma FiveSteps(a: Event, b: Event, c: Event, d: Event, e: Event, udp: bool)
    ensures Run([a, b, c, d, e], udp)
         == Step(Step(Step(Step(Step(START, a, udp), b, udp), c, udp), d, udp), e, udp)
  {
    hide Step;
    assert Run([], udp) == START;
    RunSnoc([], a, udp);
    RunSnoc([a], b, udp);
    RunSnoc([a, b], c, udp);
    RunSnoc([a, b, c], d, udp);
    RunSnoc([a, b, c, d], e, udp);
    assert [] + [a] == [a] && [a] + [b] == [a, b] && [a, b] + [c] == [a, b, c];
    assert [a, b, c] + [d] == [a, b, c, d] && [a, b, c, d] + [e] == [a, b, c, d, e];
  }

  lemma RunSnoc(es: seq<Event>, e: Event, udp: bool)
    ensures Run(es + [e], udp) == Step(Run(es, udp), e, udp)
  {
    hide Step;
    assert (es + [e])[..|es|] == es;
  }

  lemma SlotKept(w: World, pkt: Packet, udp: bool)
    requires pkt.op != NmtLogin
    ensures Step(w, Received(pkt), udp).alloc.nextSlot == w.alloc.nextSlot
  {
    hide Ran;
  }

  /** The engine's own path, from the first handshake packet on, ends there too. */
  lemma EngineJoins(w: World, k: A.Key, name: string, id: string, udp: bool)
    requires |k| > 0 && |name| > 0 && k !in w.sessions
    ensures var w1 := Step(w, Received(Packet(HandshakeInitial, k, "", "")), udp);
            var w2 := Step(w1, Received(Packet(HandshakeResponse, k, "", "")), udp);
            var w3 := Step(w2, Received(Packet(NmtHello, k, "", "")), udp);
            var w4 := Step(w3, Received(Packet(NmtLogin, k, name, id)), udp);
            var w5 := Step(w4, Received(Packet(NmtWelcome, k, "", "")), udp);
            var w6 := Step(w5, Received(Packet(NmtJoin, k, "", "")), udp);
            var w7 := Step(w6, Received(Packet(NmtGameSpecific, k, "", "")), udp);
            && k in w7.sessions && w7.sessions[k].phase == InWorld && w7.rejects == w.rejects
            && w7.sessions[k].playerName == name && w7.sessions[k].packetsReceived == 7
  {
    hide Step, OnPacket, A.BlockFor;
    var first, second := Packet(HandshakeInitial, k, "", ""), Packet(HandshakeResponse, k, "", "");
    var hello, login := Packet(NmtHello, k, "", ""), Packet(NmtLogin, k, name, id);
    var welcome, join := Packet(NmtWelcome, k, "", ""), Packet(NmtJoin, k, "", "");
    var ready := Packet(NmtGameSpecific, k, "", "");
    var w1 := Step(w, Received(first), udp);
    WithoutSession(w, first, udp); Totals(w, first, udp);
    TransitionTable(w1, second, udp); SessionFields(w1, second, udp); Totals(w1, second, udp);
    var w2 := Step(w1, Received(second), udp);
    TransitionTable(w2, hello, udp); SessionFields(w2, hello, udp); Totals(w2, hello, udp);
    var w3 := Step(w2, Received(hello), udp);
    TransitionTable(w3, login, udp); SessionFields(w3, login, udp); Totals(w3, login, udp);
    var w4 := Step(w3, Received(login), udp);
    TransitionTable(w4, welcome, udp); SessionFields(w4, welcome, udp); Totals(w4, welcome, udp);
    var w5 := Step(w4, Received(welcome), udp);
    TransitionTable(w5, join, udp); SessionFields(w5, join, udp); Totals(w5, join, udp);
    var w6 := Step(w5, Received(join), udp);
    TransitionTable(w6, ready, udp); SessionFields(w6, ready, udp); Totals(w6, ready, udp);
  }

  lemma Totals(w: World, pkt: Packet, udp: bool)
    ensures var x := Step(w, Received(pkt), udp);
            && x.packetsIn == w.packetsIn + 1
            && x.rejects == w.rejects + (if OnPacket(w, pkt, udp).result.accepted then 0 else 1)
  {
    hide Dispatch;
    DispatchKeepsTotals(w.(packetsIn := w.packetsIn + 1), pkt);
  }
}
