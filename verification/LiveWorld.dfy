/** The objects behind the step machine: sessions in a registry, the dispatcher with its
    handlers, and the hooks of LiveWorld, each shown to do exactly one step. */
module LiveWorlds {
  import opened Allocator
  import S = Sessions

  class ClientSession {
    const clientKey: Key
    var phase: S.Phase
    var playerName: string
    var onlineId: string
    var block: Block
    var pc: nat
    var pawn: nat
    var playerState: nat
    var packetsReceived: nat

    constructor (key: Key)
      ensures View() == S.NewSession(key)
    {
      clientKey, phase, playerName, onlineId := key, S.AwaitingHandshake, "", "";
      block, pc, pawn, playerState, packetsReceived := NO_BLOCK, 0, 0, 0, 0;
    }

    function View(): S.Session
      reads this
    {
      S.Session(clientKey, phase, playerName, onlineId, block, pc, pawn, playerState, packetsReceived)
    }

    method TransitionTo(next: S.Phase)
      modifies this
      ensures View() == old(View()).(phase := next)
    {
      phase := next;
    }
  }

  function Counted(cs: S.Session): S.Session
  {
    cs.(packetsReceived := cs.packetsReceived + 1)
  }

  class SessionRegistry {
    var sessions: map<Key, ClientSession>

    constructor ()
      ensures Valid() && sessions == map[] && Views() == map[]
    {
      sessions := map[];
    }

    /** Each session sits under its own key, so no two keys share one. */
    ghost predicate Valid()
      reads this
    {
      forall k :: k in sessions ==> sessions[k].clientKey == k
    }

    ghost function Views(): map<Key, S.Session>
      reads this, sessions.Values
    {
      map k | k in sessions :: sessions[k].View()
    }

    method Get(key: Key) returns (cs: ClientSession?)
      ensures cs == if key in sessions then sessions[key] else null
      ensures cs != null <==> key in Views()
      ensures cs != null ==> cs.View() == Views()[key]
    {
      if key !in sessions { return null; }
      cs := sessions[key];
    }

    /** Finds the session, or creates it; every other entry stays as it was. */
    method GetOrCreate(key: Key) returns (cs: ClientSession)
      requires Valid()
      modifies this
      ensures Valid() && key in sessions && sessions[key] == cs
      ensures key in old(sessions) ==> sessions == old(sessions)
      ensures key !in old(sessions) ==> fresh(cs) && sessions == old(sessions)[key := cs]
      ensures cs.View() == if key in old(Views()) then old(Views())[key] else S.NewSession(key)
      ensures Views() == old(Views())[key := cs.View()]
    {
      if key in sessions { return sessions[key]; }
      cs := new ClientSession(key);
      sessions := sessions[key := cs];
    }

    /** A phase change of a registered session, seen from the registry. */
    method Advance(cs: ClientSession, next: S.Phase)
      requires cs.clientKey in sessions && sessions[cs.clientKey] == cs && Valid()
      modifies cs
      ensures cs.View() == old(cs.View()).(phase := next) && Views() == old(Views())[cs.clientKey := cs.View()]
    {
      cs.TransitionTo(next);
      assert forall k :: k in sessions && k != cs.clientKey ==> sessions[k].View() == old(sessions[k].View());
    }

    /** A packet counted for a registered session, seen from the registry. */
    method CountPacket(cs: ClientSession)
      requires cs.clientKey in sessions && sessions[cs.clientKey] == cs && Valid()
      modifies cs
      ensures cs.View() == Counted(old(cs.View())) && Views() == old(Views())[cs.clientKey := cs.View()]
    {
      cs.packetsReceived := cs.packetsReceived + 1;
      assert forall k :: k in sessions && k != cs.clientKey ==> sessions[k].View() == old(sessions[k].View());
    }

    method Remove(key: Key)
      requires Valid()
      modifies this
      ensures Valid() && sessions == old(sessions) - {key} && Views() == old(Views()) - {key}
    {
      sessions := sessions - {key};
    }
  }

  lemma RefusedStep(w: S.World, pkt: S.Packet)
    ensures |pkt.key| == 0 ==> S.Dispatch(w, pkt) == S.Dispatched(w, S.Refusal(S.EmptyKey))
    ensures |pkt.key| > 0 && pkt.op != S.HandshakeInitial && pkt.key !in w.sessions ==>
      S.Dispatch(w, pkt) == S.Dispatched(w.(stats := w.stats.(missingSession := w.stats.missingSession + 1)),
                                         S.Refusal(S.MissingSession))
  {}

  lemma FoundStep(w: S.World, pkt: S.Packet)
    requires |pkt.key| > 0 && (pkt.op == S.HandshakeInitial || pkt.key in w.sessions)
    ensures
      var cs := S.GetOrCreate(w, pkt.key);
      var h := S.Handle(cs.(packetsReceived := cs.packetsReceived + 1), w.alloc,
                        if S.Counted(pkt.op) then S.Ran(w.stats, pkt.op) else w.stats, pkt);
      S.Dispatch(w, pkt) == S.Dispatched(w.(sessions := w.sessions[pkt.key := cs][pkt.key := h.session],
                                            alloc := h.alloc, stats := h.stats), h.result)
  {
    hide S.Handle, S.Counted, S.Ran;
  }

  class OpcodeDispatcher {
    const sessions: SessionRegistry
    const allocator: NetGuidAllocator
    var stats: S.Stats

    constructor (sessions: SessionRegistry, allocator: NetGuidAllocator)
      ensures this.sessions == sessions && this.allocator == allocator && stats == S.NO_STATS
    {
      this.sessions, this.allocator, stats := sessions, allocator, S.NO_STATS;
    }

    /** Whether the sessions, the allocator and the counters are those of w. */
    ghost predicate Shows(w: S.World)
      reads this, sessions, sessions.sessions.Values, allocator
    {
      sessions.Views() == w.sessions && allocator.Abs() == w.alloc && stats == w.stats
    }

    method MakeReject(cs: ClientSession, error: S.Error) returns (r: S.Result)
      modifies this
      ensures S.Handled(cs.View(), allocator.Abs(), stats, r)
           == S.Rejected(old(cs.View()), old(allocator.Abs()), old(stats), error)
    {
      stats := stats.(wrongPhase := stats.wrongPhase + 1);
      r := S.Result(false, error, cs.phase, cs.phase, false);
    }

    method MakeAccept(cs: ClientSession, before: S.Phase) returns (r: S.Result)
      ensures r == S.Accept(cs.View(), before)
    {
      r := S.Result(true, S.NoError, before, cs.phase, before != cs.phase);
    }

    method HandleHandshakeInitial(cs: ClientSession, pkt: S.Packet) returns (r: S.Result)
      requires pkt.op == S.HandshakeInitial
      modifies this, cs
      ensures S.Handled(cs.View(), allocator.Abs(), stats, r)
           == S.Handle(old(cs.View()), old(allocator.Abs()), S.Ran(old(stats), pkt.op), pkt)
    {
      stats := S.Ran(stats, S.HandshakeInitial);
      var before := cs.phase;
      if cs.phase != S.AwaitingHandshake && cs.phase != S.HandshakeInProgress {
        r := MakeReject(cs, S.WrongPhase);
        return;
      }
      cs.TransitionTo(S.HandshakeInProgress);
      r := MakeAccept(cs, before);
    }

    method HandleHandshakeResponse(cs: ClientSession, pkt: S.Packet) returns (r: S.Result)
      requires pkt.op == S.HandshakeResponse
      modifies this, cs
      ensures S.Handled(cs.View(), allocator.Abs(), stats, r)
           == S.Handle(old(cs.View()), old(allocator.Abs()), S.Ran(old(stats), pkt.op), pkt)
    {
      stats := S.Ran(stats, S.HandshakeResponse);
      var before := cs.phase;
      if cs.phase != S.HandshakeInProgress {
        r := MakeReject(cs, S.WrongPhase);
        return;
      }
      cs.TransitionTo(S.NmtNegotiating);
      r := MakeAccept(cs, before);
    }

    method HandleNmtHello(cs: ClientSession, pkt: S.Packet) returns (r: S.Result)
      requires pkt.op == S.NmtHello
      modifies this, cs
      ensures S.Handled(cs.View(), allocator.Abs(), stats, r)
           == S.Handle(old(cs.View()), old(allocator.Abs()), S.Ran(old(stats), pkt.op), pkt)
    {
      stats := S.Ran(stats, S.NmtHello);
      var before := cs.phase;
      if cs.phase != S.NmtNegotiating {
        r := MakeReject(cs, S.WrongPhase);
        return;
      }
      r := MakeAccept(cs, before);
    }

    method HandleNmtLogin(cs: ClientSession, pkt: S.Packet) returns (r: S.Result)
      requires pkt.op == S.NmtLogin
      modifies this, cs, allocator
      ensures S.Handled(cs.View(), allocator.Abs(), stats, r)
           == S.Handle(old(cs.View()), old(allocator.Abs()), S.Ran(old(stats), pkt.op), pkt)
    {
      hide BlockFor, Allocated, S.Ran;
      stats := S.Ran(stats, S.NmtLogin);
      var before := cs.phase;
      if cs.phase != S.NmtNegotiating {
        r := MakeReject(cs, S.WrongPhase);
        return;
      }
      if |pkt.name| == 0 {
        r := MakeReject(cs, S.EmptyName);
        return;
      }
      cs.playerName := pkt.name;
      cs.onlineId := pkt.onlineId;
      cs.block := allocator.AllocatePlayerBlock(cs.clientKey);
      cs.pc := cs.block.playerController;
      cs.pawn := cs.block.pawn;
      cs.playerState := cs.block.playerState;
      cs.TransitionTo(S.Authenticated);
      r := MakeAccept(cs, before);
    }

    method HandleNmtWelcome(cs: ClientSession, pkt: S.Packet) returns (r: S.Result)
      requires pkt.op == S.NmtWelcome
      modifies this, cs
      ensures S.Handled(cs.View(), allocator.Abs(), stats, r)
           == S.Handle(old(cs.View()), old(allocator.Abs()), S.Ran(old(stats), pkt.op), pkt)
    {
      stats := S.Ran(stats, S.NmtWelcome);
      var before := cs.phase;
      if cs.phase != S.Authenticated {
        r := MakeReject(cs, S.WrongPhase);
        return;
      }
      cs.TransitionTo(S.LoadingMap);
      r := MakeAccept(cs, before);
    }

    method HandleNmtJoin(cs: ClientSession, pkt: S.Packet) returns (r: S.Result)
      requires pkt.op == S.NmtJoin
      modifies this, cs
      ensures S.Handled(cs.View(), allocator.Abs(), stats, r)
           == S.Handle(old(cs.View()), old(allocator.Abs()), S.Ran(old(stats), pkt.op), pkt)
    {
      stats := S.Ran(stats, S.NmtJoin);
      var before := cs.phase;
      if cs.phase != S.LoadingMap {
        r := MakeReject(cs, S.WrongPhase);
        return;
      }
      cs.TransitionTo(S.Spawning);
      r := MakeAccept(cs, before);
    }

    method HandleNmtAbort(cs: ClientSession, pkt: S.Packet) returns (r: S.Result)
      requires pkt.op == S.NmtAbort
      modifies this, cs
      ensures S.Handled(cs.View(), allocator.Abs(), stats, r)
           == S.Handle(old(cs.View()), old(allocator.Abs()), S.Ran(old(stats), pkt.op), pkt)
    {
      stats := S.Ran(stats, S.NmtAbort);
      var before := cs.phase;
      cs.TransitionTo(S.Disconnecting);
      r := MakeAccept(cs, before);
    }

    method HandleNmtGameSpecific(cs: ClientSession, pkt: S.Packet) returns (r: S.Result)
      requires pkt.op == S.NmtGameSpecific
      modifies this, cs
      ensures S.Handled(cs.View(), allocator.Abs(), stats, r)
           == S.Handle(old(cs.View()), old(allocator.Abs()), S.Ran(old(stats), pkt.op), pkt)
    {
      stats := S.Ran(stats, S.NmtGameSpecific);
      var before := cs.phase;
      match before
      case Authenticated | LoadingMap | Spawning =>
        cs.TransitionTo(S.InWorld);
        r := MakeAccept(cs, before);
      case InWorld =>
        r := MakeAccept(cs, before);
      case _ =>
        r := MakeReject(cs, S.WrongPhase);
    }

    method HandleActorMovement(cs: ClientSession, pkt: S.Packet) returns (r: S.Result)
      requires pkt.op == S.ActorMovement
      modifies this, cs
      ensures S.Handled(cs.View(), allocator.Abs(), stats, r)
           == S.Handle(old(cs.View()), old(allocator.Abs()), S.Ran(old(stats), pkt.op), pkt)
    {
      stats := S.Ran(stats, S.ActorMovement);
      var before := cs.phase;
      if cs.phase != S.InWorld {
        r := MakeReject(cs, S.WrongPhase);
        return;
      }
      r := MakeAccept(cs, before);
    }

    method HandleClientDisconnect(cs: ClientSession, pkt: S.Packet) returns (r: S.Result)
      requires pkt.op == S.ClientDisconnect
      modifies this, cs, allocator
      ensures S.Handled(cs.View(), allocator.Abs(), stats, r)
           == S.Handle(old(cs.View()), old(allocator.Abs()), S.Ran(old(stats), pkt.op), pkt)
    {
      stats := S.Ran(stats, S.ClientDisconnect);
      var before := cs.phase;
      if IsValid(cs.block) {
        allocator.ReleasePlayerBlock(cs.clientKey);
      }
      cs.TransitionTo(S.Disconnecting);
      r := MakeAccept(cs, before);
    }

    /** The switch of dispatch: each operation goes to its handler. */
    method HandleOp(cs: ClientSession, pkt: S.Packet) returns (r: S.Result)
      modifies this, cs, allocator
      ensures S.Handled(cs.View(), allocator.Abs(), stats, r)
           == S.Handle(old(cs.View()), old(allocator.Abs()),
                       if S.Counted(pkt.op) then S.Ran(old(stats), pkt.op) else old(stats), pkt)
    {
      match pkt.op
      case HandshakeInitial => r := HandleHandshakeInitial(cs, pkt);
      case HandshakeResponse => r := HandleHandshakeResponse(cs, pkt);
      case NmtHello => r := HandleNmtHello(cs, pkt);
      case NmtLogin => r := HandleNmtLogin(cs, pkt);
      case NmtWelcome => r := HandleNmtWelcome(cs, pkt);
      case NmtJoin => r := HandleNmtJoin(cs, pkt);
      case NmtAbort => r := HandleNmtAbort(cs, pkt);
      case NmtGameSpecific => r := HandleNmtGameSpecific(cs, pkt);
      case ActorMovement => r := HandleActorMovement(cs, pkt);
      case ClientDisconnect => r := HandleClientDisconnect(cs, pkt);
      case PassThrough => r := MakeAccept(cs, cs.phase);
      case Unknown =>
        stats := stats.(unknownOp := stats.unknownOp + 1);
        r := S.Result(false, S.UnknownOp, cs.phase, cs.phase, false);
    }

    /** What dispatch does once it has its session. */
    method HandleFound(cs: ClientSession, pkt: S.Packet) returns (r: S.Result)
      requires sessions.Valid() && pkt.key in sessions.sessions && sessions.sessions[pkt.key] == cs
      modifies this, cs, allocator
      ensures sessions.Valid() && sessions.Views() == old(sessions.Views())[pkt.key := cs.View()]
      ensures S.Handled(cs.View(), allocator.Abs(), stats, r)
           == S.Handle(Counted(old(cs.View())), old(allocator.Abs()),
                       if S.Counted(pkt.op) then S.Ran(old(stats), pkt.op) else old(stats), pkt)
    {
      hide S.Handle, S.Ran, S.Counted, BlockFor;
      cs.packetsReceived := cs.packetsReceived + 1;
      r := HandleOp(cs, pkt);
      assert forall k :: k in sessions.sessions && k != pkt.key ==>
               sessions.sessions[k].View() == old(sessions.sessions[k].View());
    }

    /** dispatch does to the registry, the allocator and the counters exactly what the
        step machine's Dispatch does to w. */
    method Dispatch(pkt: S.Packet, ghost w: S.World) returns (r: S.Result)
      requires sessions.Valid() && Shows(w)
      modifies this, sessions, sessions.sessions.Values, allocator
      ensures sessions.Valid() && fresh(sessions.sessions.Values - old(sessions.sessions.Values))
      ensures Shows(S.Dispatch(w, pkt).world) && r == S.Dispatch(w, pkt).result
    {
      hide S.Dispatch, S.Handle, S.Ran, S.Counted, BlockFor, SessionRegistry.Views;
      RefusedStep(w, pkt);
      if |pkt.key| == 0 {
        return S.Refusal(S.EmptyKey);
      }
      var cs: ClientSession?;
      if pkt.op == S.HandshakeInitial {
        cs := sessions.GetOrCreate(pkt.key);
      } else {
        cs := sessions.Get(pkt.key);
        if cs == null {
          stats := stats.(missingSession := stats.missingSession + 1);
          return S.Refusal(S.MissingSession);
        }
      }
      FoundStep(w, pkt);
      assert sessions.Views() == w.sessions[pkt.key := cs.View()];
      r := HandleFound(cs, pkt);
    }
  }

  /** The calls that reach the UDP emitter. */
  class UdpEmitter {
    var calls: seq<S.Reply>

    constructor ()
      ensures calls == []
    {
      calls := [];
    }

    method Send(reply: S.Reply)
      modifies this
      ensures calls == old(calls) + [reply]
    {
      calls := calls + [reply];
    }
  }

  lemma ConnectStep(w: S.World, key: Key, found: S.Session, left: S.Session, udp: bool)
    requires found == S.GetOrCreate(w, key)
    requires left == if found.phase == S.AwaitingHandshake then found.(phase := S.NmtNegotiating) else found
    ensures S.Step(w, S.Connected(key), udp) == w.(sessions := w.sessions[key := found][key := left])
  {}

  lemma ObserveStep(w: S.World, key: Key, udp: bool)
    ensures S.Step(w, S.Observed(key), udp)
         == w.(packetsIn := w.packetsIn + 1,
               sessions := if key in w.sessions then w.sessions[key := Counted(w.sessions[key])] else w.sessions)
  {}

  lemma DisconnectStep(w: S.World, key: Key, udp: bool)
    ensures S.Step(w, S.Disconnected(key), udp)
         == w.(sessions := w.sessions - {key},
               alloc := if key in w.sessions && IsValid(w.sessions[key].block) then Released(w.alloc, key) else w.alloc)
  {}

  lemma RemoveUpdated(m: map<Key, S.Session>, key: Key, cs: S.Session)
    ensures m[key := cs] - {key} == m - {key}
  {}

  class LiveWorld {
    const allocator: NetGuidAllocator
    const sessions: SessionRegistry
    const dispatcher: OpcodeDispatcher
    const udp: UdpEmitter?
    var totalPacketsIn: nat
    var totalRejects: nat

    constructor (udp: UdpEmitter?)
      requires udp != null ==> udp.calls == []
      ensures Valid() && Abs() == S.START && this.udp == udp
    {
      var registry := new SessionRegistry();
      var guids := new NetGuidAllocator();
      sessions, allocator := registry, guids;
      dispatcher := new OpcodeDispatcher(registry, guids);
      this.udp, totalPacketsIn, totalRejects := udp, 0, 0;
    }

    ghost function Repr(): set<object>
      reads this, sessions
    {
      {this, sessions, allocator, dispatcher} + sessions.sessions.Values + (if udp == null then {} else {udp})
    }

    ghost predicate Valid()
      reads this, sessions
    {
      dispatcher.sessions == sessions && dispatcher.allocator == allocator && sessions.Valid()
    }

    /** The state of the step machine that these objects stand for. */
    ghost function Abs(): S.World
      reads Repr()
    {
      S.World(sessions.Views(), allocator.Abs(), dispatcher.stats, totalPacketsIn, totalRejects,
              if udp == null then [] else udp.calls)
    }

    method OnClientConnected(key: Key)
      requires Valid()
      modifies Repr()
      ensures Valid() && fresh(Repr() - old(Repr()))
      ensures Abs() == S.Step(old(Abs()), S.Connected(key), udp != null)
    {
      hide S.Step, BlockFor, SessionRegistry.Views;
      var cs := sessions.GetOrCreate(key);
      ghost var found := cs.View();
      if cs.phase == S.AwaitingHandshake {
        sessions.Advance(cs, S.NmtNegotiating);
      }
      ConnectStep(old(Abs()), key, found, cs.View(), udp != null);
    }

    method OnClientDisconnected(key: Key)
      requires Valid()
      modifies Repr()
      ensures Valid() && Repr() <= old(Repr())
      ensures Abs() == S.Step(old(Abs()), S.Disconnected(key), udp != null)
    {
      hide S.Step, BlockFor, SessionRegistry.Views;
      DisconnectStep(old(Abs()), key, udp != null);
      var cs := sessions.Get(key);
      if cs != null {
        sessions.Advance(cs, S.Disconnecting);
        if IsValid(cs.block) {
          allocator.ReleasePlayerBlock(key);
        }
        RemoveUpdated(old(sessions.Views()), key, cs.View());
      }
      sessions.Remove(key);
    }

    method MaybeSendNmtReply(pkt: S.Packet, r: S.Result)
      modifies if udp == null then {} else {udp}
      ensures udp != null ==> udp.calls == old(udp.calls) + S.Replies(pkt, r)
    {
      if udp == null { return; }
      if pkt.op == S.NmtHello {
        udp.Send(S.Challenge(pkt.key));
        return;
      }
      if pkt.op == S.NmtLogin && r.newPhase == S.Authenticated {
        udp.Send(S.Welcome(pkt.key));
        return;
      }
    }

    method OnPacket(pkt: S.Packet) returns (r: S.Result)
      requires Valid()
      modifies Repr()
      ensures Valid() && fresh(Repr() - old(Repr()))
      ensures Abs() == S.Step(old(Abs()), S.Received(pkt), udp != null)
      ensures r == S.OnPacket(old(Abs()), pkt, udp != null).result
    {
      hide S.Dispatch, S.Replies, SessionRegistry.Views, BlockFor;
      totalPacketsIn := totalPacketsIn + 1;
      r := dispatcher.Dispatch(pkt, old(Abs()).(packetsIn := totalPacketsIn));
      if !r.accepted {
        totalRejects := totalRejects + 1;
      } else {
        MaybeSendNmtReply(pkt, r);
      }
      S.DispatchKeepsTotals(old(Abs()).(packetsIn := totalPacketsIn), pkt);
    }

    method OnDataPacketObserved(key: Key)
      requires Valid()
      modifies Repr()
      ensures Valid() && Repr() == old(Repr())
      ensures Abs() == S.Step(old(Abs()), S.Observed(key), udp != null)
    {
      hide S.Step, BlockFor, SessionRegistry.Views;
      ObserveStep(old(Abs()), key, udp != null);
      var cs := sessions.Get(key);
      if cs != null {
        sessions.CountPacket(cs);
      }
      totalPacketsIn := totalPacketsIn + 1;
    }

    /** Any sequence of hook calls leaves the objects in the state of that run of the
        step machine. */
    method Replay(events: seq<S.Event>)
      requires Valid() && Abs() == S.START
      modifies Repr()
      ensures Valid() && Abs() == S.Run(events, udp != null)
    {
      assert events[..0] == [];
      for i := 0 to |events|
        invariant Valid() && fresh(Repr() - old(Repr()))
        invariant Abs() == S.Run(events[..i], udp != null)
      {
        assert events[..i + 1][..i] == events[..i];
        match events[i]
        case Connected(key) => OnClientConnected(key);
        case Received(pkt) => var r := OnPacket(pkt);
        case Observed(key) => OnDataPacketObserved(key);
        case Disconnected(key) => OnClientDisconnected(key);
      }
      assert events[..|events|] == events;
    }
  }
}
