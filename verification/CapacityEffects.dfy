/** What each event does to the counters and the maps, in a state any run can reach, and what
    pairs of events undo. */
module CapacityEffects {
  import opened Wrappers
  import opened CapacityLedger
  import opened CapacityProtocol
  import opened CapacityTheorems
  import opened CapacityAdmission
  import opened SessionManagement

  /** From st the ledger moves for one address, and all else is as expected. */
  ghost predicate Becomes(st: State, st1: State, expected: State, ip: Ip, de: int, dp: int) {
    && Moves(st.manager.ledger, st1.manager.ledger, ip, de, dp)
    && st1 == expected.(manager := expected.manager.(ledger := st1.manager.ledger))
  }

  lemma Deciding(limits: Limits, st: State, ip: Ip)
    requires Inv(limits, st)
    ensures Decide(limits, st.manager.ledger, ip) == Allowed <==> HasRoom(limits, st.manager.ledger, ip)
  {
  }

  lemma Releasing(limits: Limits, st: State, d: DialId)
    requires Inv(limits, st) && d in st.dials && Holds(st.dials[d].phase)
    ensures var ip := st.dials[d].ip; Moves(st.manager.ledger, Release(st.manager.ledger, ip), ip, 0, -1)
  {
    HoldingSplit(st.dials, d, st.dials[d].ip);
    ReleaseMoves(st.manager.ledger, st.dials[d].ip);
  }

  // ----- admission -----

  /** The state with one dial more. */
  function WithDial(st: State, dial: Dial): State {
    st.(dials := st.dials[st.nextDial := dial], nextDial := st.nextDial + 1)
  }

  /** A typed connect is admitted exactly when its socket has no session, its target is allowed
      and there is room.  An arbitrary target is resolved first; any other is dialled at once,
      for a new session whose one client is the socket. */
  lemma TypedAdmittedExactly(limits: Limits, st: State, s: Socket, ip: Ip, allowed: bool, arbitrary: bool, now: int)
    requires Inv(limits, st)
    ensures var st1 := Step(limits, st, TypedConnect(s, ip, allowed, arbitrary, now));
            var m, m1 := st.manager, st1.manager;
            if s in m.socketSession || !allowed || !HasRoom(limits, m.ledger, ip) then st1 == st
            else if arbitrary then Becomes(st, st1, WithDial(st, Dial(s, ip, TypedResolving)), ip, 0, 1)
            else
              && Moves(m.ledger, m1.ledger, ip, 0, 1)
              && st1.dials == st.dials[st.nextDial := Dial(s, ip, TypedDialing(st.nextSession))]
              && m1.sessions == m.sessions[st.nextSession := Session(None, {s}, None)]
              && m1.socketSession == m.socketSession[s := st.nextSession]
  {
    Deciding(limits, st, ip);
    ReserveMoves(limits, st.manager.ledger, ip);
    if s !in st.manager.socketSession && HasRoom(limits, st.manager.ledger, ip) {
      FreshSession(Admit(limits, st, s, ip, TypedGranted), st.nextDial, now);
    }
  }

  lemma FreshSession(st: State, d: DialId, now: int)
    requires d in st.dials && st.dials[d].socket !in st.manager.socketSession
    ensures var st1 := BeginTyped(st, d, now); var m, m1, s := st.manager, st1.manager, st.dials[d].socket;
            && m1.ledger == m.ledger && st1.nextDial == st.nextDial
            && st1.dials == st.dials[d := st.dials[d].(phase := TypedDialing(st.nextSession))]
            && m1.sessions == m.sessions[st.nextSession := Session(None, {s}, None)]
            && m1.socketSession == m.socketSession[s := st.nextSession]
  {
    var s := st.dials[d].socket;
    assert WithClient(Session(None, {}, None), s) == Session(None, {s}, None);
    var m := CreateSession(st).manager;
    assert LeaveSession(m, s, now) == m;
  }

  /** A legacy connect is ignored exactly when its socket is busy.  Otherwise it makes a
      controller and a dial, which holds a reservation exactly when it is admitted. */
  lemma LegacyAdmittedExactly(limits: Limits, st: State, s: Socket, ip: Ip, allowed: bool, arbitrary: bool)
    requires Inv(limits, st)
    ensures var st1 := Step(limits, st, LegacyConnect(s, ip, allowed, arbitrary));
            var admitted := allowed && HasRoom(limits, st.manager.ledger, ip);
            if s in st.upstream || s in st.pendingTransport || s in st.manager.socketSession then st1 == st
            else
              var waiting := st.(pendingTransport := st.pendingTransport[s := st.nextDial]);
              if !admitted then st1 == WithDial(waiting, Dial(s, ip, LegacyDenied))
              else if arbitrary then Becomes(st, st1, WithDial(waiting, Dial(s, ip, LegacyResolving)), ip, 0, 1)
              else Becomes(st, st1, WithDial(waiting, Dial(s, ip, LegacyGranted)), ip, 0, 1)
  {
    Deciding(limits, st, ip);
    ReserveMoves(limits, st.manager.ledger, ip);
  }

  // ----- the awaited decision -----

  /** A resolution meets a dial that waits for it and no other.  Permitted, the dial may go on
      and keeps its reservation; denied, a typed dial is gone and a legacy one is denied, and
      its address has one reservation less. */
  lemma ResolutionDecides(limits: Limits, st: State, d: DialId, permitted: bool)
    requires Inv(limits, st)
    ensures var st1 := Step(limits, st, Resolved(d, permitted));
            if d in st.dials && st.dials[d].phase.TypedResolving? then
              if permitted then st1 == st.(dials := st.dials[d := st.dials[d].(phase := TypedGranted)])
              else Becomes(st, st1, st.(dials := st.dials - {d}), st.dials[d].ip, 0, -1)
            else if d in st.dials && st.dials[d].phase.LegacyResolving? then
              if permitted then st1 == st.(dials := st.dials[d := st.dials[d].(phase := LegacyGranted)])
              else
                var denied := st.dials[d].(phase := LegacyDenied);
                Becomes(st, st1, st.(dials := st.dials[d := denied]), denied.ip, 0, -1)
            else st1 == st
  {
    if d in st.dials && Holds(st.dials[d].phase) {
      Releasing(limits, st, d);
    }
  }

  /** The same over every run: after a denial no dial of this id is dialled or holds a
      reservation, and the address has one reservation less. */
  lemma DenialIsFinal(limits: Limits, events: seq<Event>, d: DialId)
    requires d in After(limits, events).dials
    requires var phase := After(limits, events).dials[d].phase; phase.TypedResolving? || phase.LegacyResolving?
    ensures var st, st1 := After(limits, events), After(limits, events + [Resolved(d, false)]);
            && (d in st1.dials <==> st.dials[d].phase.LegacyResolving?)
            && (d in st1.dials ==> st1.dials[d].phase == LegacyDenied)
            && Moves(st.manager.ledger, st1.manager.ledger, st.dials[d].ip, 0, -1)
  {
    Reachable(limits, events);
    RunSnoc(limits, InitialState(), events, Resolved(d, false));
    ResolutionDecides(limits, After(limits, events), d, false);
  }

  // ----- the end of a typed dial -----

  /** A granted dial gets a new session whose one client is its socket; the session the socket
      was in loses it. */
  lemma GrantedDialStarts(limits: Limits, st: State, d: DialId, now: int)
    requires Inv(limits, st) && d in st.dials && st.dials[d].phase.TypedGranted?
    ensures var st1 := Step(limits, st, StartTyped(d, now)); var s := st.dials[d].socket;
            && st1.dials == st.dials[d := st.dials[d].(phase := TypedDialing(st.nextSession))]
            && st1.manager.ledger == st.manager.ledger
            && st1.manager.socketSession == st.manager.socketSession[s := st.nextSession]
            && st1.manager.sessions.Keys == st.manager.sessions.Keys + {st.nextSession}
            && st1.manager.sessions[st.nextSession] == Session(None, {s}, None)
            && (forall id <- st.manager.sessions :: st1.manager.sessions[id].clients
                  == if s in st.manager.socketSession && st.manager.socketSession[s] == id
                     then st.manager.sessions[id].clients - {s} else st.manager.sessions[id].clients)
  {
  }

  /** A dial that succeeds for a stored session is gone; its address has one reservation less
      and, unless it is unknown, one connection more, which the session now owns. */
  lemma SuccessCounts(limits: Limits, st: State, d: DialId)
    requires Inv(limits, st) && d in st.dials && st.dials[d].phase.TypedDialing?
    ensures var st1 := Step(limits, st, DialSucceeded(d));
            var id, ip, sessions := st.dials[d].phase.session, st.dials[d].ip, st.manager.sessions;
            if id !in sessions then st1 == st
            else
              && Moves(st.manager.ledger, st1.manager.ledger, ip, if ip == UNKNOWN then 0 else 1, -1)
              && st1.dials == st.dials - {d} && st1.manager.socketSession == st.manager.socketSession
              && st1.manager.sessions
                 == if ip == UNKNOWN then sessions else sessions[id := sessions[id].(clientIp := Some(ip))]
  {
    var ip := st.dials[d].ip;
    HoldingSplit(st.dials, d, ip);
    Releasing(limits, st, d);
    HandOffMoves(limits, st.manager.ledger, ip);
  }

  /** A dial that fails is gone with its session and the mappings of that session's clients,
      and its address has one reservation less. */
  lemma FailureReleases(limits: Limits, st: State, d: DialId)
    requires Inv(limits, st) && d in st.dials && st.dials[d].phase.TypedDialing?
    ensures var st1 := Step(limits, st, DialFailed(d)); var id, m := st.dials[d].phase.session, st.manager;
            && Moves(m.ledger, st1.manager.ledger, st.dials[d].ip, 0, -1)
            && st1.dials == st.dials - {d} && st1.manager.sessions == m.sessions - {id}
            && st1.manager.socketSession == m.socketSession - (if id in m.sessions then m.sessions[id].clients else {})
  {
    Releasing(limits, st, d);
  }

  /** A typed dial that fails leaves the sessions, the socket map, the dials in flight and
      every count as they were before its connect. */
  lemma FailedDialLeavesNoTrace(limits: Limits, st: State, s: Socket, ip: Ip, now: int)
    requires Inv(limits, st) && NothingOverdrawn(st)
    requires s !in st.manager.socketSession && HasRoom(limits, st.manager.ledger, ip)
    ensures var st1 := Step(limits, st, TypedConnect(s, ip, true, false, now));
            var st2 := Step(limits, st1, DialFailed(st.nextDial));
            && Moves(st.manager.ledger, st2.manager.ledger, ip, 0, 0)
            && st2.manager.sessions == st.manager.sessions && st2.manager.socketSession == st.manager.socketSession
            && st2.dials == st.dials
  {
    var e := TypedConnect(s, ip, true, false, now);
    TypedAdmittedExactly(limits, st, s, ip, true, false, now);
    assert Inv(limits, Step(limits, st, e)) by {
      StepKeeps(limits, st, e);
    }
    NewDialFails(limits, st, Step(limits, st, e), s, ip);
  }

  lemma NewDialFails(limits: Limits, st: State, st1: State, s: Socket, ip: Ip)
    requires st.nextDial !in st.dials && st.nextSession !in st.manager.sessions && s !in st.manager.socketSession
    requires Inv(limits, st1)
    requires Moves(st.manager.ledger, st1.manager.ledger, ip, 0, 1)
    requires st1.dials == st.dials[st.nextDial := Dial(s, ip, TypedDialing(st.nextSession))]
    requires st1.manager.sessions == st.manager.sessions[st.nextSession := Session(None, {s}, None)]
    requires st1.manager.socketSession == st.manager.socketSession[s := st.nextSession]
    ensures var st2 := Step(limits, st1, DialFailed(st.nextDial));
            && Moves(st.manager.ledger, st2.manager.ledger, ip, 0, 0)
            && st2.manager.sessions == st.manager.sessions && st2.manager.socketSession == st.manager.socketSession
            && st2.dials == st.dials
  {
    FailureReleases(limits, st1, st.nextDial);
    assert st1.dials - {st.nextDial} == st.dials;
    assert st1.manager.sessions - {st.nextSession} == st.manager.sessions;
    assert st1.manager.socketSession - {s} == st.manager.socketSession;
  }

  // ----- the end of a legacy dial -----

  /** The continuation of a legacy dial: a denied one is gone with its controller; an aborted
      one is gone and its reservation given back; any other is counted on its socket, unless
      its address is unknown, and waits for its transport. */
  lemma ContinuationSettles(limits: Limits, st: State, d: DialId)
    requires Inv(limits, st) && d in st.dials
    ensures var st1 := Step(limits, st, ContinueLegacy(d)); var dial := st.dials[d]; var s, ip := dial.socket, dial.ip;
            match dial.phase
            case LegacyDenied =>
              st1 == st.(dials := st.dials - {d}, pendingTransport := WithoutController(st.pendingTransport, s, d))
            case LegacyGranted =>
              if d in st.aborted then Becomes(st, st1, st.(dials := st.dials - {d}), ip, 0, -1)
              else
                var moved := st.(dials := st.dials[d := dial.(phase := LegacyTransport)],
                                 counted := if ip == UNKNOWN then st.counted - {s} else st.counted[s := ip]);
                Becomes(st, st1, moved, ip, if ip == UNKNOWN then 0 else 1, -1)
            case _ => st1 == st
  {
    var ip := st.dials[d].ip;
    if st.dials[d].phase.LegacyGranted? {
      HoldingSplit(st.dials, d, ip);
      Releasing(limits, st, d);
      HandOffMoves(limits, st.manager.ledger, ip);
    }
  }

  /** The controllers without this dial's, if it is still the socket's. */
  function WithoutController(controllers: map<Socket, DialId>, s: Socket, d: DialId): map<Socket, DialId> {
    if s in controllers && controllers[s] == d then controllers - {s} else controllers
  }

  /** A transport that connects makes its socket an upstream; one that fails does not; either
      way the dial and its controller are gone.  An aborted dial can only fail, and leaves
      whatever controller its socket has by then. */
  lemma TransportSettles(limits: Limits, st: State, d: DialId, connected: bool)
    requires d in st.dials && st.dials[d].phase.LegacyTransport?
    ensures var st1 := Step(limits, st, if connected then TransportConnected(d) else TransportFailed(d));
            var s := st.dials[d].socket;
            if d in st.aborted then st1 == if connected then st else st.(dials := st.dials - {d})
            else
              st1 == st.(dials := st.dials - {d}, pendingTransport := WithoutController(st.pendingTransport, s, d),
                         upstream := if connected then st.upstream + {s} else st.upstream)
  {
  }

  /** The state with this legacy dial under way on its socket. */
  function WithLegacy(st: State, s: Socket, ip: Ip): State {
    WithDial(st, Dial(s, ip, LegacyTransport)).(
      pendingTransport := st.pendingTransport[s := st.nextDial],
      counted := if ip == UNKNOWN then st.counted else st.counted[s := ip])
  }

  lemma LegacyOpens(limits: Limits, st: State, s: Socket, ip: Ip)
    requires Inv(limits, st) && NothingOverdrawn(st) && HasRoom(limits, st.manager.ledger, ip)
    requires s !in st.upstream && s !in st.pendingTransport && s !in st.manager.socketSession && s !in st.counted
    requires st.nextDial !in st.aborted
    ensures var st1 := Step(limits, st, LegacyConnect(s, ip, true, false));
            var st2 := Step(limits, st1, ContinueLegacy(st.nextDial));
            Becomes(st, st2, WithLegacy(st, s, ip), ip, if ip == UNKNOWN then 0 else 1, 0)
  {
    var st1 := Step(limits, st, LegacyConnect(s, ip, true, false));
    assert Inv(limits, st1) by {
      StepKeeps(limits, st, LegacyConnect(s, ip, true, false));
    }
    LegacyAdmittedExactly(limits, st, s, ip, true, false);
    GrantedContinues(limits, st, st1, s, ip);
  }

  lemma GrantedContinues(limits: Limits, st: State, st1: State, s: Socket, ip: Ip)
    requires Inv(limits, st1) && st.nextDial !in st.aborted && s !in st.counted
    requires Becomes(st, st1, WithDial(st.(pendingTransport := st.pendingTransport[s := st.nextDial]),
                                       Dial(s, ip, LegacyGranted)), ip, 0, 1)
    ensures var st2 := Step(limits, st1, ContinueLegacy(st.nextDial));
            Becomes(st, st2, WithLegacy(st, s, ip), ip, if ip == UNKNOWN then 0 else 1, 0)
  {
    ContinuationSettles(limits, st1, st.nextDial);
    assert st.counted - {s} == st.counted;
  }

  /** A legacy connection that is opened, connected and closed again leaves the state as it
      was, every count included, but for the number of the next dial. */
  lemma ClosedLegacyLeavesNoTrace(limits: Limits, st: State, s: Socket, ip: Ip, now: int)
    requires Inv(limits, st) && NothingOverdrawn(st) && HasRoom(limits, st.manager.ledger, ip)
    requires s !in st.upstream && s !in st.pendingTransport && s !in st.manager.socketSession && s !in st.counted
    requires st.nextDial !in st.aborted
    ensures var st1 := Step(limits, st, LegacyConnect(s, ip, true, false));
            var st2 := Step(limits, st1, ContinueLegacy(st.nextDial));
            var st3 := Step(limits, st2, TransportConnected(st.nextDial));
            var st4 := Step(limits, st3, CapacityProtocol.CloseSocket(s, now));
            Becomes(st, st4, st.(nextDial := st.nextDial + 1), ip, 0, 0)
  {
    var st2 := Step(limits, Step(limits, st, LegacyConnect(s, ip, true, false)), ContinueLegacy(st.nextDial));
    LegacyOpens(limits, st, s, ip);
    LegacyConnectsAndCloses(limits, st, st2, s, ip, now);
  }

  lemma LegacyConnectsAndCloses(limits: Limits, st: State, st2: State, s: Socket, ip: Ip, now: int)
    requires st.nextDial !in st.aborted && st.nextDial !in st.dials
    requires s !in st.upstream && s !in st.pendingTransport && s !in st.manager.socketSession && s !in st.counted
    requires Becomes(st, st2, WithLegacy(st, s, ip), ip, if ip == UNKNOWN then 0 else 1, 0)
    ensures var st4 := Step(limits, Step(limits, st2, TransportConnected(st.nextDial)),
                            CapacityProtocol.CloseSocket(s, now));
            Becomes(st, st4, st.(nextDial := st.nextDial + 1), ip, 0, 0)
  {
    var d := st.nextDial;
    TransportSettles(limits, st2, d, true);
    assert st2.dials - {d} == st.dials && st2.pendingTransport - {s} == st.pendingTransport;
    if ip != UNKNOWN {
      DecrementFromEstablished(st2.manager.ledger, ip);
      assert st2.counted - {s} == st.counted;
    }
    assert st.upstream + {s} - {s} == st.upstream;
  }

  // ----- leaving -----

  lemma DecrementFromEstablished(l: Ledger, ip: Ip)
    requires Count(l.established, ip) > 0 && l.globalEstablished > 0
    ensures Moves(l, Decrement(l, ip), ip, -1, 0)
  {
  }

  /** A socket that closes outside any session gives its counted unit back, aborts a dial that
      is still on its way, and is no upstream any more. */
  lemma LegacySocketCloses(limits: Limits, st: State, s: Socket, now: int)
    requires Inv(limits, st) && NothingOverdrawn(st) && s !in st.manager.socketSession
    ensures var st1 := Step(limits, st, CapacityProtocol.CloseSocket(s, now));
            && (if s in st.counted then Moves(st.manager.ledger, st1.manager.ledger, st.counted[s], -1, 0)
                else st1.manager == st.manager)
            && (if s in st.pendingTransport && s !in st.upstream
                then st1.aborted == st.aborted + {st.pendingTransport[s]} && s !in st1.pendingTransport
                else st1.aborted == st.aborted && st1.pendingTransport == st.pendingTransport)
            && s !in st1.upstream && s !in st1.counted && st1.dials == st.dials
  {
    if s in st.counted {
      SocketsSplit(st.counted, s, st.counted[s]);
      assert Orphaned(st, st.counted[s]) >= 0;
      DecrementMoves(st.manager.ledger, st.counted[s]);
    }
  }

  /** A session leaves the store by removal or by its client's disconnect, and its counted
      address then has one connection less; only removal unmaps its clients. */
  lemma SessionLeaves(limits: Limits, st: State, id: SessionId, s: Socket)
    requires Inv(limits, st) && NothingOverdrawn(st) && id in st.manager.sessions
    requires s in st.manager.socketSession && st.manager.socketSession[s] == id
    ensures var removed := Step(limits, st, CapacityProtocol.RemoveSession(id)).manager;
            var disconnected := Step(limits, st, Disconnect(s)).manager;
            && removed.ledger == disconnected.ledger && removed.sessions == disconnected.sessions
            && removed.sessions == st.manager.sessions - {id}
            && removed.socketSession == st.manager.socketSession - st.manager.sessions[id].clients
            && disconnected.socketSession == st.manager.socketSession
            && match st.manager.sessions[id].clientIp
               case Some(ip) => Moves(st.manager.ledger, removed.ledger, ip, -1, 0)
               case None => removed.ledger == st.manager.ledger
  {
    match st.manager.sessions[id].clientIp
    case Some(ip) =>
      SessionsSplit(st.manager.sessions, id, ip);
      assert Orphaned(st, ip) >= 0;
      DecrementMoves(st.manager.ledger, ip);
    case None =>
  }

  // ----- clients and the reaper -----

  /** When a socket closes, its session loses that client and no other.  If it was the last,
      the session may be reaped from then on exactly when more than the grace window has passed
      since; if it was not, never. */
  lemma ReapableExactlyAfterGrace(limits: Limits, st: State, s: Socket, now: int, later: int, graceMs: int)
    requires s in st.manager.socketSession && st.manager.socketSession[s] in st.manager.sessions
    ensures var m, m1 := st.manager, Step(limits, st, CapacityProtocol.CloseSocket(s, now)).manager;
            var id := m.socketSession[s];
            && m1.ledger == m.ledger && m1.socketSession == m.socketSession - {s}
            && m1.sessions.Keys == m.sessions.Keys
            && (forall other <- m.sessions :: other != id ==> m1.sessions[other] == m.sessions[other])
            && m1.sessions[id].clients == m.sessions[id].clients - {s}
            && m1.sessions[id].clientIp == m.sessions[id].clientIp
            && (Expired(m1.sessions[id], later, graceMs) <==> m.sessions[id].clients <= {s} && later > now + graceMs)
  {
  }

  /** A resumed session has the socket as a client, and is not reaped however long it had been
      without one; the session the socket was in loses it. */
  lemma ResumedIsNotReaped(limits: Limits, st: State, s: Socket, id: SessionId, now: int, later: int, graceMs: int)
    requires id in st.manager.sessions
    ensures var m, m1 := st.manager, Step(limits, st, Resume(s, id, now)).manager;
            && m1.ledger == m.ledger && m1.socketSession == m.socketSession[s := id]
            && m1.sessions.Keys == m.sessions.Keys
            && m1.sessions[id].clients == m.sessions[id].clients + {s}
            && m1.sessions[id].clientlessSince == None && !Expired(m1.sessions[id], later, graceMs)
            && forall other <- m.sessions :: other != id ==>
                 m1.sessions[other].clients
                 == if s in m.socketSession && m.socketSession[s] == other
                    then m.sessions[other].clients - {s} else m.sessions[other].clients
  {
  }
}
