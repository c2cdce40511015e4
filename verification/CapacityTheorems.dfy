/** What every run of the capacity protocol keeps. */
module CapacityTheorems {
  import opened Wrappers
  import opened CapacityLedger
  import opened CapacityProtocol

  // ----- who owns what -----

  /** The dials in flight that hold a reservation for the address. */
  function Holding(dials: map<DialId, Dial>, ip: Ip): set<DialId> {
    set d | d in dials && Holds(dials[d].phase) && dials[d].ip == ip
  }

  /** The stored sessions counted for the address. */
  function CountedSessions(sessions: map<SessionId, Session>, ip: Ip): set<SessionId> {
    set id | id in sessions && sessions[id].clientIp == Some(ip)
  }

  /** The sockets whose legacyCountedIp is the address. */
  function CountedSockets(counted: map<Socket, Ip>, ip: Ip): set<Socket> {
    set s | s in counted && counted[s] == ip
  }

  function Owners(st: State, ip: Ip): nat {
    |CountedSessions(st.manager.sessions, ip)| + |CountedSockets(st.counted, ip)|
  }

  /** Established capacity nobody owns any more. */
  function Orphaned(st: State, ip: Ip): int {
    Count(st.manager.ledger.established, ip) - Owners(st, ip)
  }

  lemma HoldingSplit(dials: map<DialId, Dial>, d: DialId, ip: Ip)
    ensures |Holding(dials, ip)| == |Holding(dials - {d}, ip)|
                                    + if d in dials && Holds(dials[d].phase) && dials[d].ip == ip then 1 else 0
  {
    if d in Holding(dials, ip) {
      assert Holding(dials, ip) == Holding(dials - {d}, ip) + {d};
    } else {
      assert Holding(dials, ip) == Holding(dials - {d}, ip);
    }
  }

  lemma SessionsSplit(sessions: map<SessionId, Session>, id: SessionId, ip: Ip)
    ensures |CountedSessions(sessions, ip)|
         == |CountedSessions(sessions - {id}, ip)|
            + if id in sessions && sessions[id].clientIp == Some(ip) then 1 else 0
  {
    if id in CountedSessions(sessions, ip) {
      assert CountedSessions(sessions, ip) == CountedSessions(sessions - {id}, ip) + {id};
    } else {
      assert CountedSessions(sessions, ip) == CountedSessions(sessions - {id}, ip);
    }
  }

  lemma SocketsSplit(counted: map<Socket, Ip>, s: Socket, ip: Ip)
    ensures |CountedSockets(counted, ip)|
         == |CountedSockets(counted - {s}, ip)| + if s in counted && counted[s] == ip then 1 else 0
  {
    if s in CountedSockets(counted, ip) {
      assert CountedSockets(counted, ip) == CountedSockets(counted - {s}, ip) + {s};
    } else {
      assert CountedSockets(counted, ip) == CountedSockets(counted - {s}, ip);
    }
  }

  // ----- the invariant -----

  /** Every reservation belongs to exactly one dial in flight. */
  ghost predicate PendingIsHeld(st: State) {
    forall ip :: Count(st.manager.ledger.pending, ip) == |Holding(st.dials, ip)|
  }

  ghost predicate NothingOverdrawn(st: State) {
    forall ip :: Orphaned(st, ip) >= 0
  }

  /** Ids are used once; the session of a dial under way is its own and not yet counted. */
  predicate WellFormed(st: State) {
    && (forall d <- st.dials :: d < st.nextDial)
    && (forall id <- st.manager.sessions :: id < st.nextSession)
    && (forall d <- st.dials :: st.dials[d].phase.TypedDialing? ==>
          st.dials[d].phase.session < st.nextSession
          && (st.dials[d].phase.session in st.manager.sessions ==>
                st.manager.sessions[st.dials[d].phase.session].clientIp.None?))
    && (forall d <- st.dials, d1 <- st.dials ::
          d != d1 && st.dials[d].phase.TypedDialing? && st.dials[d1].phase.TypedDialing? ==>
            st.dials[d].phase.session != st.dials[d1].phase.session)
  }

  /** A client attached to a stored session maps back to it. */
  predicate ClientsMapBack(m: Manager) {
    forall id <- m.sessions, ws <- m.sessions[id].clients :: ws in m.socketSession && m.socketSession[ws] == id
  }

  ghost predicate Inv(limits: Limits, st: State) {
    && Balanced(st.manager.ledger)
    && WithinLimits(limits, st.manager.ledger)
    && PendingIsHeld(st)
    && WellFormed(st)
    && ClientsMapBack(st.manager)
  }

  /** No address gains or loses orphaned capacity. */
  ghost predicate Steady(st: State, st1: State) {
    forall ip :: Orphaned(st1, ip) == Orphaned(st, ip)
  }

  /** The one way established capacity is orphaned: a legacy dial is counted on a socket
      whose earlier count has not been given back. */
  predicate Recounts(st: State, e: Event, ip: Ip) {
    && e.ContinueLegacy? && e.dial in st.dials && st.dials[e.dial].phase.LegacyGranted?
    && e.dial !in st.aborted
    && st.dials[e.dial].socket in st.counted && st.counted[st.dials[e.dial].socket] == ip
  }

  /** What one step does to the invariant and to orphaned capacity. */
  ghost predicate Kept(limits: Limits, st: State, e: Event) {
    var st1 := Step(limits, st, e);
    && Inv(limits, st1)
    && forall ip :: Orphaned(st1, ip) == Orphaned(st, ip) + if Recounts(st, e, ip) then 1 else 0
  }

  // ----- the pieces of a step -----

  lemma AdmitKeeps(limits: Limits, st: State, socket: Socket, ip: Ip, phase: Phase)
    requires Inv(limits, st) && Decide(limits, st.manager.ledger, ip) == Allowed
    requires Holds(phase) && !phase.TypedDialing?
    ensures Inv(limits, Admit(limits, st, socket, ip, phase))
    ensures Steady(st, Admit(limits, st, socket, ip, phase))
  {
    var st1 := Admit(limits, st, socket, ip, phase);
    ReserveMoves(limits, st.manager.ledger, ip);
    assert st1.dials - {st.nextDial} == st.dials - {st.nextDial};
    forall other
      ensures Count(st1.manager.ledger.pending, other) == |Holding(st1.dials, other)|
    {
      HoldingSplit(st.dials, st.nextDial, other);
      HoldingSplit(st1.dials, st.nextDial, other);
    }
  }

  /** The dial is gone, or has a phase that holds no reservation. */
  ghost predicate WithoutReservation(before: map<DialId, Dial>, d: DialId, after: map<DialId, Dial>)
    requires d in before
  {
    after == before - {d} || exists phase :: !Holds(phase) && after == before[d := before[d].(phase := phase)]
  }

  /** A dial gives its reservation up and either goes or stays without one. */
  lemma GiveUpKeeps(limits: Limits, st: State, d: DialId, dials: map<DialId, Dial>)
    requires Inv(limits, st) && d in st.dials && Holds(st.dials[d].phase)
    requires WithoutReservation(st.dials, d, dials)
    ensures Inv(limits, GiveBack(st, st.dials[d].ip).(dials := dials))
    ensures Steady(st, GiveBack(st, st.dials[d].ip).(dials := dials))
  {
    HoldingSplit(st.dials, d, st.dials[d].ip);
    ReleaseMoves(st.manager.ledger, st.dials[d].ip);
    GiveUpKeepsPending(st, d, dials);
    GiveUpKeepsShape(st, d, dials);
  }

  lemma GiveUpKeepsPending(st: State, d: DialId, dials: map<DialId, Dial>)
    requires PendingIsHeld(st) && d in st.dials && Holds(st.dials[d].phase)
    requires WithoutReservation(st.dials, d, dials)
    requires Moves(st.manager.ledger, Release(st.manager.ledger, st.dials[d].ip), st.dials[d].ip, 0, -1)
    ensures PendingIsHeld(GiveBack(st, st.dials[d].ip).(dials := dials))
  {
    assert dials - {d} == st.dials - {d};
    forall other
      ensures Count(Release(st.manager.ledger, st.dials[d].ip).pending, other) == |Holding(dials, other)|
    {
      HoldingSplit(st.dials, d, other);
      HoldingSplit(dials, d, other);
    }
  }

  lemma GiveUpKeepsShape(st: State, d: DialId, dials: map<DialId, Dial>)
    requires WellFormed(st) && d in st.dials && WithoutReservation(st.dials, d, dials)
    ensures WellFormed(GiveBack(st, st.dials[d].ip).(dials := dials))
  {
  }

  /** Changing a phase without touching the reservation or a session. */
  lemma RephaseKeeps(limits: Limits, st: State, d: DialId, phase: Phase)
    requires Inv(limits, st) && d in st.dials && Holds(st.dials[d].phase) && Holds(phase) && !phase.TypedDialing?
    ensures Inv(limits, SetPhase(st, d, phase))
    ensures Steady(st, SetPhase(st, d, phase))
  {
    var st1 := SetPhase(st, d, phase);
    assert st1.dials - {d} == st.dials - {d};
    forall ip
      ensures |Holding(st1.dials, ip)| == |Holding(st.dials, ip)|
    {
      HoldingSplit(st.dials, d, ip);
      HoldingSplit(st1.dials, d, ip);
    }
  }

  /** Only clients and the socket map change in a manager. */
  predicate SameCounting(m: Manager, m1: Manager) {
    && m1.ledger == m.ledger && m1.sessions.Keys == m.sessions.Keys
    && (forall id <- m.sessions :: m1.sessions[id].clientIp == m.sessions[id].clientIp)
  }

  lemma SameCountingKeeps(limits: Limits, st: State, m1: Manager)
    requires Inv(limits, st) && SameCounting(st.manager, m1) && ClientsMapBack(m1)
    ensures Inv(limits, st.(manager := m1))
    ensures Steady(st, st.(manager := m1))
  {
    forall ip
      ensures CountedSessions(m1.sessions, ip) == CountedSessions(st.manager.sessions, ip)
    {
    }
  }

  lemma AttachKeepsMap(m: Manager, id: SessionId, ws: Socket, now: int)
    requires ClientsMapBack(m)
    ensures ClientsMapBack(Attach(m, id, ws, now)) && SameCounting(m, Attach(m, id, ws, now))
  {
  }

  lemma DetachKeepsMap(m: Manager, ws: Socket, now: int)
    requires ClientsMapBack(m)
    ensures ClientsMapBack(Detach(m, ws, now)) && SameCounting(m, Detach(m, ws, now))
  {
  }

  /** Fields no count depends on. */
  lemma OtherFieldsKeep(limits: Limits, st: State, st1: State)
    requires Inv(limits, st)
    requires st1.manager == st.manager && st1.dials == st.dials && st1.counted == st.counted
    requires st1.nextDial == st.nextDial && st1.nextSession == st.nextSession
    ensures Inv(limits, st1) && Steady(st, st1)
  {
  }

  lemma CreateKeeps(limits: Limits, st: State)
    requires Inv(limits, st)
    ensures Inv(limits, CreateSession(st)) && Steady(st, CreateSession(st))
  {
    var sessions := st.manager.sessions[st.nextSession := Session(None, {}, None)];
    forall ip
      ensures CountedSessions(sessions, ip) == CountedSessions(st.manager.sessions, ip)
    {
    }
  }

  lemma DialingKeeps(limits: Limits, st: State, d: DialId, id: SessionId)
    requires Inv(limits, st) && d in st.dials && st.dials[d].phase.TypedGranted?
    requires id in st.manager.sessions && st.manager.sessions[id].clientIp.None? && NotDialing(st, id)
    ensures Inv(limits, SetPhase(st, d, TypedDialing(id))) && Steady(st, SetPhase(st, d, TypedDialing(id)))
  {
    var st1 := SetPhase(st, d, TypedDialing(id));
    assert st1.dials - {d} == st.dials - {d};
    forall ip
      ensures |Holding(st1.dials, ip)| == |Holding(st.dials, ip)|
    {
      HoldingSplit(st.dials, d, ip);
      HoldingSplit(st1.dials, d, ip);
    }
  }

  lemma BeginTypedKeeps(limits: Limits, st: State, d: DialId, now: int)
    requires Inv(limits, st) && d in st.dials && st.dials[d].phase.TypedGranted?
    ensures Inv(limits, BeginTyped(st, d, now))
    ensures Steady(st, BeginTyped(st, d, now))
  {
    CreateKeeps(limits, st);
    SessionIsNew(st, d);
    BeginAttached(limits, CreateSession(st), d, st.nextSession, now);
  }

  /** No dial is under way for the session that is about to be created. */
  predicate NotDialing(st: State, id: SessionId) {
    forall d <- st.dials :: st.dials[d].phase.TypedDialing? ==> st.dials[d].phase.session != id
  }

  lemma SessionIsNew(st: State, d: DialId)
    requires WellFormed(st) && d in st.dials && st.dials[d].phase.TypedGranted?
    ensures var st1 := CreateSession(st);
            && d in st1.dials && st1.dials[d].phase.TypedGranted? && NotDialing(st1, st.nextSession)
            && st.nextSession in st1.manager.sessions && st1.manager.sessions[st.nextSession].clientIp.None?
  {
  }

  /** The created session gets its socket, and the dial its session. */
  lemma BeginAttached(limits: Limits, st: State, d: DialId, id: SessionId, now: int)
    requires Inv(limits, st) && d in st.dials && st.dials[d].phase.TypedGranted?
    requires id in st.manager.sessions && st.manager.sessions[id].clientIp.None? && NotDialing(st, id)
    ensures Inv(limits, StartDialing(st, d, id, now)) && Steady(st, StartDialing(st, d, id, now))
  {
    var attached := Attach(st.manager, id, st.dials[d].socket, now);
    AttachKeepsMap(st.manager, id, st.dials[d].socket, now);
    SameCountingKeeps(limits, st, attached);
    DialingKeeps(limits, st.(manager := attached), d, id);
  }

  lemma DiscardKeeps(limits: Limits, st: State, id: SessionId, socketSession: map<Socket, SessionId>)
    requires Inv(limits, st) && NothingOverdrawn(st) && id in st.manager.sessions
    requires ClientsMapBack(Discard(st.manager, id).(socketSession := socketSession))
    ensures var st1 := st.(manager := Discard(st.manager, id).(socketSession := socketSession));
            Inv(limits, st1) && Steady(st, st1)
  {
    var st1 := st.(manager := Discard(st.manager, id).(socketSession := socketSession));
    match st.manager.sessions[id].clientIp {
      case Some(ip) =>
        SessionsSplit(st.manager.sessions, id, ip);
        assert Orphaned(st, ip) >= 0;
        DecrementMoves(st.manager.ledger, ip);
      case None =>
    }
    forall ip
      ensures Orphaned(st1, ip) == Orphaned(st, ip)
    {
      SessionsSplit(st.manager.sessions, id, ip);
    }
  }

  lemma RemoveKeeps(limits: Limits, st: State, id: SessionId)
    requires Inv(limits, st) && NothingOverdrawn(st)
    ensures var st1 := st.(manager := Remove(st.manager, id));
            Inv(limits, st1) && Steady(st, st1)
  {
    if id in st.manager.sessions {
      DiscardKeeps(limits, st, id, st.manager.socketSession - st.manager.sessions[id].clients);
    }
  }

  /** One dial lets go of its reservation while its address gains an established unit. */
  lemma PendingAfterHandOff(st: State, st1: State, d: DialId)
    requires PendingIsHeld(st) && d in st.dials && Holds(st.dials[d].phase)
    requires Moves(st.manager.ledger, st1.manager.ledger, st.dials[d].ip, 1, -1)
    requires st1.dials - {d} == st.dials - {d} && (d in st1.dials ==> !Holds(st1.dials[d].phase))
    ensures PendingIsHeld(st1)
  {
    forall ip
      ensures Count(st1.manager.ledger.pending, ip) == |Holding(st1.dials, ip)|
    {
      HoldingSplit(st.dials, d, ip);
      HoldingSplit(st1.dials, d, ip);
    }
  }

  /** The reservation becomes a counted session in one stretch. */
  lemma HandOffTypedKeeps(limits: Limits, st: State, d: DialId)
    requires Inv(limits, st) && d in st.dials && st.dials[d].phase.TypedDialing?
    requires st.dials[d].phase.session in st.manager.sessions
    ensures var dial := st.dials[d];
            var st1 := Forget(GiveBack(CountSession(st, dial.phase.session, dial.ip), dial.ip), d);
            Inv(limits, st1) && Steady(st, st1)
  {
    var ip, id := st.dials[d].ip, st.dials[d].phase.session;
    if ip == UNKNOWN {
      GiveUpKeeps(limits, st, d, st.dials - {d});
    } else {
      var st1 := Forget(GiveBack(CountSession(st, id, ip), ip), d);
      HoldingSplit(st.dials, d, ip);
      HandOffMoves(limits, st.manager.ledger, ip);
      HandOffSessionKeeps(limits, st, st1, d);
      SessionCounted(st, st1, id, ip);
    }
  }

  lemma HandOffSessionKeeps(limits: Limits, st: State, st1: State, d: DialId)
    requires Inv(limits, st) && d in st.dials && st.dials[d].phase.TypedDialing?
    requires var id := st.dials[d].phase.session;
             id in st.manager.sessions && st1.manager.sessions
             == st.manager.sessions[id := st.manager.sessions[id].(clientIp := Some(st.dials[d].ip))]
    requires st1.dials == st.dials - {d} && st1.manager.socketSession == st.manager.socketSession
    requires Balanced(st1.manager.ledger) && WithinLimits(limits, st1.manager.ledger)
    requires Moves(st.manager.ledger, st1.manager.ledger, st.dials[d].ip, 1, -1)
    requires st1.nextDial == st.nextDial && st1.nextSession == st.nextSession
    ensures Inv(limits, st1)
  {
    PendingAfterHandOff(st, st1, d);
  }

  lemma SessionCounted(st: State, st1: State, id: SessionId, ip: Ip)
    requires Moves(st.manager.ledger, st1.manager.ledger, ip, 1, -1) && st1.counted == st.counted
    requires id in st.manager.sessions && st.manager.sessions[id].clientIp.None?
    requires id in st1.manager.sessions && st1.manager.sessions[id].clientIp == Some(ip)
    requires st1.manager.sessions - {id} == st.manager.sessions - {id}
    ensures Steady(st, st1)
  {
    forall other
      ensures Orphaned(st1, other) == Orphaned(st, other)
    {
      SessionsSplit(st.manager.sessions, id, other);
      SessionsSplit(st1.manager.sessions, id, other);
    }
  }

  /** The reservation becomes a counted socket in one stretch; an older count of the same
      socket is lost. */
  lemma HandOffLegacyKeeps(limits: Limits, st: State, d: DialId)
    requires Inv(limits, st) && d in st.dials && st.dials[d].phase.LegacyGranted?
    ensures var dial := st.dials[d];
            var st1 := SetPhase(GiveBack(CountSocket(st, dial.socket, dial.ip), dial.ip), d, LegacyTransport);
            && Inv(limits, st1)
            && forall ip :: Orphaned(st1, ip) == Orphaned(st, ip)
                            + if dial.socket in st.counted && st.counted[dial.socket] == ip then 1 else 0
  {
    var ip, s := st.dials[d].ip, st.dials[d].socket;
    var st1 := SetPhase(GiveBack(CountSocket(st, s, ip), ip), d, LegacyTransport);
    if ip == UNKNOWN {
      HandOffUnknownKeeps(limits, st, d);
    } else {
      HoldingSplit(st.dials, d, ip);
      HandOffMoves(limits, st.manager.ledger, ip);
      HandOffSocketKeeps(limits, st, st1, d);
      assert st1.counted - {s} == st.counted - {s};
      SocketCounted(st, st1, s, ip);
    }
  }

  lemma HandOffUnknownKeeps(limits: Limits, st: State, d: DialId)
    requires Inv(limits, st) && d in st.dials && st.dials[d].phase.LegacyGranted? && st.dials[d].ip == UNKNOWN
    ensures var dial := st.dials[d];
            var st1 := SetPhase(GiveBack(CountSocket(st, dial.socket, dial.ip), dial.ip), d, LegacyTransport);
            && Inv(limits, st1)
            && forall ip :: Orphaned(st1, ip) == Orphaned(st, ip)
                            + if dial.socket in st.counted && st.counted[dial.socket] == ip then 1 else 0
  {
    var ip, s := st.dials[d].ip, st.dials[d].socket;
    var st1 := SetPhase(GiveBack(CountSocket(st, s, ip), ip), d, LegacyTransport);
    var uncounted := st.(counted := st.counted - {s});
    ReleaseMoves(st.manager.ledger, ip);
    GiveUpKeeps(limits, uncounted, d, st1.dials);
    assert st1.counted - {s} == st.counted - {s};
    SocketCounted(st, st1, s, ip);
  }

  lemma HandOffSocketKeeps(limits: Limits, st: State, st1: State, d: DialId)
    requires Inv(limits, st) && d in st.dials && st.dials[d].phase.LegacyGranted?
    requires st1.dials == st.dials[d := st.dials[d].(phase := LegacyTransport)]
    requires st1.manager == st.manager.(ledger := st1.manager.ledger)
    requires Balanced(st1.manager.ledger) && WithinLimits(limits, st1.manager.ledger)
    requires Moves(st.manager.ledger, st1.manager.ledger, st.dials[d].ip, 1, -1)
    requires st1.nextDial == st.nextDial && st1.nextSession == st.nextSession
    ensures Inv(limits, st1)
  {
    assert st1.dials - {d} == st.dials - {d};
    PendingAfterHandOff(st, st1, d);
  }

  lemma SocketCounted(st: State, st1: State, s: Socket, ip: Ip)
    requires st1.counted - {s} == st.counted - {s} && st1.manager.sessions == st.manager.sessions
    requires s in st1.counted ==> st1.counted[s] == ip
    requires forall other :: Count(st1.manager.ledger.established, other)
                             == Count(st.manager.ledger.established, other)
                                + if s in st1.counted && other == ip then 1 else 0
    ensures forall other :: Orphaned(st1, other) == Orphaned(st, other)
                            + if s in st.counted && st.counted[s] == other then 1 else 0
  {
    forall other
      ensures Orphaned(st1, other) == Orphaned(st, other) + if s in st.counted && st.counted[s] == other then 1 else 0
    {
      SocketsSplit(st.counted, s, other);
      SocketsSplit(st1.counted, s, other);
    }
  }

  lemma UncountKeeps(limits: Limits, st: State, s: Socket)
    requires Inv(limits, st) && NothingOverdrawn(st)
    ensures Inv(limits, UncountSocket(st, s))
    ensures Steady(st, UncountSocket(st, s))
  {
    if s in st.counted {
      var ip := st.counted[s];
      SocketsSplit(st.counted, s, ip);
      assert Orphaned(st, ip) >= 0;
      DecrementMoves(st.manager.ledger, ip);
      forall other
        ensures Orphaned(UncountSocket(st, s), other) == Orphaned(st, other)
      {
        SocketsSplit(st.counted, s, other);
      }
    }
  }

  /** Dropping a dial that holds nothing changes no count. */
  lemma ForgetKeeps(limits: Limits, st: State, d: DialId)
    requires Inv(limits, st) && d in st.dials && !Holds(st.dials[d].phase)
    ensures Inv(limits, Forget(st, d))
    ensures Steady(st, Forget(st, d))
  {
    forall ip
      ensures |Holding(Forget(st, d).dials, ip)| == |Holding(st.dials, ip)|
    {
      HoldingSplit(st.dials, d, ip);
    }
  }

  // ----- every step -----

  lemma ConnectTypedKeeps(limits: Limits, st: State, e: Event)
    requires Inv(limits, st) && e.TypedConnect?
    ensures Inv(limits, ConnectTyped(limits, st, e)) && Steady(st, ConnectTyped(limits, st, e))
  {
    if Decide(limits, st.manager.ledger, e.ip) == Allowed {
      var phase := if e.arbitrary then TypedResolving else TypedGranted;
      AdmitKeeps(limits, st, e.socket, e.ip, phase);
      if !e.arbitrary {
        BeginTypedKeeps(limits, Admit(limits, st, e.socket, e.ip, phase), st.nextDial, e.now);
      }
    }
  }

  lemma ConnectLegacyKeeps(limits: Limits, st: State, e: Event)
    requires Inv(limits, st) && e.LegacyConnect?
    ensures Inv(limits, ConnectLegacy(limits, st, e)) && Steady(st, ConnectLegacy(limits, st, e))
  {
    var st1 := st.(pendingTransport := st.pendingTransport[e.socket := st.nextDial]);
    OtherFieldsKeep(limits, st, st1);
    if e.targetAllowed && Decide(limits, st.manager.ledger, e.ip) == Allowed {
      AdmitKeeps(limits, st1, e.socket, e.ip, if e.arbitrary then LegacyResolving else LegacyGranted);
    } else {
      DeniedKeeps(limits, st1, Dial(e.socket, e.ip, LegacyDenied));
    }
  }

  lemma DeniedKeeps(limits: Limits, st: State, dial: Dial)
    requires Inv(limits, st) && dial.phase.LegacyDenied?
    ensures var st1 := st.(dials := st.dials[st.nextDial := dial], nextDial := st.nextDial + 1);
            Inv(limits, st1) && Steady(st, st1)
  {
    var dials := st.dials[st.nextDial := dial];
    assert dials - {st.nextDial} == st.dials - {st.nextDial};
    forall ip
      ensures |Holding(dials, ip)| == |Holding(st.dials, ip)|
    {
      HoldingSplit(st.dials, st.nextDial, ip);
      HoldingSplit(dials, st.nextDial, ip);
    }
  }

  lemma DialStepKeeps(limits: Limits, st: State, e: Event)
    requires Inv(limits, st) && NothingOverdrawn(st)
    requires e.Resolved? || e.StartTyped? || e.DialSucceeded? || e.DialFailed?
    ensures Kept(limits, st, e)
  {
    if e.dial in st.dials {
      var d := e.dial;
      var dial := st.dials[d];
      match e {
        case Resolved(_, permitted) => ResolveKeeps(limits, st, d, permitted);
        case StartTyped(_, now) =>
          if dial.phase.TypedGranted? {
            BeginTypedKeeps(limits, st, d, now);
          }
        case DialSucceeded(_) =>
          if dial.phase.TypedDialing? && dial.phase.session in st.manager.sessions {
            HandOffTypedKeeps(limits, st, d);
          }
        case DialFailed(_) =>
          if dial.phase.TypedDialing? {
            FailKeeps(limits, st, d);
          }
      }
    }
  }

  lemma ResolveKeeps(limits: Limits, st: State, d: DialId, permitted: bool)
    requires Inv(limits, st) && d in st.dials
    ensures Inv(limits, ResolveTarget(st, d, permitted)) && Steady(st, ResolveTarget(st, d, permitted))
  {
    var dial := st.dials[d];
    if dial.phase.TypedResolving? || dial.phase.LegacyResolving? {
      if permitted {
        RephaseKeeps(limits, st, d, if dial.phase.TypedResolving? then TypedGranted else LegacyGranted);
      } else {
        GiveUpKeeps(limits, st, d, if dial.phase.TypedResolving? then st.dials - {d}
                                   else st.dials[d := dial.(phase := LegacyDenied)]);
      }
    }
  }

  lemma FailKeeps(limits: Limits, st: State, d: DialId)
    requires Inv(limits, st) && NothingOverdrawn(st) && d in st.dials && st.dials[d].phase.TypedDialing?
    ensures var st1 := Step(limits, st, DialFailed(d)); Inv(limits, st1) && Steady(st, st1)
  {
    var st1 := Forget(GiveBack(st, st.dials[d].ip), d);
    GiveUpKeeps(limits, st, d, st.dials - {d});
    RemoveKeeps(limits, st1, st.dials[d].phase.session);
  }

  lemma ContinueLegacyKeeps(limits: Limits, st: State, d: DialId)
    requires Inv(limits, st) && d in st.dials
    ensures Inv(limits, LegacyContinuation(st, d))
    ensures forall ip :: Orphaned(LegacyContinuation(st, d), ip)
                         == Orphaned(st, ip) + if Recounts(st, ContinueLegacy(d), ip) then 1 else 0
  {
    var dial := st.dials[d];
    if dial.phase.LegacyDenied? {
      var cleared := ClearController(st, dial.socket, d);
      OtherFieldsKeep(limits, st, cleared);
      ForgetKeeps(limits, cleared, d);
    } else if dial.phase.LegacyGranted? {
      if d in st.aborted {
        GiveUpKeeps(limits, st, d, st.dials - {d});
      } else {
        HandOffLegacyKeeps(limits, st, d);
      }
    }
  }

  lemma TransportEndsKeeps(limits: Limits, st: State, d: DialId, connected: bool)
    requires Inv(limits, st) && d in st.dials
    ensures Inv(limits, TransportEnds(st, d, connected)) && Steady(st, TransportEnds(st, d, connected))
  {
    if st.dials[d].phase.LegacyTransport? && !(connected && d in st.aborted) {
      var forgotten := Forget(st, d);
      ForgetKeeps(limits, st, d);
      OtherFieldsKeep(limits, forgotten, TransportEnds(st, d, connected));
    }
  }

  lemma CloseSocketKeeps(limits: Limits, st: State, s: Socket, now: int)
    requires Inv(limits, st) && NothingOverdrawn(st)
    ensures Inv(limits, SocketCloses(st, s, now)) && Steady(st, SocketCloses(st, s, now))
  {
    if s in st.manager.socketSession {
      DetachKeepsMap(st.manager, s, now);
      SameCountingKeeps(limits, st, Detach(st.manager, s, now));
    } else {
      UncountKeeps(limits, st, s);
      OtherFieldsKeep(limits, UncountSocket(st, s), SocketCloses(st, s, now));
    }
  }

  lemma StepKeeps(limits: Limits, st: State, e: Event)
    requires Inv(limits, st) && NothingOverdrawn(st)
    ensures Kept(limits, st, e)
  {
    if e.TypedConnect? {
      ConnectTypedKeeps(limits, st, e);
    } else if e.LegacyConnect? {
      ConnectLegacyKeeps(limits, st, e);
    } else if e.Resolved? || e.StartTyped? || e.DialSucceeded? || e.DialFailed? {
      DialStepKeeps(limits, st, e);
    } else if e.ContinueLegacy? {
      if e.dial in st.dials {
        ContinueLegacyKeeps(limits, st, e.dial);
      }
    } else if e.TransportConnected? || e.TransportFailed? {
      if e.dial in st.dials {
        TransportEndsKeeps(limits, st, e.dial, e.TransportConnected?);
      }
    } else if e.Resume? {
      AttachKeepsMap(st.manager, e.session, e.socket, e.now);
      SameCountingKeeps(limits, st, Attach(st.manager, e.session, e.socket, e.now));
    } else if e.Disconnect? {
      if e.socket in st.manager.socketSession && st.manager.socketSession[e.socket] in st.manager.sessions {
        DiscardKeeps(limits, st, st.manager.socketSession[e.socket], st.manager.socketSession);
      }
    } else if e.RemoveSession? {
      RemoveKeeps(limits, st, e.session);
    } else if e.DropClient? {
      SameCountingKeeps(limits, st, Step(limits, st, e).manager);
    } else {
      CloseSocketKeeps(limits, st, e.socket, e.now);
    }
  }

  // ----- every run -----

  /** How often a run counts a socket for the address again before releasing it. */
  function Recounted(limits: Limits, st: State, events: seq<Event>, ip: Ip): nat
    decreases |events|
  {
    if events == [] then 0
    else
      (if Recounts(st, events[0], ip) then 1 else 0)
      + Recounted(limits, Step(limits, st, events[0]), events[1..], ip)
  }

  lemma {:induction false} RunKeeps(limits: Limits, st: State, events: seq<Event>)
    requires Inv(limits, st) && NothingOverdrawn(st)
    ensures Inv(limits, Run(limits, st, events))
    ensures forall ip :: Orphaned(Run(limits, st, events), ip)
                         == Orphaned(st, ip) + Recounted(limits, st, events, ip)
    decreases |events|
  {
    if events != [] {
      StepKeeps(limits, st, events[0]);
      RunKeeps(limits, Step(limits, st, events[0]), events[1..]);
    }
  }

  lemma InitiallyInv(limits: Limits)
    ensures Inv(limits, InitialState())
    ensures forall ip :: Orphaned(InitialState(), ip) == 0
  {
    forall ip
      ensures Holding(map[], ip) == {} && CountedSessions(map[], ip) == {} && CountedSockets(map[], ip) == {}
    {
    }
  }

  /** Over every interleaving of typed and legacy dials, failures, aborts, closes and
      removals: no address and no server goes over its limit, the running totals are the
      sums of their maps, and the reservations are exactly the dials in flight. */
  lemma CapacityBounded(limits: Limits, events: seq<Event>)
    ensures var st := Run(limits, InitialState(), events);
            && (forall ip :: Count(st.manager.ledger.established, ip) + Count(st.manager.ledger.pending, ip)
                             <= limits.maxPerIp)
            && (limits.maxGlobal.Some? ==>
                  st.manager.ledger.globalEstablished + st.manager.ledger.globalPending <= limits.maxGlobal.value)
            && st.manager.ledger.globalEstablished == Sum(st.manager.ledger.established)
            && st.manager.ledger.globalPending == Sum(st.manager.ledger.pending)
            && (forall ip :: Count(st.manager.ledger.pending, ip) == |Holding(st.dials, ip)|)
            && ClientsMapBack(st.manager)
  {
    InitiallyInv(limits);
    RunKeeps(limits, InitialState(), events);
  }

  /** Established capacity is owned, except for one unit per recount; so the ownership
      equation holds for an address exactly when no step of the run counted a socket
      again before giving its earlier count back. */
  lemma EstablishedIsOwned(limits: Limits, events: seq<Event>, ip: Ip)
    ensures var st := Run(limits, InitialState(), events);
            && Count(st.manager.ledger.established, ip)
               == Owners(st, ip) + Recounted(limits, InitialState(), events, ip)
            && (Count(st.manager.ledger.established, ip) == Owners(st, ip)
                <==> Recounted(limits, InitialState(), events, ip) == 0)
  {
    InitiallyInv(limits);
    RunKeeps(limits, InitialState(), events);
  }
}
