/** The capacity protocol as a step system.  Each event is one synchronous stretch of a
    handler; any order of events is a run, so many dials of both wire protocols can be in
    flight at once.  An event whose guard fails (a dial that is gone, a session that is
    no longer stored) leaves the state as it is, as the handler does. */
module CapacityProtocol {
  import opened Wrappers
  import opened CapacityLedger

  type SessionId = nat
  type Socket = nat
  type DialId = nat

  datatype Session = Session(clientIp: Option<Ip>, clients: set<Socket>, clientlessSince: Option<int>)

  /** The session manager: its counters, its stored sessions and its socket map. */
  datatype Manager = Manager(
    ledger: Ledger, sessions: map<SessionId, Session>, socketSession: map<Socket, SessionId>)

  /** Where a dial stands between two awaits. */
  datatype Phase =
    | TypedResolving
    | TypedGranted
    | TypedDialing(session: SessionId)
    | LegacyResolving
    | LegacyGranted
    | LegacyDenied
    | LegacyTransport

  datatype Dial = Dial(socket: Socket, ip: Ip, phase: Phase)

  /** counted: the sockets whose legacyCountedIp is set; pendingTransport: those with an
      abort controller, named by its dial; upstream: those with an upstream socket. */
  datatype State = State(
    manager: Manager, dials: map<DialId, Dial>, counted: map<Socket, Ip>,
    pendingTransport: map<Socket, DialId>, upstream: set<Socket>, aborted: set<DialId>,
    nextDial: DialId, nextSession: SessionId)

  datatype Event =
    | TypedConnect(socket: Socket, ip: Ip, targetAllowed: bool, arbitrary: bool, now: int)
    | LegacyConnect(socket: Socket, ip: Ip, targetAllowed: bool, arbitrary: bool)
    | Resolved(dial: DialId, permitted: bool)
    | StartTyped(dial: DialId, now: int)
    | DialSucceeded(dial: DialId)
    | DialFailed(dial: DialId)
    | ContinueLegacy(dial: DialId)
    | TransportConnected(dial: DialId)
    | TransportFailed(dial: DialId)
    | Resume(socket: Socket, session: SessionId, now: int)
    | Disconnect(socket: Socket)
    | RemoveSession(session: SessionId)
    | DropClient(session: SessionId, socket: Socket)
    | CloseSocket(socket: Socket, now: int)

  function InitialState(): State {
    State(Manager(EmptyLedger(), map[], map[]), map[], map[], map[], {}, {}, 0, 0)
  }

  /** A dial owns a pending reservation from the moment it is admitted until it is
      counted as established or given up. */
  predicate Holds(phase: Phase) {
    !phase.LegacyDenied? && !phase.LegacyTransport?
  }

  // ----- the session manager -----

  function WithoutClient(s: Session, ws: Socket, now: int): Session {
    var clients := s.clients - {ws};
    s.(clients := clients, clientlessSince := if clients == {} then Some(now) else None)
  }

  function WithClient(s: Session, ws: Socket): Session {
    s.(clients := s.clients + {ws}, clientlessSince := None)
  }

  /** The session the socket is mapped to, if it is still stored, loses this client. */
  function LeaveSession(m: Manager, ws: Socket, now: int): Manager {
    if ws in m.socketSession && m.socketSession[ws] in m.sessions then
      var id := m.socketSession[ws];
      m.(sessions := m.sessions[id := WithoutClient(m.sessions[id], ws, now)])
    else m
  }

  function Attach(m: Manager, id: SessionId, ws: Socket, now: int): Manager {
    if id !in m.sessions then m
    else
      var left := LeaveSession(m, ws, now);
      left.(sessions := left.sessions[id := WithClient(left.sessions[id], ws)],
            socketSession := left.socketSession[ws := id])
  }

  function Detach(m: Manager, ws: Socket, now: int): Manager {
    LeaveSession(m, ws, now).(socketSession := m.socketSession - {ws})
  }

  /** Take a session out of the store and give its counted address back. */
  function Discard(m: Manager, id: SessionId): Manager {
    if id !in m.sessions then m
    else
      m.(ledger := match m.sessions[id].clientIp
                   case Some(ip) => Decrement(m.ledger, ip)
                   case None => m.ledger,
         sessions := m.sessions - {id})
  }

  function Remove(m: Manager, id: SessionId): Manager {
    if id !in m.sessions then m
    else Discard(m, id).(socketSession := m.socketSession - m.sessions[id].clients)
  }

  // ----- one stretch of each handler -----

  function SetPhase(st: State, d: DialId, phase: Phase): State
    requires d in st.dials
  {
    st.(dials := st.dials[d := st.dials[d].(phase := phase)])
  }

  function Admit(limits: Limits, st: State, socket: Socket, ip: Ip, phase: Phase): State {
    st.(manager := st.manager.(ledger := Reserve(limits, st.manager.ledger, ip)),
        dials := st.dials[st.nextDial := Dial(socket, ip, phase)],
        nextDial := st.nextDial + 1)
  }

  function GiveBack(st: State, ip: Ip): State {
    st.(manager := st.manager.(ledger := Release(st.manager.ledger, ip)))
  }

  function Forget(st: State, d: DialId): State {
    st.(dials := st.dials - {d})
  }

  function CreateSession(st: State): State {
    st.(manager := st.manager.(sessions := st.manager.sessions[st.nextSession := Session(None, {}, None)]),
        nextSession := st.nextSession + 1)
  }

  /** Attach the socket to a session and start its upstream connect. */
  function StartDialing(st: State, d: DialId, id: SessionId, now: int): State
    requires d in st.dials
  {
    SetPhase(st.(manager := Attach(st.manager, id, st.dials[d].socket, now)), d, TypedDialing(id))
  }

  /** Create the session, attach the socket, start the upstream connect. */
  function BeginTyped(st: State, d: DialId, now: int): State
    requires d in st.dials
  {
    StartDialing(CreateSession(st), d, st.nextSession, now)
  }

  function CountSession(st: State, id: SessionId, ip: Ip): State {
    if ip == UNKNOWN || id !in st.manager.sessions then st
    else
      st.(manager := st.manager.(
            ledger := Increment(st.manager.ledger, ip),
            sessions := st.manager.sessions[id := st.manager.sessions[id].(clientIp := Some(ip))]))
  }

  function CountSocket(st: State, socket: Socket, ip: Ip): State {
    if ip == UNKNOWN then st.(counted := st.counted - {socket})
    else
      st.(counted := st.counted[socket := ip],
          manager := st.manager.(ledger := Increment(st.manager.ledger, ip)))
  }

  function UncountSocket(st: State, socket: Socket): State {
    if socket !in st.counted then st
    else
      st.(counted := st.counted - {socket},
          manager := st.manager.(ledger := Decrement(st.manager.ledger, st.counted[socket])))
  }

  /** Clear the socket's controller if it is still this dial's. */
  function ClearController(st: State, socket: Socket, d: DialId): State {
    if socket in st.pendingTransport && st.pendingTransport[socket] == d
    then st.(pendingTransport := st.pendingTransport - {socket})
    else st
  }

  function ConnectTyped(limits: Limits, st: State, e: Event): State
    requires e.TypedConnect?
  {
    if e.socket in st.manager.socketSession || !e.targetAllowed
       || Decide(limits, st.manager.ledger, e.ip) != Allowed then st
    else if e.arbitrary then Admit(limits, st, e.socket, e.ip, TypedResolving)
    else BeginTyped(Admit(limits, st, e.socket, e.ip, TypedGranted), st.nextDial, e.now)
  }

  function ConnectLegacy(limits: Limits, st: State, e: Event): State
    requires e.LegacyConnect?
  {
    if e.socket in st.upstream || e.socket in st.pendingTransport || e.socket in st.manager.socketSession then st
    else
      var st1 := st.(pendingTransport := st.pendingTransport[e.socket := st.nextDial]);
      if e.targetAllowed && Decide(limits, st.manager.ledger, e.ip) == Allowed
      then Admit(limits, st1, e.socket, e.ip, if e.arbitrary then LegacyResolving else LegacyGranted)
      else st1.(dials := st.dials[st.nextDial := Dial(e.socket, e.ip, LegacyDenied)], nextDial := st.nextDial + 1)
  }

  function ResolveTarget(st: State, d: DialId, permitted: bool): State
    requires d in st.dials
  {
    match st.dials[d].phase
    case TypedResolving =>
      if permitted then SetPhase(st, d, TypedGranted) else Forget(GiveBack(st, st.dials[d].ip), d)
    case LegacyResolving =>
      if permitted then SetPhase(st, d, LegacyGranted) else SetPhase(GiveBack(st, st.dials[d].ip), d, LegacyDenied)
    case _ => st
  }

  function LegacyContinuation(st: State, d: DialId): State
    requires d in st.dials
  {
    var dial := st.dials[d];
    match dial.phase
    case LegacyDenied => Forget(ClearController(st, dial.socket, d), d)
    case LegacyGranted =>
      if d in st.aborted then Forget(GiveBack(st, dial.ip), d)
      else SetPhase(GiveBack(CountSocket(st, dial.socket, dial.ip), dial.ip), d, LegacyTransport)
    case _ => st
  }

  function TransportEnds(st: State, d: DialId, connected: bool): State
    requires d in st.dials
  {
    var dial := st.dials[d];
    if !dial.phase.LegacyTransport? || (connected && d in st.aborted) then st
    else
      var st1 := Forget(if d in st.aborted then st else ClearController(st, dial.socket, d), d);
      if connected then st1.(upstream := st1.upstream + {dial.socket}) else st1
  }

  function SocketCloses(st: State, s: Socket, now: int): State {
    if s in st.manager.socketSession then st.(manager := Detach(st.manager, s, now))
    else
      var st1 := UncountSocket(st, s);
      var st2 := if s !in st1.upstream && s in st1.pendingTransport
                 then st1.(aborted := st1.aborted + {st1.pendingTransport[s]},
                           pendingTransport := st1.pendingTransport - {s})
                 else st1;
      st2.(upstream := st2.upstream - {s})
  }

  function Step(limits: Limits, st: State, e: Event): State {
    match e
    case TypedConnect(_, _, _, _, _) => ConnectTyped(limits, st, e)
    case LegacyConnect(_, _, _, _) => ConnectLegacy(limits, st, e)
    case Resolved(d, permitted) => if d in st.dials then ResolveTarget(st, d, permitted) else st
    case StartTyped(d, now) =>
      if d in st.dials && st.dials[d].phase.TypedGranted? then BeginTyped(st, d, now) else st
    case DialSucceeded(d) =>
      // A session taken out of the store has aborted its dial, which can then only fail.
      if d in st.dials && st.dials[d].phase.TypedDialing? && st.dials[d].phase.session in st.manager.sessions
      then Forget(GiveBack(CountSession(st, st.dials[d].phase.session, st.dials[d].ip), st.dials[d].ip), d)
      else st
    case DialFailed(d) =>
      if d in st.dials && st.dials[d].phase.TypedDialing? then
        var st1 := GiveBack(st, st.dials[d].ip);
        Forget(st1.(manager := Remove(st1.manager, st.dials[d].phase.session)), d)
      else st
    case ContinueLegacy(d) => if d in st.dials then LegacyContinuation(st, d) else st
    case TransportConnected(d) => if d in st.dials then TransportEnds(st, d, true) else st
    case TransportFailed(d) => if d in st.dials then TransportEnds(st, d, false) else st
    case Resume(s, id, now) => st.(manager := Attach(st.manager, id, s, now))
    case Disconnect(s) =>
      // The session is closed first, so its clients are gone when it is removed and the
      // socket map keeps its entries.
      if s in st.manager.socketSession then st.(manager := Discard(st.manager, st.manager.socketSession[s])) else st
    case RemoveSession(id) => st.(manager := Remove(st.manager, id))
    case DropClient(id, s) =>
      if id in st.manager.sessions then
        var session := st.manager.sessions[id];
        st.(manager := st.manager.(sessions := st.manager.sessions[id := session.(clients := session.clients - {s})]))
      else st
    case CloseSocket(s, now) => SocketCloses(st, s, now)
  }

  function Run(limits: Limits, st: State, events: seq<Event>): State
    decreases |events|
  {
    if events == [] then st else Run(limits, Step(limits, st, events[0]), events[1..])
  }
}
