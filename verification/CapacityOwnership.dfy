/** When established capacity is owned to the last unit: a run with one legacy connect per
    socket, and a run with two that loses one unit. */
module CapacityOwnership {
  import opened Wrappers
  import opened CapacityLedger
  import opened CapacityProtocol
  import opened CapacityTheorems

  /** A legacy dial that may still count its socket. */
  predicate Awaiting(phase: Phase) {
    phase.LegacyResolving? || phase.LegacyGranted?
  }

  /** The socket is not counted and no dial is about to count it. */
  predicate Untouched(st: State, s: Socket) {
    s !in st.counted && forall d <- st.dials :: Awaiting(st.dials[d].phase) ==> st.dials[d].socket != s
  }

  /** No dial is about to count a socket that is counted, or that another dial will count. */
  predicate NoneTwice(st: State) {
    && (forall d <- st.dials :: d < st.nextDial)
    && (forall d <- st.dials :: Awaiting(st.dials[d].phase) ==> st.dials[d].socket !in st.counted)
    && (forall d <- st.dials, d1 <- st.dials ::
          d != d1 && Awaiting(st.dials[d].phase) && Awaiting(st.dials[d1].phase) ==>
            st.dials[d].socket != st.dials[d1].socket)
  }

  /** The sockets a run sends legacy connects on, each time once. */
  function LegacySockets(events: seq<Event>): set<Socket> {
    set i | 0 <= i < |events| && events[i].LegacyConnect? :: events[i].socket
  }

  predicate OneLegacyConnectPerSocket(events: seq<Event>) {
    forall i, j | 0 <= i < j < |events| ::
      events[i].LegacyConnect? && events[j].LegacyConnect? ==> events[i].socket != events[j].socket
  }

  /** No dial starts awaiting and no socket becomes counted. */
  predicate NothingNew(st: State, st1: State) {
    && st1.nextDial >= st.nextDial && st1.counted.Keys <= st.counted.Keys
    && (forall d <- st1.dials :: d < st1.nextDial
          && (Awaiting(st1.dials[d].phase) ==>
                d in st.dials && Awaiting(st.dials[d].phase) && st.dials[d].socket == st1.dials[d].socket))
  }

  lemma NothingNewKeeps(st: State, st1: State)
    requires NoneTwice(st) && NothingNew(st, st1)
    ensures NoneTwice(st1) && forall s :: Untouched(st, s) ==> Untouched(st1, s)
  {
  }

  lemma StepCountsOnce(limits: Limits, st: State, e: Event)
    requires NoneTwice(st) && (e.LegacyConnect? ==> Untouched(st, e.socket))
    ensures NoneTwice(Step(limits, st, e))
    ensures forall s :: Untouched(st, s) && (e.LegacyConnect? ==> s != e.socket) ==> Untouched(Step(limits, st, e), s)
    ensures forall ip :: !Recounts(st, e, ip)
  {
    if e.ContinueLegacy? {
      if e.dial in st.dials {
        ContinueCountsOnce(st, e.dial);
      }
    } else if e.LegacyConnect? {
      ConnectCountsOnce(limits, st, e);
    } else {
      assert NothingNew(st, Step(limits, st, e)) by { QuietStep(limits, st, e); }
      NothingNewKeeps(st, Step(limits, st, e));
    }
  }

  lemma QuietStep(limits: Limits, st: State, e: Event)
    requires NoneTwice(st) && !e.ContinueLegacy? && !e.LegacyConnect?
    ensures NothingNew(st, Step(limits, st, e))
  {
    match e {
      case Resolved(d, permitted) => if d in st.dials { QuietResolve(st, d, permitted); }
      case StartTyped(d, now) =>
        if d in st.dials && st.dials[d].phase.TypedGranted? { QuietBegin(st, d, now); }
      case TransportConnected(d) => if d in st.dials { QuietTransport(st, d, true); }
      case TransportFailed(d) => if d in st.dials { QuietTransport(st, d, false); }
      case DialSucceeded(d) => QuietSessionDial(limits, st, e);
      case DialFailed(d) => QuietSessionDial(limits, st, e);
      case TypedConnect(_, _, _, _, _) => QuietTyped(limits, st, e);
      case _ => QuietOther(limits, st, e);
    }
  }

  lemma QuietTyped(limits: Limits, st: State, e: Event)
    requires NoneTwice(st) && e.TypedConnect?
    ensures NothingNew(st, ConnectTyped(limits, st, e))
  {
  }

  lemma QuietOther(limits: Limits, st: State, e: Event)
    requires NoneTwice(st)
    requires e.Resume? || e.Disconnect? || e.RemoveSession? || e.DropClient? || e.CloseSocket?
    ensures NothingNew(st, Step(limits, st, e))
  {
    assert Step(limits, st, e).dials == st.dials;
  }

  /** The dial leaves, or moves to a phase that is not awaiting unless it was. */
  predicate OneDialMoves(st: State, st1: State, d: DialId) {
    && st1.counted == st.counted && st1.nextDial == st.nextDial
    && (st1.dials == st.dials - {d}
        || (d in st.dials && st1.dials.Keys == st.dials.Keys
            && (forall x <- st.dials :: x != d ==> st1.dials[x] == st.dials[x])
            && (Awaiting(st1.dials[d].phase) ==> Awaiting(st.dials[d].phase))
            && st1.dials[d].socket == st.dials[d].socket))
  }

  lemma QuietResolve(st: State, d: DialId, permitted: bool)
    requires NoneTwice(st) && d in st.dials
    ensures NothingNew(st, ResolveTarget(st, d, permitted))
  {
    if st.dials[d].phase.TypedResolving? || st.dials[d].phase.LegacyResolving? {
      DialMoveIsQuiet(st, ResolveTarget(st, d, permitted), d);
    }
  }

  lemma QuietBegin(st: State, d: DialId, now: int)
    requires NoneTwice(st) && d in st.dials
    ensures NothingNew(st, BeginTyped(st, d, now))
  {
    DialMoveIsQuiet(st, BeginTyped(st, d, now), d);
  }

  lemma QuietTransport(st: State, d: DialId, connected: bool)
    requires NoneTwice(st) && d in st.dials
    ensures NothingNew(st, TransportEnds(st, d, connected))
  {
  }

  lemma QuietSessionDial(limits: Limits, st: State, e: Event)
    requires NoneTwice(st) && (e.DialSucceeded? || e.DialFailed?)
    ensures NothingNew(st, Step(limits, st, e))
  {
    assert Step(limits, st, e).counted == st.counted;
  }

  lemma DialMoveIsQuiet(st: State, st1: State, d: DialId)
    requires NoneTwice(st) && OneDialMoves(st, st1, d)
    ensures NothingNew(st, st1)
  {
  }

  lemma ConnectCountsOnce(limits: Limits, st: State, e: Event)
    requires NoneTwice(st) && e.LegacyConnect? && Untouched(st, e.socket)
    ensures NoneTwice(ConnectLegacy(limits, st, e))
    ensures forall s :: Untouched(st, s) && s != e.socket ==> Untouched(ConnectLegacy(limits, st, e), s)
  {
  }

  lemma ContinueCountsOnce(st: State, d: DialId)
    requires NoneTwice(st) && d in st.dials
    ensures NoneTwice(LegacyContinuation(st, d))
    ensures forall s :: Untouched(st, s) ==> Untouched(LegacyContinuation(st, d), s)
  {
  }

  lemma {:induction false} RunCountsOnce(limits: Limits, st: State, events: seq<Event>, ip: Ip)
    requires NoneTwice(st) && OneLegacyConnectPerSocket(events)
    requires forall s <- LegacySockets(events) :: Untouched(st, s)
    ensures Recounted(limits, st, events, ip) == 0
    decreases |events|
  {
    if events != [] {
      var e, rest := events[0], events[1..];
      assert e.LegacyConnect? ==> e.socket in LegacySockets(events);
      StepCountsOnce(limits, st, e);
      forall s | s in LegacySockets(rest)
        ensures Untouched(Step(limits, st, e), s)
      {
        var i :| 0 <= i < |rest| && rest[i].LegacyConnect? && rest[i].socket == s;
        assert events[i + 1] == rest[i];
      }
      assert forall i | 0 <= i < |rest| :: rest[i] == events[i + 1];
      RunCountsOnce(limits, Step(limits, st, e), rest, ip);
    }
  }

  /** With at most one legacy connect per socket, the established count of every address
      is the number of stored sessions and of sockets, open or closed, counted for it. */
  lemma OneConnectPerSocketIsOwned(limits: Limits, events: seq<Event>, ip: Ip)
    requires OneLegacyConnectPerSocket(events)
    ensures var st := Run(limits, InitialState(), events);
            Count(st.manager.ledger.established, ip) == Owners(st, ip)
  {
    RunCountsOnce(limits, InitialState(), events, ip);
    EstablishedIsOwned(limits, events, ip);
  }

  // ----- when a closing socket gives its count back -----

  /** What closing does to a socket that is counted for its address. */
  predicate GivesBack(st: State, st1: State, s: Socket, ip: Ip) {
    s !in st1.counted && Count(st1.manager.ledger.established, ip) == Count(st.manager.ledger.established, ip) - 1
  }

  predicate KeepsCount(st: State, st1: State, s: Socket) {
    st1.counted == st.counted && st1.manager.ledger == st.manager.ledger && s !in st1.manager.socketSession
  }

  /** After any run a closing legacy socket gives its count back exactly when it is not
      attached to a session; an attached one stays counted with its socket gone. */
  lemma ClosingGivesBackExactlyUnattached(limits: Limits, events: seq<Event>, s: Socket, now: int)
    requires s in Run(limits, InitialState(), events).counted
    ensures var st := Run(limits, InitialState(), events);
            var st1 := Step(limits, st, CloseSocket(s, now));
            && (GivesBack(st, st1, s, st.counted[s]) <==> s !in st.manager.socketSession)
            && (KeepsCount(st, st1, s) <==> s in st.manager.socketSession)
  {
    var st := Run(limits, InitialState(), events);
    EstablishedIsOwned(limits, events, st.counted[s]);
    assert s in CountedSockets(st.counted, st.counted[s]);
    ClosingAttachedOrNot(st, s, now);
  }

  lemma ClosingAttachedOrNot(st: State, s: Socket, now: int)
    requires s in st.counted && Count(st.manager.ledger.established, st.counted[s]) > 0
    ensures var st1 := SocketCloses(st, s, now);
            if s in st.manager.socketSession then KeepsCount(st, st1, s) else GivesBack(st, st1, s, st.counted[s])
  {
  }

  /** The state of a run on socket 7 alone. */
  function Alone(dials: map<DialId, Dial>, counted: map<Socket, Ip>, waiting: map<Socket, DialId>, ledger: Ledger,
                 nextDial: nat): State {
    State(Manager(ledger, map[], map[]), dials, counted, waiting, {}, {}, nextDial, 0)
  }

  function OnlyEstablished(ip: Ip, n: nat): Ledger {
    Ledger(if n == 0 then map[] else map[ip := n], map[], n, 0)
  }

  lemma ConnectAlone(ip: Ip, counted: map<Socket, Ip>, n: nat, d: DialId)
    requires n < 10
    ensures var st := Alone(map[], counted, map[], OnlyEstablished(ip, n), d);
            Step(Limits(10, None), st, LegacyConnect(7, ip, true, false))
            == Alone(map[d := Dial(7, ip, LegacyGranted)], counted, map[7 := d],
                     OnlyEstablished(ip, n).(pending := map[ip := 1], globalPending := 1), d + 1)
  {
  }

  lemma ContinueAlone(ip: Ip, counted: map<Socket, Ip>, n: nat, d: DialId)
    requires ip != UNKNOWN && counted.Keys <= {7}
    ensures var st := Alone(map[d := Dial(7, ip, LegacyGranted)], counted, map[7 := d],
                            OnlyEstablished(ip, n).(pending := map[ip := 1], globalPending := 1), d + 1);
            Step(Limits(10, None), st, ContinueLegacy(d))
            == Alone(map[d := Dial(7, ip, LegacyTransport)], map[7 := ip], map[7 := d],
                     OnlyEstablished(ip, n + 1), d + 1)
  {
    var l := OnlyEstablished(ip, n).(pending := map[ip := 1], globalPending := 1);
    assert Release(Increment(l, ip), ip).pending == map[];
    assert Release(Increment(l, ip), ip) == OnlyEstablished(ip, n + 1);
  }

  lemma FailAlone(ip: Ip, n: nat, d: DialId)
    ensures var st := Alone(map[d := Dial(7, ip, LegacyTransport)], map[7 := ip], map[7 := d],
                            OnlyEstablished(ip, n), d + 1);
            Step(Limits(10, None), st, TransportFailed(d))
            == Alone(map[], map[7 := ip], map[], OnlyEstablished(ip, n), d + 1)
  {
    var st := Alone(map[d := Dial(7, ip, LegacyTransport)], map[7 := ip], map[7 := d], OnlyEstablished(ip, n), d + 1);
    assert st.pendingTransport - {7} == map[];
    assert st.dials - {d} == map[];
  }

  /** The socket's first legacy connect, up to where it is counted. */
  lemma CountedAlone(ip: Ip) returns (st: State)
    requires ip != UNKNOWN
    ensures st == Alone(map[0 := Dial(7, ip, LegacyTransport)], map[7 := ip], map[7 := 0], OnlyEstablished(ip, 1), 1)
    ensures st == Step(Limits(10, None), Step(Limits(10, None), InitialState(), LegacyConnect(7, ip, true, false)),
                       ContinueLegacy(0))
    ensures 7 in st.counted && st.manager.socketSession == map[] && Count(st.manager.ledger.established, ip) == 1
    ensures Decide(Limits(10, None), st.manager.ledger, ip) == Allowed
  {
    ConnectAlone(ip, map[], 0, 0);
    ContinueAlone(ip, map[], 0, 0);
    st := Step(Limits(10, None), Step(Limits(10, None), InitialState(), LegacyConnect(7, ip, true, false)),
               ContinueLegacy(0));
  }

  /** Its dial fails and it connects again, before the delayed close. */
  lemma CountedTwice(ip: Ip, st: State)
    requires ip != UNKNOWN
    requires st == Alone(map[0 := Dial(7, ip, LegacyTransport)], map[7 := ip], map[7 := 0], OnlyEstablished(ip, 1), 1)
    ensures Step(Limits(10, None), Step(Limits(10, None), Step(Limits(10, None), st, TransportFailed(0)),
                 LegacyConnect(7, ip, true, false)), ContinueLegacy(1))
         == Alone(map[1 := Dial(7, ip, LegacyTransport)], map[7 := ip], map[7 := 1], OnlyEstablished(ip, 2), 2)
  {
    FailAlone(ip, 1, 0);
    ConnectAlone(ip, map[7 := ip], 1, 1);
    ContinueAlone(ip, map[7 := ip], 1, 1);
  }

  /** A failed first dial leaves its socket counted until the delayed close; a second
      connect in that time counts the address again and one unit is left with no owner. */
  lemma SecondConnectOrphans(ip: Ip)
    requires ip != UNKNOWN
    ensures var events := [LegacyConnect(7, ip, true, false), ContinueLegacy(0), TransportFailed(0),
                           LegacyConnect(7, ip, true, false), ContinueLegacy(1)];
            var st := Run(Limits(10, None), InitialState(), events);
            Count(st.manager.ledger.established, ip) == 2 && Owners(st, ip) == 1
  {
    var e := [LegacyConnect(7, ip, true, false), ContinueLegacy(0), TransportFailed(0),
              LegacyConnect(7, ip, true, false), ContinueLegacy(1)];
    var st2 := CountedAlone(ip);
    CountedTwice(ip, st2);
    RunFive(Limits(10, None), InitialState(), e);
    var st := Run(Limits(10, None), InitialState(), e);
    assert CountedSessions(st.manager.sessions, ip) == {} && CountedSockets(st.counted, ip) == {7};
  }

  lemma RunFive(limits: Limits, st: State, e: seq<Event>)
    requires |e| == 5
    ensures Run(limits, st, e)
         == Step(limits, Step(limits, Step(limits, Step(limits, Step(limits, st, e[0]), e[1]), e[2]), e[3]), e[4])
  {
    RunFour(limits, Step(limits, st, e[0]), e[1..]);
  }

  lemma RunFour(limits: Limits, st: State, e: seq<Event>)
    requires |e| == 4
    ensures Run(limits, st, e) == Step(limits, Step(limits, Step(limits, Step(limits, st, e[0]), e[1]), e[2]), e[3])
  {
    RunTwo(limits, st, e[0], e[1], e[2..]);
    RunTwo(limits, Step(limits, Step(limits, st, e[0]), e[1]), e[2], e[3], []);
    assert e == [e[0], e[1]] + e[2..] && e[2..] == [e[2], e[3]] + [];
  }

  lemma RunTwo(limits: Limits, st: State, a: Event, b: Event, rest: seq<Event>)
    ensures Run(limits, st, [a, b] + rest) == Run(limits, Step(limits, Step(limits, st, a), b), rest)
  {
    var es := [a, b] + rest;
    assert es[1..] == [b] + rest && es[1..][1..] == rest;
  }

  // ----- a counted socket that is never given back -----

  lemma AttachedThenClosed(st: State, ip: Ip, now: int)
    requires 7 in st.counted && st.counted[7] == ip && st.manager.socketSession == map[]
    requires Count(st.manager.ledger.established, ip) == 1
    requires Decide(Limits(10, None), st.manager.ledger, ip) == Allowed
    ensures var st1 := Step(Limits(10, None), Step(Limits(10, None), st, TypedConnect(7, ip, true, false, now)),
                            CloseSocket(7, now));
            7 in st1.counted && 7 !in st1.manager.socketSession && Count(st1.manager.ledger.established, ip) == 1
  {
    var st1 := Step(Limits(10, None), st, TypedConnect(7, ip, true, false, now));
    assert 7 in st1.manager.socketSession && st1.counted == st.counted;
    ClosingAttachedOrNot(st1, 7, now);
  }

  /** A typed connect on a socket with a counted legacy connection attaches it, so its
      close no longer gives the count back: the unit stays with a socket that is gone. */
  lemma AttachedSocketStaysCounted(ip: Ip, now: int)
    requires ip != UNKNOWN
    ensures var events := [LegacyConnect(7, ip, true, false), ContinueLegacy(0),
                           TypedConnect(7, ip, true, false, now), CloseSocket(7, now)];
            var st := Run(Limits(10, None), InitialState(), events);
            && 7 in st.counted && 7 !in st.manager.socketSession && Count(st.manager.ledger.established, ip) == 1
            && OneLegacyConnectPerSocket(events)
  {
    var e := [LegacyConnect(7, ip, true, false), ContinueLegacy(0),
              TypedConnect(7, ip, true, false, now), CloseSocket(7, now)];
    var st := CountedAlone(ip);
    AttachedThenClosed(st, ip, now);
    RunFour(Limits(10, None), InitialState(), e);
  }
}
