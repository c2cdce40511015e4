/** The session manager and the handlers around it as objects updated in place, proved
    against CapacityProtocol: every method is one step of the protocol. */
module SessionManagement {
  import opened Wrappers
  import opened CapacityLedger
  import opened CapacityProtocol

  /** No client for strictly longer than the grace window. */
  predicate Expired(s: Session, now: int, graceMs: int) {
    s.clients == {} && s.clientlessSince.Some? && now - s.clientlessSince.value > graceMs
  }

  function RemoveAll(m: Manager, ids: seq<SessionId>): Manager
    decreases |ids|
  {
    if ids == [] then m else RemoveAll(Remove(m, ids[0]), ids[1..])
  }

  lemma {:induction false} RemoveAllTakes(m: Manager, ids: seq<SessionId>)
    ensures RemoveAll(m, ids).sessions.Keys == m.sessions.Keys - (set id | id in ids)
    ensures forall id <- RemoveAll(m, ids).sessions :: RemoveAll(m, ids).sessions[id] == m.sessions[id]
    decreases |ids|
  {
    if ids != [] {
      RemoveAllTakes(Remove(m, ids[0]), ids[1..]);
      assert (set id | id in ids) == {ids[0]} + set id | id in ids[1..];
    }
  }

  /** Removing, in any order, the sessions a reap names keeps every session that has a client
      or lost its last one no longer ago than the grace window, as it was, and no other. */
  lemma ReapKeepsTheRest(m: Manager, order: seq<SessionId>, now: int, graceMs: int)
    requires forall id :: id in order <==> id in m.sessions && Expired(m.sessions[id], now, graceMs)
    ensures forall id :: id in RemoveAll(m, order).sessions
                    <==> id in m.sessions
                         && (m.sessions[id].clients == {} && m.sessions[id].clientlessSince.Some? ==>
                               now <= m.sessions[id].clientlessSince.value + graceMs)
    ensures forall id <- RemoveAll(m, order).sessions :: RemoveAll(m, order).sessions[id] == m.sessions[id]
  {
    RemoveAllTakes(m, order);
  }

  datatype ResumeAnswer = InvalidResume | SessionExpired | SessionResumed

  class SessionManager {
    var sessions: map<SessionId, Session>
    var socketToSession: map<Socket, SessionId>
    var ipConnections: map<Ip, nat>
    var pendingDialCounts: map<Ip, nat>
    var globalEstablished: nat
    var globalPendingCount: nat
    const maxPerIp: nat
    const maxGlobal: Option<nat>
    const resumeGraceMs: Option<int>

    constructor (maxPerIp: nat, maxGlobal: Option<nat>, resumeGraceMs: Option<int>)
      ensures View() == InitialState().manager
      ensures Config() == Limits(maxPerIp, maxGlobal) && this.resumeGraceMs == resumeGraceMs
    {
      this.maxPerIp, this.maxGlobal, this.resumeGraceMs := maxPerIp, maxGlobal, resumeGraceMs;
      sessions, socketToSession, ipConnections, pendingDialCounts := map[], map[], map[], map[];
      globalEstablished, globalPendingCount := 0, 0;
    }

    ghost function Config(): Limits { Limits(maxPerIp, maxGlobal) }

    ghost function Counters(): Ledger
      reads this
    {
      Ledger(ipConnections, pendingDialCounts, globalEstablished, globalPendingCount)
    }

    ghost function View(): Manager
      reads this
    {
      Manager(Counters(), sessions, socketToSession)
    }

    method ReservePendingDial(ip: Ip) returns (decision: Decision)
      modifies this
      ensures decision == Decide(Config(), old(Counters()), ip)
      ensures View() == old(View()).(ledger := Reserve(Config(), old(Counters()), ip))
      ensures decision == AddressFull <==>
                old(Count(ipConnections, ip) + Count(pendingDialCounts, ip)) >= maxPerIp
      ensures decision == ServerFull <==>
                && old(Count(ipConnections, ip) + Count(pendingDialCounts, ip)) < maxPerIp
                && maxGlobal.Some? && old(globalEstablished + globalPendingCount) >= maxGlobal.value
      ensures Count(pendingDialCounts, ip)
           == old(Count(pendingDialCounts, ip)) + if decision == Allowed then 1 else 0
    {
      var established := if ip in ipConnections then ipConnections[ip] else 0;
      var pending := if ip in pendingDialCounts then pendingDialCounts[ip] else 0;
      if established + pending >= maxPerIp {
        return AddressFull;
      }
      if maxGlobal.Some? && globalEstablished + globalPendingCount >= maxGlobal.value {
        return ServerFull;
      }
      pendingDialCounts := pendingDialCounts[ip := pending + 1];
      globalPendingCount := globalPendingCount + 1;
      return Allowed;
    }

    method ReleasePendingDial(ip: Ip)
      modifies this
      ensures View() == old(View()).(ledger := Release(old(Counters()), ip))
    {
      var pending := if ip in pendingDialCounts then pendingDialCounts[ip] else 0;
      if pending <= 0 {
        return;
      }
      if pending == 1 {
        pendingDialCounts := pendingDialCounts - {ip};
      } else {
        pendingDialCounts := pendingDialCounts[ip := pending - 1];
      }
      if globalPendingCount > 0 {
        globalPendingCount := globalPendingCount - 1;
      }
    }

    method IncrementIPCount(ip: Ip)
      modifies this
      ensures View() == old(View()).(ledger := Increment(old(Counters()), ip))
    {
      var count := if ip in ipConnections then ipConnections[ip] else 0;
      ipConnections := ipConnections[ip := count + 1];
      globalEstablished := globalEstablished + 1;
    }

    method DecrementIPCount(ip: Ip)
      modifies this
      ensures View() == old(View()).(ledger := Decrement(old(Counters()), ip))
    {
      var count := if ip in ipConnections then ipConnections[ip] else 0;
      if count > 0 && globalEstablished > 0 {
        globalEstablished := globalEstablished - 1;
      }
      if count > 1 {
        ipConnections := ipConnections[ip := count - 1];
      } else {
        ipConnections := ipConnections - {ip};
      }
    }

    /** The session object the socket is mapped to loses this client. */
    method DetachClient(ws: Socket, now: int)
      modifies this`sessions
      ensures View() == LeaveSession(old(View()), ws, now)
    {
      if ws in socketToSession && socketToSession[ws] in sessions {
        var id := socketToSession[ws];
        var clients := sessions[id].clients - {ws};
        sessions := sessions[id := sessions[id].(
          clients := clients, clientlessSince := if clients == {} then Some(now) else None)];
      }
    }

    /** tokenMatches: whether the presented token is the stored session's. */
    method ValidateToken(id: SessionId, tokenMatches: bool) returns (valid: bool)
      ensures valid <==> id in sessions && tokenMatches
    {
      if id !in sessions {
        return false;
      }
      return tokenMatches;
    }

    method AttachWebSocket(id: SessionId, ws: Socket, now: int) returns (attached: bool)
      modifies this
      ensures attached == (id in old(sessions))
      ensures View() == Attach(old(View()), id, ws, now)
    {
      if id !in sessions {
        return false;
      }
      DetachClient(ws, now);
      sessions := sessions[id := sessions[id].(clients := sessions[id].clients + {ws}, clientlessSince := None)];
      socketToSession := socketToSession[ws := id];
      return true;
    }

    method DetachWebSocket(ws: Socket, now: int)
      modifies this
      ensures View() == Detach(old(View()), ws, now)
    {
      if ws in socketToSession {
        DetachClient(ws, now);
        socketToSession := socketToSession - {ws};
      } else {
        assert socketToSession - {ws} == socketToSession;
      }
    }

    method RemoveSession(id: SessionId)
      modifies this
      ensures View() == Remove(old(View()), id)
    {
      if id !in sessions {
        return;
      }
      if sessions[id].clientIp.Some? {
        DecrementIPCount(sessions[id].clientIp.value);
      }
      var clients := sessions[id].clients;
      ghost var before := socketToSession;
      assert before - {} == before;
      while clients != {}
        modifies this`socketToSession
        invariant clients <= sessions[id].clients
        invariant socketToSession == before - (sessions[id].clients - clients)
        decreases |clients|
      {
        var client :| client in clients;
        socketToSession := socketToSession - {client};
        clients := clients - {client};
      }
      sessions := sessions - {id};
    }

    /** Remove every session whose grace window has passed, and no other; the order in
        which they go is reported so that the removals can be read as protocol steps. */
    method ReapClientlessSessions(now: int) returns (removed: nat, ghost order: seq<SessionId>)
      modifies this
      ensures View() == RemoveAll(old(View()), order) && removed == |order|
      ensures resumeGraceMs.None? ==> order == []
      ensures resumeGraceMs.Some? ==>
                forall id :: id in order <==>
                  id in old(sessions) && Expired(old(sessions)[id], now, resumeGraceMs.value)
      ensures forall i, j | 0 <= i < j < |order| :: order[i] != order[j]
    {
      order := [];
      if resumeGraceMs.None? {
        return 0, [];
      }
      var expired: seq<SessionId> := [];
      var rest := sessions.Keys;
      while rest != {}
        invariant rest <= sessions.Keys
        invariant forall id :: id in expired <==>
                    id in sessions.Keys - rest && Expired(sessions[id], now, resumeGraceMs.value)
        invariant forall i, j | 0 <= i < j < |expired| :: expired[i] != expired[j]
        decreases |rest|
      {
        var id :| id in rest;
        rest := rest - {id};
        if sessions[id].clients == {} && sessions[id].clientlessSince.Some?
           && now - sessions[id].clientlessSince.value > resumeGraceMs.value {
          expired := expired + [id];
        }
      }
      assert expired[0..] == expired;
      for i := 0 to |expired|
        invariant RemoveAll(View(), expired[i..]) == RemoveAll(old(View()), expired)
      {
        assert expired[i..][1..] == expired[i + 1..];
        RemoveSession(expired[i]);
      }
      return |expired|, expired;
    }
  }

  /** A reap is a run of removal steps. */
  lemma {:induction false} ReapIsARun(limits: Limits, st: State, order: seq<SessionId>)
    ensures Run(limits, st, seq(|order|, i requires 0 <= i < |order| => CapacityProtocol.RemoveSession(order[i])))
         == st.(manager := RemoveAll(st.manager, order))
    decreases |order|
  {
    var events := seq(|order|, i requires 0 <= i < |order| => CapacityProtocol.RemoveSession(order[i]));
    if order != [] {
      var rest := order[1..];
      assert events[1..] == seq(|rest|, i requires 0 <= i < |rest| => CapacityProtocol.RemoveSession(rest[i]));
      ReapIsARun(limits, Step(limits, st, events[0]), rest);
    }
  }

  /** The handlers of both wire protocols, with the socket fields and dials they share. */
  class SessionIntegration {
    const manager: SessionManager
    var dials: map<DialId, Dial>
    var legacyCountedIp: map<Socket, Ip>
    var pendingMudTransport: map<Socket, DialId>
    var upstream: set<Socket>
    var aborted: set<DialId>
    var nextDial: DialId
    var nextSession: SessionId

    constructor (manager: SessionManager)
      requires manager.View() == InitialState().manager
      ensures this.manager == manager && View() == InitialState()
    {
      this.manager := manager;
      dials, legacyCountedIp, pendingMudTransport := map[], map[], map[];
      upstream, aborted, nextDial, nextSession := {}, {}, 0, 0;
    }

    ghost function View(): State
      reads this, manager
    {
      State(manager.View(), dials, legacyCountedIp, pendingMudTransport, upstream, aborted, nextDial, nextSession)
    }

    ghost function Next(e: Event): State
      reads this, manager
    {
      Step(manager.Config(), View(), e)
    }

    method OpenTelnetSession(socket: Socket, ip: Ip, targetAllowed: bool, arbitrary: bool, now: int)
      modifies this, manager
      ensures View() == old(Next(TypedConnect(socket, ip, targetAllowed, arbitrary, now)))
    {
      if socket in manager.socketToSession || !targetAllowed {
        return;
      }
      var decision := manager.ReservePendingDial(ip);
      if decision != Allowed {
        return;
      }
      var d := nextDial;
      nextDial := nextDial + 1;
      dials := dials[d := Dial(socket, ip, if arbitrary then TypedResolving else TypedGranted)];
      if !arbitrary {
        DialSession(d, now);
      }
    }

    /** The first stretch of the dial: everything up to the upstream connect. */
    method DialSession(d: DialId, now: int)
      modifies this, manager
      ensures View() == old(Next(StartTyped(d, now)))
    {
      if d in dials && dials[d].phase.TypedGranted? {
        var id := nextSession;
        nextSession := nextSession + 1;
        manager.sessions := manager.sessions[id := Session(None, {}, None)];
        var _ := manager.AttachWebSocket(id, dials[d].socket, now);
        dials := dials[d := dials[d].(phase := TypedDialing(id))];
      }
    }

    method TargetResolved(d: DialId, permitted: bool)
      modifies this, manager
      ensures View() == old(Next(Resolved(d, permitted)))
    {
      if d in dials && dials[d].phase.TypedResolving? {
        if permitted {
          dials := dials[d := dials[d].(phase := TypedGranted)];
        } else {
          manager.ReleasePendingDial(dials[d].ip);
          dials := dials - {d};
        }
      } else if d in dials && dials[d].phase.LegacyResolving? {
        if permitted {
          dials := dials[d := dials[d].(phase := LegacyGranted)];
        } else {
          manager.ReleasePendingDial(dials[d].ip);
          dials := dials[d := dials[d].(phase := LegacyDenied)];
        }
      }
    }

    /** The upstream connect resolved: count first, release after. */
    method ConnectResolved(d: DialId)
      modifies this, manager
      ensures View() == old(Next(DialSucceeded(d)))
    {
      if d in dials && dials[d].phase.TypedDialing? && dials[d].phase.session in manager.sessions {
        var id, ip := dials[d].phase.session, dials[d].ip;
        if ip != UNKNOWN {
          manager.sessions := manager.sessions[id := manager.sessions[id].(clientIp := Some(ip))];
          manager.IncrementIPCount(ip);
        }
        manager.ReleasePendingDial(ip);
        dials := dials - {d};
      }
    }

    method ConnectRejected(d: DialId)
      modifies this, manager
      ensures View() == old(Next(DialFailed(d)))
    {
      if d in dials && dials[d].phase.TypedDialing? {
        manager.ReleasePendingDial(dials[d].ip);
        manager.RemoveSession(dials[d].phase.session);
        dials := dials - {d};
      }
    }

    method OpenLegacyConnection(socket: Socket, ip: Ip, targetAllowed: bool, arbitrary: bool)
      modifies this, manager
      ensures View() == old(Next(LegacyConnect(socket, ip, targetAllowed, arbitrary)))
    {
      if socket in upstream || socket in pendingMudTransport || socket in manager.socketToSession {
        return;
      }
      var d := nextDial;
      nextDial := nextDial + 1;
      pendingMudTransport := pendingMudTransport[socket := d];
      var phase := LegacyDenied;
      if targetAllowed {
        var decision := manager.ReservePendingDial(ip);
        if decision == Allowed {
          phase := if arbitrary then LegacyResolving else LegacyGranted;
        }
      }
      dials := dials[d := Dial(socket, ip, phase)];
    }

    method ClearPendingTransport(socket: Socket, d: DialId)
      modifies this`pendingMudTransport
      ensures View() == ClearController(old(View()), socket, d)
    {
      if socket in pendingMudTransport && pendingMudTransport[socket] == d {
        pendingMudTransport := pendingMudTransport - {socket};
      }
    }

    /** What runs after the awaited decision of a legacy connect. */
    method ContinueLegacyConnection(d: DialId)
      modifies this, manager
      ensures View() == old(Next(ContinueLegacy(d)))
    {
      if d in dials && dials[d].phase.LegacyDenied? {
        ClearPendingTransport(dials[d].socket, d);
        dials := dials - {d};
      } else if d in dials && dials[d].phase.LegacyGranted? {
        var socket, ip := dials[d].socket, dials[d].ip;
        if d in aborted {
          manager.ReleasePendingDial(ip);
          dials := dials - {d};
          return;
        }
        if ip != UNKNOWN {
          legacyCountedIp := legacyCountedIp[socket := ip];
          manager.IncrementIPCount(ip);
        } else {
          legacyCountedIp := legacyCountedIp - {socket};
        }
        manager.ReleasePendingDial(ip);
        dials := dials[d := dials[d].(phase := LegacyTransport)];
      }
    }

    method OnTransportConnected(d: DialId)
      modifies this
      ensures View() == old(Next(TransportConnected(d)))
    {
      if d in dials && dials[d].phase.LegacyTransport? && d !in aborted {
        upstream := upstream + {dials[d].socket};
        ClearPendingTransport(dials[d].socket, d);
        dials := dials - {d};
      }
    }

    method OnTransportFailed(d: DialId)
      modifies this
      ensures View() == old(Next(TransportFailed(d)))
    {
      if d in dials && dials[d].phase.LegacyTransport? {
        if d !in aborted {
          ClearPendingTransport(dials[d].socket, d);
        }
        dials := dials - {d};
      }
    }

    /** A resume is refused without the session's token, removes a session that timed out,
        and otherwise attaches the socket. */
    method HandleResume(socket: Socket, id: SessionId, tokenMatches: bool, inactiveMs: int, timeoutMs: int, now: int)
      returns (answer: ResumeAnswer)
      modifies manager
      ensures answer == if id !in old(manager.sessions) || !tokenMatches then InvalidResume
                        else if inactiveMs > timeoutMs then SessionExpired
                        else SessionResumed
      ensures View() == match answer
                        case InvalidResume => old(View())
                        case SessionExpired => old(Next(CapacityProtocol.RemoveSession(id)))
                        case SessionResumed => old(Next(Resume(socket, id, now)))
    {
      var valid := manager.ValidateToken(id, tokenMatches);
      if !valid {
        return InvalidResume;
      }
      if inactiveMs > timeoutMs {
        manager.RemoveSession(id);
        return SessionExpired;
      }
      var _ := manager.AttachWebSocket(id, socket, now);
      return SessionResumed;
    }

    /** Close the session, which empties its clients, and only then remove it. */
    method HandleDisconnect(socket: Socket)
      modifies manager
      ensures View() == old(Next(Disconnect(socket)))
    {
      if socket in manager.socketToSession {
        var id := manager.socketToSession[socket];
        if id in manager.sessions {
          manager.sessions := manager.sessions[id := manager.sessions[id].(clients := {})];
          manager.RemoveSession(id);
          assert manager.sessions == old(manager.sessions) - {id};
          assert manager.socketToSession == old(manager.socketToSession);
        }
      }
    }

    method CloseSocket(s: Socket, now: int)
      modifies this, manager
      ensures View() == old(Next(CapacityProtocol.CloseSocket(s, now)))
    {
      if s in manager.socketToSession {
        manager.DetachWebSocket(s, now);
        return;
      }
      if s in legacyCountedIp {
        manager.DecrementIPCount(legacyCountedIp[s]);
        legacyCountedIp := legacyCountedIp - {s};
      }
      if s !in upstream && s in pendingMudTransport {
        aborted := aborted + {pendingMudTransport[s]};
        pendingMudTransport := pendingMudTransport - {s};
      }
      upstream := upstream - {s};
    }
  }
}
