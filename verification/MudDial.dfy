/** The connector as an object: shared flags, two sockets, two timers, an abort listener,
    each handler a method.  Every method is proved to do what DialPhases says, and Valid
    says what the flags, sockets, timers and listeners look like in each phase. */
module MudDialing {
  import opened DialPhases

  datatype Signal = Connect | SecureConnect | Error | Close

  class UpstreamSocket {
    var destroyed: bool
    var listeners: set<Signal>

    constructor (listeners: set<Signal>)
      ensures !destroyed && this.listeners == listeners
    {
      destroyed := false;
      this.listeners := listeners;
    }
  }

  datatype Settlement = Resolved | RejectedWithError

  const TLS_SIGNALS: set<Signal> := {Connect, SecureConnect, Error, Close}
  const PLAIN_SIGNALS: set<Signal> := {Connect, Error, Close}

  class MudDial {
    const mode: Mode
    const dialTimeoutMs: nat

    var provisionalSocket: UpstreamSocket?
    var tlsSocket: UpstreamSocket?
    var plainSocket: UpstreamSocket?
    var settled: bool
    var plaintextAttempted: bool
    var downgraded: bool
    var tlsHandshakeTimer: int   // its deadline, or -1 when it is not armed
    var dialTimer: int

    var abortListening: bool
    var settlements: seq<Settlement>   // the calls of resolve and reject
    var connection: UpstreamSocket?    // what onConnected kept
    var handedDowngraded: bool
    ghost var tlsAttempts: nat         // sockets opened, of each kind
    ghost var plainAttempts: nat

    ghost function Settings(): Config { Config(mode, dialTimeoutMs) }

    ghost function Sockets(): set<object>
      reads this
    {
      (if tlsSocket != null then {tlsSocket} else {}) + (if plainSocket != null then {plainSocket} else {})
    }

    /** The phase the flags stand for. */
    ghost function Phase(): Phase
      reads this
    {
      if settled then
        if connection == null then Rejected
        else HandedOff(if connection == tlsSocket then Tls else PlainText, handedDowngraded)
      else if plaintextAttempted then PlainDialing(dialTimer)
      else if tlsHandshakeTimer != -1 then TlsHandshaking(tlsHandshakeTimer)
      else TlsDialing(dialTimer)
    }

    /** A socket nobody will hear from again. */
    ghost predicate Gone(s: UpstreamSocket?)
      reads s
    {
      s != null ==> s.destroyed && s.listeners == {}
    }

    ghost predicate Valid()
      reads this, Sockets()
    {
      && (tlsSocket != null ==> tlsSocket != plainSocket)
      && |settlements| == (if settled then 1 else 0)
      && (mode == Plain ==> tlsSocket == null)
      && (mode == Required ==> plainSocket == null)
      && AtMostOneOfEach()
      && (settled ==> Finished())
      && (!settled ==> Underway())
    }

    ghost predicate AtMostOneOfEach()
      reads this
    {
      && tlsAttempts == (if tlsSocket == null then 0 else 1)
      && plainAttempts == (if plainSocket == null then 0 else 1)
    }

    /** Nothing armed, nothing listening, and no socket alive but the one handed off. */
    ghost predicate Finished()
      reads this, Sockets()
    {
      && tlsHandshakeTimer == -1 && dialTimer == -1 && !abortListening
      && (tlsSocket != null ==> tlsSocket.listeners == {} && tlsSocket.destroyed == (connection != tlsSocket))
      && (plainSocket != null ==> plainSocket.listeners == {} && plainSocket.destroyed == (connection != plainSocket))
      && (connection != null ==> connection in Sockets() && settlements == [Resolved])
      && (connection == null ==> settlements == [RejectedWithError])
      && (connection != null && connection == tlsSocket ==> !handedDowngraded)
      && (connection != null && connection != tlsSocket ==> handedDowngraded == (mode == Prefer))
    }

    /** One live socket, the provisional one; one timer; the abort listener. */
    ghost predicate Underway()
      reads this, Sockets()
    {
      && abortListening && connection == null
      && (plaintextAttempted ==>
            && plainSocket != null && provisionalSocket == plainSocket
            && !plainSocket.destroyed && plainSocket.listeners == PLAIN_SIGNALS
            && Gone(tlsSocket)
            && downgraded == (mode == Prefer)
            && dialTimer != -1 && tlsHandshakeTimer == -1)
      && (!plaintextAttempted ==>
            && tlsSocket != null && provisionalSocket == tlsSocket && plainSocket == null
            && !tlsSocket.destroyed
            && tlsSocket.listeners == (if tlsHandshakeTimer == -1 then TLS_SIGNALS else TLS_SIGNALS - {Connect})
            && !downgraded
            && (dialTimer == -1) != (tlsHandshakeTimer == -1))
    }

    /** The dial is being moved on: not settled, and its flags may be between phases. */
    ghost predicate Moving()
      reads this, Sockets()
    {
      && !settled && settlements == [] && connection == null && AtMostOneOfEach()
      && (tlsSocket != null ==> tlsSocket != plainSocket)
      && (mode == Plain ==> tlsSocket == null)
      && (mode == Required ==> plainSocket == null)
      && (provisionalSocket != null ==> provisionalSocket in Sockets())
      && (tlsSocket != null && tlsSocket != provisionalSocket ==> tlsSocket.destroyed)
      && (plainSocket != null ==> plainSocket == provisionalSocket)
    }

    constructor (mode: Mode, dialTimeoutMs: nat, alreadyAborted: bool, opening: TlsOpening, w: World)
      requires w.now >= 0
      ensures this.mode == mode && this.dialTimeoutMs == dialTimeoutMs
      ensures Valid() && fresh(Sockets())
      ensures Phase() == Start(Settings(), alreadyAborted, opening, w)
    {
      this.mode, this.dialTimeoutMs := mode, dialTimeoutMs;
      provisionalSocket, tlsSocket, plainSocket, connection := null, null, null, null;
      settled, plaintextAttempted, downgraded, handedDowngraded := false, false, false, false;
      tlsHandshakeTimer, dialTimer, abortListening, settlements := -1, -1, false, [];
      tlsAttempts, plainAttempts := 0, 0;
      new;
      if alreadyAborted {
        Fail();
        return;
      }
      abortListening := true;
      if mode == Plain {
        plaintextAttempted := true;
        StartPlain(w);
        return;
      }
      if opening.Opens? {
        tlsSocket := new UpstreamSocket(TLS_SIGNALS);
        tlsAttempts := tlsAttempts + 1;
        provisionalSocket := tlsSocket;
        dialTimer := w.now + dialTimeoutMs;
      } else {
        OnTlsError(opening.negotiation, w);
      }
    }

    /** Settle by rejecting: what the fail and abort closures both do. */
    method Fail()
      requires Moving()
      modifies this, Sockets()
      ensures Valid() && settled && Phase() == Rejected && Sockets() == old(Sockets())
    {
      settled := true;
      ClearEverything();
      if provisionalSocket != null {
        provisionalSocket.destroyed := true;
      }
      settlements := settlements + [RejectedWithError];
    }

    method ClearEverything()
      requires tlsSocket != null ==> tlsSocket != plainSocket
      modifies this`tlsHandshakeTimer, this`dialTimer, this`abortListening, Sockets()
      ensures tlsHandshakeTimer == -1 && dialTimer == -1 && !abortListening
      ensures tlsSocket != null ==> tlsSocket.listeners == {} && tlsSocket.destroyed == old(tlsSocket.destroyed)
      ensures plainSocket != null ==> plainSocket.listeners == {} && plainSocket.destroyed == old(plainSocket.destroyed)
    {
      tlsHandshakeTimer, dialTimer := -1, -1;
      if plainSocket != null {
        plainSocket.listeners := {};
      }
      if tlsSocket != null {
        tlsSocket.listeners := {};
      }
      abortListening := false;
    }

    /** Settle by handing the provisional socket over; a throwing receiver rejects. */
    method HandOver(w: World)
      requires Moving() && provisionalSocket != null && !provisionalSocket.destroyed
      requires provisionalSocket == tlsSocket ==> plainSocket == null
      requires provisionalSocket != tlsSocket ==> downgraded == (mode == Prefer)
      modifies this, Sockets()
      ensures Valid() && Sockets() == old(Sockets())
      ensures Phase() == HandOff(if old(provisionalSocket == tlsSocket) then Tls else PlainText,
                                 old(provisionalSocket != tlsSocket && downgraded), w)
      ensures if w.onConnectedReturns
              then connection == old(provisionalSocket) && !connection.destroyed && settlements == [Resolved]
              else connection == null && old(provisionalSocket).destroyed && settlements == [RejectedWithError]
    {
      settled := true;
      ClearEverything();
      if w.onConnectedReturns {
        connection := provisionalSocket;
        handedDowngraded := provisionalSocket != tlsSocket && downgraded;
        settlements := settlements + [Resolved];
      } else {
        provisionalSocket.destroyed := true;
        settlements := settlements + [RejectedWithError];
      }
    }

    method StartPlain(w: World)
      requires Moving() && abortListening && plaintextAttempted && plainSocket == null && mode != Required
      requires tlsHandshakeTimer == -1 && w.now >= 0 && downgraded == (mode == Prefer)
      requires Gone(tlsSocket)
      modifies this, Sockets()
      ensures Valid() && fresh(Sockets() - old(Sockets()))
      ensures Phase() == OpenPlain(Settings(), w)
    {
      if !w.plainOpens {
        Fail();
        return;
      }
      plainSocket := new UpstreamSocket(PLAIN_SIGNALS);
      plainAttempts := plainAttempts + 1;
      provisionalSocket := plainSocket;
      dialTimer := w.now + dialTimeoutMs;
    }

    method FallBackToPlain(w: World)
      requires Moving() && abortListening && mode == Prefer && !plaintextAttempted && plainSocket == null
      requires w.now >= 0
      modifies this, Sockets()
      ensures Valid() && fresh(Sockets() - old(Sockets()))
      ensures Phase() == FallBackOrFail(Settings(), w, true)
    {
      if settled || plaintextAttempted {
        return;
      }
      plaintextAttempted := true;
      tlsHandshakeTimer := -1;
      if tlsSocket != null {
        tlsSocket.listeners := {};
        tlsSocket.destroyed := true;
      }
      downgraded := true;
      match w.onDowngrade {
        case Throws =>
          Fail();
          return;
        case Aborts =>
          OnAbort();
        case Returns =>
      }
      if settled {
        return;
      }
      StartPlain(w);
    }

    method OnAbort()
      requires if settled then Valid() else Moving()
      modifies this, Sockets()
      ensures Valid() && settled && Sockets() == old(Sockets())
      ensures Phase() == if old(settled) then old(Phase()) else Rejected
    {
      if settled {
        return;
      }
      Fail();
    }

    method OnTlsError(negotiation: bool, w: World)
      requires Moving() && abortListening && mode != Plain && !plaintextAttempted && plainSocket == null
      requires w.now >= 0
      modifies this, Sockets()
      ensures Valid() && fresh(Sockets() - old(Sockets()))
      ensures Phase() == FallBackOrFail(Settings(), w, negotiation)
    {
      if mode == Prefer && negotiation {
        FallBackToPlain(w);
        return;
      }
      Fail();
    }

    method OnTlsClose(w: World)
      requires Moving() && abortListening && mode != Plain && !plaintextAttempted && plainSocket == null
      requires w.now >= 0
      modifies this, Sockets()
      ensures Valid() && fresh(Sockets() - old(Sockets()))
      ensures Phase() == FallBackOrFail(Settings(), w, true)
    {
      if mode == Prefer {
        FallBackToPlain(w);
        return;
      }
      Fail();
    }

    /** The TLS socket signals; a listener hears it at most once. */
    method OnTlsSignal(signal: Signal, negotiation: bool, w: World)
      requires Valid() && w.now >= 0
      modifies this, Sockets()
      ensures Valid() && fresh(Sockets() - old(Sockets()))
      ensures Phase() == DialPhases.Step(Settings(), old(Phase()), TlsEvent(signal, negotiation), w)
    {
      if tlsSocket == null || signal !in tlsSocket.listeners {
        return;
      }
      tlsSocket.listeners := tlsSocket.listeners - {signal};
      match signal {
        case Connect =>
          if settled || tlsHandshakeTimer != -1 {
            return;
          }
          dialTimer := -1;
          tlsHandshakeTimer := w.now + TLS_HANDSHAKE_TIMEOUT_MS;
        case SecureConnect =>
          if provisionalSocket != tlsSocket {
            return;
          }
          HandOver(w);
        case Error =>
          OnTlsError(negotiation, w);
        case Close =>
          OnTlsClose(w);
      }
    }

    method OnPlainSignal(signal: Signal, w: World)
      requires Valid() && w.now >= 0 && signal != SecureConnect
      modifies this, Sockets()
      ensures Valid() && fresh(Sockets() - old(Sockets()))
      ensures Phase() == DialPhases.Step(Settings(), old(Phase()), PlainEvent(signal), w)
    {
      if plainSocket == null || signal !in plainSocket.listeners {
        return;
      }
      plainSocket.listeners := plainSocket.listeners - {signal};
      if signal == Connect {
        if provisionalSocket != plainSocket {
          return;
        }
        dialTimer := -1;
        HandOver(w);
      } else {
        Fail();
      }
    }

    method OnDialTimer(w: World)
      requires Valid() && w.now >= 0
      modifies this, Sockets()
      ensures Valid() && fresh(Sockets() - old(Sockets()))
      ensures Phase() == DialPhases.Step(Settings(), old(Phase()), DialTimer, w)
    {
      if dialTimer == -1 || settled {
        return;
      }
      Fail();
    }

    method OnHandshakeTimer(w: World)
      requires Valid() && w.now >= 0
      modifies this, Sockets()
      ensures Valid() && fresh(Sockets() - old(Sockets()))
      ensures Phase() == DialPhases.Step(Settings(), old(Phase()), HandshakeTimer, w)
    {
      if tlsHandshakeTimer == -1 || settled {
        return;
      }
      if mode == Prefer {
        FallBackToPlain(w);
        return;
      }
      Fail();
    }

    /** One event of any kind. */
    method Handle(e: Event, w: World)
      requires Valid() && w.now >= 0
      modifies this, Sockets()
      ensures Valid() && fresh(Sockets() - old(Sockets()))
      ensures Phase() == DialPhases.Step(Settings(), old(Phase()), e, w)
    {
      match e
      case Abort =>
        if abortListening {
          OnAbort();
        }
      case DialTimer => OnDialTimer(w);
      case HandshakeTimer => OnHandshakeTimer(w);
      case TlsConnect => OnTlsSignal(Connect, false, w);
      case TlsSecureConnect => OnTlsSignal(SecureConnect, false, w);
      case TlsError(negotiation) => OnTlsSignal(Error, negotiation, w);
      case TlsClose => OnTlsSignal(Close, false, w);
      case PlainConnect => OnPlainSignal(Connect, w);
      case PlainError => OnPlainSignal(Error, w);
      case PlainClose => OnPlainSignal(Close, w);
    }
  }

  function TlsEvent(signal: Signal, negotiation: bool): Event {
    match signal
    case Connect => TlsConnect
    case SecureConnect => TlsSecureConnect
    case Error => TlsError(negotiation)
    case Close => TlsClose
  }

  function PlainEvent(signal: Signal): Event
    requires signal != SecureConnect
  {
    match signal
    case Connect => PlainConnect
    case Error => PlainError
    case Close => PlainClose
  }

  /** A whole dial under any list of events. */
  method Drive(mode: Mode, dialTimeoutMs: nat, aborted: bool, opening: TlsOpening, w: World,
               events: seq<(Event, World)>) returns (dial: MudDial)
    requires w.now >= 0 && forall i | 0 <= i < |events| :: events[i].1.now >= 0
    ensures fresh(dial) && dial.Valid() && dial.Settings() == Config(mode, dialTimeoutMs)
    ensures dial.Phase() == Run(dial.Settings(), Start(dial.Settings(), aborted, opening, w), events)
    ensures dial.Phase().HandedOff? <==> dial.connection != null && dial.settlements == [Resolved]
    ensures dial.Phase().HandedOff? ==>
              dial.connection == (if dial.Phase().kind == Tls then dial.tlsSocket else dial.plainSocket)
              && !dial.connection.destroyed
  {
    dial := new MudDial(mode, dialTimeoutMs, aborted, opening, w);
    ghost var whole := Run(dial.Settings(), dial.Phase(), events);
    assert events[0..] == events;
    for i := 0 to |events|
      invariant fresh(dial) && fresh(dial.Sockets()) && dial.Valid()
      invariant dial.mode == mode && dial.dialTimeoutMs == dialTimeoutMs
      invariant whole == Run(dial.Settings(), dial.Phase(), events[i..])
    {
      assert events[i..][1..] == events[i + 1..];
      dial.Handle(events[i].0, events[i].1);
    }
  }
}
