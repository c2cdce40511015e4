/** The upstream dial as five phases.  The closures of the real connector share a dozen
    flags; MudDial.dfy proves that on every event order they do what these phases say. */
module DialPhases {

  datatype Mode = Plain | Prefer | Required

  datatype Kind = PlainText | Tls

  datatype Config = Config(mode: Mode, dialTimeoutMs: nat)

  const TLS_HANDSHAKE_TIMEOUT_MS: nat := 4000

  datatype Phase =
    | TlsDialing(deadline: int)
    | TlsHandshaking(deadline: int)
    | PlainDialing(deadline: int)
    | HandedOff(kind: Kind, downgraded: bool)
    | Rejected

  /** What the downgrade callback does: it may throw, and it may abort the dial. */
  datatype Downgrade = Returns | Throws | Aborts

  /** What the world answers while an event is handled. */
  datatype World = World(now: int, onDowngrade: Downgrade, plainOpens: bool, onConnectedReturns: bool)

  /** How opening the TLS socket goes; a failure may look like a TLS one. */
  datatype TlsOpening = Opens | Fails(negotiation: bool)

  datatype Event =
    | Abort
    | DialTimer
    | HandshakeTimer
    | TlsConnect
    | TlsSecureConnect
    | TlsError(negotiation: bool)
    | TlsClose
    | PlainConnect
    | PlainError
    | PlainClose

  predicate Settled(p: Phase) {
    p.HandedOff? || p.Rejected?
  }

  function OpenPlain(c: Config, w: World): Phase {
    if w.plainOpens then PlainDialing(w.now + c.dialTimeoutMs) else Rejected
  }

  /** Under `prefer` a failed TLS attempt becomes a plaintext one. */
  function FallBackOrFail(c: Config, w: World, tlsFailure: bool): Phase {
    if c.mode == Prefer && tlsFailure && w.onDowngrade == Returns then OpenPlain(c, w) else Rejected
  }

  function HandOff(kind: Kind, downgraded: bool, w: World): Phase {
    if w.onConnectedReturns then HandedOff(kind, downgraded) else Rejected
  }

  function Start(c: Config, alreadyAborted: bool, opening: TlsOpening, w: World): Phase {
    if alreadyAborted then Rejected
    else if c.mode == Plain then OpenPlain(c, w)
    else if opening.Opens? then TlsDialing(w.now + c.dialTimeoutMs)
    else FallBackOrFail(c, w, opening.negotiation)
  }

  function Step(c: Config, p: Phase, e: Event, w: World): Phase {
    match p
    case TlsDialing(_) =>
      (match e
       case TlsConnect => TlsHandshaking(w.now + TLS_HANDSHAKE_TIMEOUT_MS)
       case DialTimer => Rejected
       case _ => TlsStep(c, p, e, w))
    case TlsHandshaking(_) =>
      (match e
       case HandshakeTimer => FallBackOrFail(c, w, true)
       case _ => TlsStep(c, p, e, w))
    case PlainDialing(_) =>
      (match e
       case PlainConnect => HandOff(PlainText, c.mode == Prefer, w)
       case PlainError => Rejected
       case PlainClose => Rejected
       case DialTimer => Rejected
       case Abort => Rejected
       case _ => p)
    case HandedOff(_, _) => p
    case Rejected => p
  }

  /** What the two TLS phases share. */
  function TlsStep(c: Config, p: Phase, e: Event, w: World): Phase {
    match e
    case TlsSecureConnect => HandOff(Tls, false, w)
    case TlsError(negotiation) => FallBackOrFail(c, w, negotiation)
    case TlsClose => FallBackOrFail(c, w, true)
    case Abort => Rejected
    case _ => p
  }

  function Run(c: Config, p: Phase, events: seq<(Event, World)>): Phase
    decreases |events|
  {
    if events == [] then p else Run(c, Step(c, p, events[0].0, events[0].1), events[1..])
  }

  // ----- what every run keeps -----

  /** The phases a mode allows. */
  predicate Possible(c: Config, p: Phase) {
    && (p.TlsDialing? || p.TlsHandshaking? ==> c.mode != Plain)
    && (p.PlainDialing? ==> c.mode != Required)
    && (p.HandedOff? && p.kind == Tls ==> c.mode != Plain && !p.downgraded)
    && (p.HandedOff? && p.kind == PlainText ==> c.mode != Required && p.downgraded == (c.mode == Prefer))
  }

  lemma {:induction false} RunPossible(c: Config, p: Phase, events: seq<(Event, World)>)
    requires Possible(c, p)
    ensures Possible(c, Run(c, p, events))
    decreases |events|
  {
    if events != [] {
      RunPossible(c, Step(c, p, events[0].0, events[0].1), events[1..]);
    }
  }

  /** A settled dial stays as it is, whatever still happens. */
  lemma {:induction false} SettledForGood(c: Config, p: Phase, events: seq<(Event, World)>)
    requires Settled(p)
    ensures Run(c, p, events) == p
    decreases |events|
  {
    if events != [] {
      SettledForGood(c, p, events[1..]);
    }
  }

  lemma {:induction false} RunSplit(c: Config, p: Phase, a: seq<(Event, World)>, b: seq<(Event, World)>)
    ensures Run(c, p, a + b) == Run(c, Run(c, p, a), b)
    decreases |a|
  {
    if a == [] {
      assert a + b == b;
    } else {
      assert (a + b)[1..] == a[1..] + b;
      RunSplit(c, Step(c, p, a[0].0, a[0].1), a[1..], b);
    }
  }

  /** On every event order: TLS and plaintext are handed off only where the mode allows
      it, the downgrade flag is set exactly for plaintext under `prefer`, and the first
      settlement is the last. */
  lemma EveryOrderSettlesByPolicy(c: Config, aborted: bool, opening: TlsOpening, w: World,
                                  events: seq<(Event, World)>, later: seq<(Event, World)>)
    ensures var p := Run(c, Start(c, aborted, opening, w), events);
            && (p.HandedOff? && p.kind == Tls ==> c.mode != Plain && !p.downgraded)
            && (p.HandedOff? && p.kind == PlainText ==> c.mode != Required && p.downgraded == (c.mode == Prefer))
            && (Settled(p) ==> Run(c, Start(c, aborted, opening, w), events + later) == p)
  {
    var p0 := Start(c, aborted, opening, w);
    RunPossible(c, p0, events);
    RunSplit(c, p0, events, later);
    if Settled(Run(c, p0, events)) {
      SettledForGood(c, Run(c, p0, events), later);
    }
  }

  // ----- time -----

  function Deadline(p: Phase): int
    requires !Settled(p)
  {
    p.deadline
  }

  /** Events come in time order, and no armed timer is overtaken: the one armed timer
      fires at its deadline unless the phase was left before. */
  predicate OnTime(c: Config, p: Phase, since: int, events: seq<(Event, World)>)
    decreases |events|
  {
    events == [] ||
    (var (e, w) := events[0];
     && since <= w.now
     && (!Settled(p) ==> w.now <= Deadline(p))
     && OnTime(c, Step(c, p, e, w), w.now, events[1..]))
  }

  /** The longest a dial may take. */
  function Bound(c: Config): nat {
    match c.mode
    case Plain => c.dialTimeoutMs
    case Required => c.dialTimeoutMs + 4000
    case Prefer => 2 * c.dialTimeoutMs + 4000
  }

  /** Each phase's deadline is bounded by the time the phases before it could take. */
  predicate WithinBound(c: Config, p: Phase, start: int) {
    match p
    case TlsDialing(d) => c.mode != Plain && d <= start + c.dialTimeoutMs
    case TlsHandshaking(d) => c.mode != Plain && d <= start + c.dialTimeoutMs + TLS_HANDSHAKE_TIMEOUT_MS
    case PlainDialing(d) =>
      c.mode != Required
      && d <= start + c.dialTimeoutMs
              + if c.mode == Plain then 0 else c.dialTimeoutMs + TLS_HANDSHAKE_TIMEOUT_MS
    case HandedOff(_, _) => true
    case Rejected => true
  }

  lemma {:induction false} RunWithinBound(c: Config, p: Phase, start: int, since: int, events: seq<(Event, World)>)
    requires WithinBound(c, p, start) && OnTime(c, p, since, events)
    ensures WithinBound(c, Run(c, p, events), start)
    decreases |events|
  {
    if events != [] {
      var (e, w) := events[0];
      RunWithinBound(c, Step(c, p, e, w), start, w.now, events[1..]);
    }
  }

  /** A dial whose timers fire on time is settled once the bound of its mode has passed:
      while it is not, its armed deadline is still inside the bound. */
  lemma SettlesInTime(c: Config, aborted: bool, opening: TlsOpening, w: World, events: seq<(Event, World)>)
    requires OnTime(c, Start(c, aborted, opening, w), w.now, events)
    ensures var p := Run(c, Start(c, aborted, opening, w), events);
            !Settled(p) ==> Deadline(p) <= w.now + Bound(c)
  {
    RunWithinBound(c, Start(c, aborted, opening, w), w.now, w.now, events);
  }

  /** The timer armed in this phase. */
  function ArmedTimer(p: Phase): Event
    requires !Settled(p)
  {
    if p.TlsHandshaking? then HandshakeTimer else DialTimer
  }

  /** How many more firings it can take, at most. */
  function Rank(p: Phase): nat {
    match p
    case TlsDialing(_) => 3
    case TlsHandshaking(_) => 2
    case PlainDialing(_) => 1
    case _ => 0
  }

  /** No event goes back a phase, and the armed timer always goes forward: so a dial whose
      peer never answers still settles, after at most three events that count. */
  lemma {:induction false} TimersMakeProgress(c: Config, p: Phase, events: seq<(Event, World)>, w: World)
    ensures Rank(Run(c, p, events)) <= Rank(p)
    ensures !Settled(p) ==> Rank(Run(c, Step(c, p, ArmedTimer(p), w), events)) < Rank(p)
    decreases |events|
  {
    if events != [] {
      TimersMakeProgress(c, Step(c, p, events[0].0, events[0].1), events[1..], w);
      if !Settled(p) {
        var q := Step(c, p, ArmedTimer(p), w);
        TimersMakeProgress(c, Step(c, q, events[0].0, events[0].1), events[1..], w);
      }
    }
  }

  /** The bounds are reached: a silent peer under `prefer` uses all of it. */
  lemma BoundIsReached(c: Config, start: int)
    requires c.mode == Prefer
    ensures var w := World(start, Returns, true, true);
            var t1 := start + c.dialTimeoutMs; var t2 := t1 + TLS_HANDSHAKE_TIMEOUT_MS;
            var events := [(TlsConnect, w.(now := t1)), (HandshakeTimer, w.(now := t2))];
            && OnTime(c, Start(c, false, Opens, w), start, events)
            && Run(c, Start(c, false, Opens, w), events) == PlainDialing(start + Bound(c))
  {
    var w := World(start, Returns, true, true);
    var t1 := start + c.dialTimeoutMs;
    var t2 := t1 + TLS_HANDSHAKE_TIMEOUT_MS;
    var events := [(TlsConnect, w.(now := t1)), (HandshakeTimer, w.(now := t2))];
    assert events[1..] == [events[1]] && events[1..][1..] == events[2..];
    var p1 := Step(c, TlsDialing(t1), TlsConnect, w.(now := t1));
    assert p1 == TlsHandshaking(t2);
    assert Run(c, p1, events[1..]) == Step(c, p1, HandshakeTimer, w.(now := t2));
    assert OnTime(c, p1, t1, events[1..]);
  }
}
