/** How an upstream dial ends: which events hand a connection off, which turn it to
    plaintext, and which reject it, said of phases and events alone. */
module DialOutcomes {
  import opened DialPhases

  predicate OverTls(p: Phase) { p.TlsDialing? || p.TlsHandshaking? }

  /** What makes a TLS attempt fail in a way that plaintext may answer. */
  predicate TlsGivesUp(p: Phase, e: Event) {
    OverTls(p) && (e.TlsClose? || (e.TlsError? && e.negotiation) || (p.TlsHandshaking? && e.HandshakeTimer?))
  }

  /** What ends a dial without a connection, whatever the mode. */
  predicate EndsDial(p: Phase, e: Event) {
    || e.Abort?
    || (e.DialTimer? && (p.TlsDialing? || p.PlainDialing?))
    || (OverTls(p) && e.TlsError? && !e.negotiation)
    || (p.PlainDialing? && (e.PlainError? || e.PlainClose?))
  }

  predicate DowngradeAllowed(c: Config, w: World) {
    c.mode == Prefer && w.onDowngrade == Returns && w.plainOpens
  }

  // ----- one event -----

  /** A TLS connection is handed off exactly when its handshake completes during a TLS
      phase and the receiver returns, and never as a downgrade. */
  lemma TlsHandedOffExactly(c: Config, p: Phase, e: Event, w: World)
    requires !Settled(p)
    ensures var p1 := Step(c, p, e, w);
            && (p1.HandedOff? && p1.kind == Tls <==> OverTls(p) && e.TlsSecureConnect? && w.onConnectedReturns)
            && (p1.HandedOff? && p1.kind == Tls ==> !p1.downgraded)
  {
  }

  /** A plaintext one exactly when it connects in the plain phase and the receiver returns,
      and it is a downgrade exactly under `prefer`. */
  lemma PlainHandedOffExactly(c: Config, p: Phase, e: Event, w: World)
    requires !Settled(p)
    ensures var p1 := Step(c, p, e, w);
            && (p1.HandedOff? && p1.kind == PlainText <==> p.PlainDialing? && e.PlainConnect? && w.onConnectedReturns)
            && (p1.HandedOff? && p1.kind == PlainText ==> p1.downgraded == (c.mode == Prefer))
  {
  }

  /** Plaintext is dialled after TLS exactly under `prefer`, when TLS gives up, the
      downgrade callback returns and the plain socket opens; it then has a whole timeout. */
  lemma DowngradedExactly(c: Config, p: Phase, e: Event, w: World)
    requires OverTls(p)
    ensures var p1 := Step(c, p, e, w);
            && (p1.PlainDialing? <==> TlsGivesUp(p, e) && DowngradeAllowed(c, w))
            && (p1.PlainDialing? ==> p1.deadline == w.now + c.dialTimeoutMs)
  {
  }

  /** A dial is rejected exactly when an event ends it, when TLS gives up and no plaintext
      attempt follows, or when the receiver of a finished connection throws. */
  lemma RejectedExactly(c: Config, p: Phase, e: Event, w: World)
    requires !Settled(p)
    ensures Step(c, p, e, w).Rejected?
       <==> || EndsDial(p, e)
            || (TlsGivesUp(p, e) && !DowngradeAllowed(c, w))
            || (((OverTls(p) && e.TlsSecureConnect?) || (p.PlainDialing? && e.PlainConnect?)) && !w.onConnectedReturns)
  {
  }

  /** The TCP connection starts the handshake and its own four seconds; nothing else that
      leaves a dial unsettled changes its phase. */
  lemma HandshakeStartsExactly(c: Config, p: Phase, e: Event, w: World)
    requires !Settled(p)
    ensures var p1 := Step(c, p, e, w);
            && (p.TlsDialing? ==> (p1.TlsHandshaking? <==> e.TlsConnect?))
            && (p.TlsDialing? && e.TlsConnect? ==> p1 == TlsHandshaking(w.now + 4000))
            && (!Settled(p1) && p1 != p ==> (p.TlsDialing? && e.TlsConnect?) || TlsGivesUp(p, e))
  {
  }

  /** How a dial starts: over TLS unless the mode is plain, in plaintext under `plain` or
      when TLS cannot even be tried and the mode lets it, and otherwise not at all. */
  lemma StartsExactly(c: Config, aborted: bool, opening: TlsOpening, w: World)
    ensures var p := Start(c, aborted, opening, w);
            && (p.TlsDialing? <==> !aborted && c.mode != Plain && opening.Opens?)
            && (p.PlainDialing? <==>
                  !aborted && ((c.mode == Plain && w.plainOpens)
                               || (opening == Fails(true) && DowngradeAllowed(c, w))))
            && (p.TlsDialing? || p.PlainDialing? ==> p.deadline == w.now + c.dialTimeoutMs)
            && (p.TlsDialing? || p.PlainDialing? || p.Rejected?)
  {
  }

  // ----- every run -----

  /** The phase a run is in when its i-th event comes. */
  function Before(c: Config, p: Phase, events: seq<(Event, World)>, i: nat): Phase
    requires i <= |events|
  {
    Run(c, p, events[..i])
  }

  predicate CompletesTls(p: Phase, e: (Event, World)) {
    OverTls(p) && e.0.TlsSecureConnect? && e.1.onConnectedReturns
  }

  predicate CompletesPlain(p: Phase, e: (Event, World)) {
    p.PlainDialing? && e.0.PlainConnect? && e.1.onConnectedReturns
  }

  predicate Turns(c: Config, p: Phase, e: (Event, World)) {
    TlsGivesUp(p, e.0) && DowngradeAllowed(c, e.1)
  }

  lemma RunSnoc(c: Config, p: Phase, events: seq<(Event, World)>)
    requires events != []
    ensures var k := |events| - 1;
            Run(c, p, events) == Step(c, Before(c, p, events, k), events[k].0, events[k].1)
  {
    var k := |events| - 1;
    assert events == events[..k] + [events[k]];
    RunSplit(c, p, events[..k], [events[k]]);
    assert [events[k]][1..] == [];
  }

  lemma BeforeShorter(c: Config, p: Phase, events: seq<(Event, World)>, k: nat, i: nat)
    requires i <= k <= |events|
    ensures Before(c, p, events[..k], i) == Before(c, p, events, i)
  {
    assert events[..k][..i] == events[..i];
  }

  /** A run ends with a TLS connection handed off exactly when the handshake completed
      in a TLS phase at some moment and the receiver returned; likewise for plaintext. */
  lemma {:induction false} HandedOffExactly(c: Config, p: Phase, events: seq<(Event, World)>)
    requires !Settled(p)
    ensures var q := Run(c, p, events);
            && (q.HandedOff? && q.kind == Tls <==>
                  exists i | 0 <= i < |events| :: CompletesTls(Before(c, p, events, i), events[i]))
            && (q.HandedOff? && q.kind == PlainText <==>
                  exists i | 0 <= i < |events| :: CompletesPlain(Before(c, p, events, i), events[i]))
    decreases |events|
  {
    if events != [] {
      var k := |events| - 1;
      var shorter, q := events[..k], Before(c, p, events, k);
      RunSnoc(c, p, events);
      HandedOffExactly(c, p, shorter);
      forall i | 0 <= i < k
        ensures Before(c, p, shorter, i) == Before(c, p, events, i) && shorter[i] == events[i]
      {
        BeforeShorter(c, p, events, k, i);
      }
      if Settled(q) {
        assert !CompletesTls(q, events[k]) && !CompletesPlain(q, events[k]);
      } else {
        TlsHandedOffExactly(c, q, events[k].0, events[k].1);
        PlainHandedOffExactly(c, q, events[k].0, events[k].1);
      }
      LastOrEarlier(c, p, events);
    }
  }

  /** Something happens in a run exactly when it happens at its end or before. */
  lemma LastOrEarlier(c: Config, p: Phase, events: seq<(Event, World)>)
    requires events != []
    ensures var k := |events| - 1; var shorter := events[..k];
            && ((exists i | 0 <= i < |events| :: CompletesTls(Before(c, p, events, i), events[i]))
                <==> CompletesTls(Before(c, p, events, k), events[k])
                     || exists i | 0 <= i < k :: CompletesTls(Before(c, p, shorter, i), shorter[i]))
            && ((exists i | 0 <= i < |events| :: CompletesPlain(Before(c, p, events, i), events[i]))
                <==> CompletesPlain(Before(c, p, events, k), events[k])
                     || exists i | 0 <= i < k :: CompletesPlain(Before(c, p, shorter, i), shorter[i]))
  {
    var k := |events| - 1;
    forall i | 0 <= i < k
      ensures Before(c, p, events[..k], i) == Before(c, p, events, i) && events[..k][i] == events[i]
    {
      BeforeShorter(c, p, events, k, i);
    }
  }

  /** The two connections that come about undisturbed. */
  lemma UndisturbedDialSucceeds(c: Config, start: int, w1: World, w2: World)
    requires w1.onConnectedReturns && w2.onConnectedReturns && w1.plainOpens && w1.now == start
    ensures c.mode != Plain ==>
              Run(c, Start(c, false, Opens, w1), [(TlsConnect, w1), (TlsSecureConnect, w2)]) == HandedOff(Tls, false)
    ensures c.mode == Plain ==>
              Run(c, Start(c, false, Opens, w1), [(PlainConnect, w2)]) == HandedOff(PlainText, false)
  {
    var es := [(TlsConnect, w1), (TlsSecureConnect, w2)];
    assert es[1..] == [es[1]] && [es[1]][1..] == [];
    if c.mode != Plain {
      var p1 := Step(c, Start(c, false, Opens, w1), TlsConnect, w1);
      assert Run(c, p1, [es[1]]) == Run(c, Step(c, p1, TlsSecureConnect, w2), []);
    }
    assert [(PlainConnect, w2)][1..] == [];
  }
}
