/** Where the dials in flight come from, over every run and from its events alone: which
    connect asked for a dial, whether its target was allowed and whether there was room. */
module CapacityAdmission {
  import opened Wrappers
  import opened CapacityLedger
  import opened CapacityProtocol
  import opened CapacityTheorems

  function After(limits: Limits, events: seq<Event>): State {
    Run(limits, InitialState(), events)
  }

  lemma {:induction false} RunSnoc(limits: Limits, st: State, events: seq<Event>, e: Event)
    ensures Run(limits, st, events + [e]) == Step(limits, Run(limits, st, events), e)
    decreases |events|
  {
    if events == [] {
      assert events + [e] == [e];
      assert Run(limits, Step(limits, st, e), []) == Step(limits, st, e);
    } else {
      assert (events + [e])[1..] == events[1..] + [e];
      RunSnoc(limits, Step(limits, st, events[0]), events[1..], e);
    }
  }

  lemma Reachable(limits: Limits, events: seq<Event>)
    ensures Inv(limits, After(limits, events)) && NothingOverdrawn(After(limits, events))
  {
    InitiallyInv(limits);
    RunKeeps(limits, InitialState(), events);
  }

  /** One more connection for the address fits, established and pending together, under the
      limit of one address and under the server's. */
  ghost predicate HasRoom(limits: Limits, l: Ledger, ip: Ip) {
    && Count(l.established, ip) + Count(l.pending, ip) < limits.maxPerIp
    && (limits.maxGlobal.Some? ==> Sum(l.established) + Sum(l.pending) < limits.maxGlobal.value)
  }

  // ----- what the events say of a dial -----

  predicate Typed(phase: Phase) {
    phase.TypedResolving? || phase.TypedGranted? || phase.TypedDialing?
  }

  predicate Connects(e: Event) { e.TypedConnect? || e.LegacyConnect? }

  /** The event is a connect of this protocol, on this socket, for this address. */
  predicate AsksFor(e: Event, dial: Dial) {
    Connects(e) && e.socket == dial.socket && e.ip == dial.ip && (e.TypedConnect? <==> Typed(dial.phase))
  }

  /** How the target of dial d was first resolved after event i, if it was. */
  function Verdict(events: seq<Event>, i: nat, d: DialId): Option<bool>
    requires i < |events|
    decreases |events|
  {
    var last := |events| - 1;
    if i == last then None
    else
      var earlier := Verdict(events[..last], i, d);
      if earlier.None? && events[last].Resolved? && events[last].dial == d then Some(events[last].permitted)
      else earlier
  }

  /** What the phase of a dial tells of its connect: whether the target was allowed and there
      was room, and what became of an arbitrary target. */
  predicate Tells(phase: Phase, connect: Event, room: bool, verdict: Option<bool>)
    requires Connects(connect)
  {
    var admitted := connect.targetAllowed && room;
    match phase
    case TypedResolving | LegacyResolving => admitted && connect.arbitrary && verdict == None
    case TypedGranted => admitted && connect.arbitrary && verdict == Some(true)
    case TypedDialing(_) | LegacyGranted | LegacyTransport =>
      admitted && (connect.arbitrary ==> verdict == Some(true))
    case LegacyDenied => !admitted || (connect.arbitrary && verdict == Some(false))
  }

  /** Event i of the run asked for dial d, which stands where the events say. */
  ghost predicate ComesFrom(limits: Limits, events: seq<Event>, i: nat, d: DialId, dial: Dial) {
    && i < |events| && AsksFor(events[i], dial)
    && var before := After(limits, events[..i]);
    && before.nextDial == d
    && Tells(dial.phase, events[i], HasRoom(limits, before.manager.ledger, dial.ip), Verdict(events, i, d))
  }

  // ----- one step -----

  /** How one event moves a dial in flight. */
  predicate Moved(before: Phase, after: Phase, e: Event, d: DialId) {
    || (before == after
        && (e.Resolved? && e.dial == d ==> !before.TypedResolving? && !before.LegacyResolving?))
    || (before.TypedResolving? && after.TypedGranted? && e == Resolved(d, true))
    || (before.LegacyResolving? && after.LegacyGranted? && e == Resolved(d, true))
    || (before.LegacyResolving? && after.LegacyDenied? && e == Resolved(d, false))
    || (before.TypedGranted? && after.TypedDialing? && e.StartTyped?)
    || (before.LegacyGranted? && after.LegacyTransport? && e.ContinueLegacy?)
  }

  /** A dial in flight keeps its socket and address and moves on; a new one is the next. */
  ghost predicate Advanced(limits: Limits, st: State, e: Event, d: DialId, dial: Dial) {
    if d in st.dials then
      && dial.socket == st.dials[d].socket && dial.ip == st.dials[d].ip
      && Moved(st.dials[d].phase, dial.phase, e, d)
    else
      && d == st.nextDial && AsksFor(e, dial)
      && Tells(dial.phase, e, HasRoom(limits, st.manager.ledger, dial.ip), None)
  }

  lemma TypedConnectAdvances(limits: Limits, st: State, e: Event, d: DialId)
    requires Inv(limits, st) && e.TypedConnect? && d in ConnectTyped(limits, st, e).dials
    ensures Advanced(limits, st, e, d, ConnectTyped(limits, st, e).dials[d])
  {
  }

  lemma LegacyConnectAdvances(limits: Limits, st: State, e: Event, d: DialId)
    requires Inv(limits, st) && e.LegacyConnect? && d in ConnectLegacy(limits, st, e).dials
    ensures Advanced(limits, st, e, d, ConnectLegacy(limits, st, e).dials[d])
  {
  }

  lemma ResolutionAdvances(limits: Limits, st: State, x: DialId, permitted: bool, d: DialId)
    requires x in st.dials && d in ResolveTarget(st, x, permitted).dials
    ensures Advanced(limits, st, Resolved(x, permitted), d, ResolveTarget(st, x, permitted).dials[d])
  {
  }

  lemma ContinuationAdvances(limits: Limits, st: State, x: DialId, d: DialId)
    requires x in st.dials && d in LegacyContinuation(st, x).dials
    ensures Advanced(limits, st, ContinueLegacy(x), d, LegacyContinuation(st, x).dials[d])
  {
  }

  lemma TransportAdvances(limits: Limits, st: State, e: Event, d: DialId)
    requires e.TransportConnected? || e.TransportFailed?
    requires d in Step(limits, st, e).dials
    ensures Advanced(limits, st, e, d, Step(limits, st, e).dials[d])
  {
  }

  lemma OtherAdvances(limits: Limits, st: State, e: Event, d: DialId)
    requires !Connects(e) && !e.Resolved? && !e.ContinueLegacy? && !e.TransportConnected? && !e.TransportFailed?
    requires d in Step(limits, st, e).dials
    ensures Advanced(limits, st, e, d, Step(limits, st, e).dials[d])
  {
  }

  lemma StepAdvances(limits: Limits, st: State, e: Event, d: DialId)
    requires Inv(limits, st) && d in Step(limits, st, e).dials
    ensures Advanced(limits, st, e, d, Step(limits, st, e).dials[d])
  {
    match e
    case TypedConnect(_, _, _, _, _) => TypedConnectAdvances(limits, st, e, d);
    case LegacyConnect(_, _, _, _) => LegacyConnectAdvances(limits, st, e, d);
    case Resolved(x, permitted) => if x in st.dials { ResolutionAdvances(limits, st, x, permitted, d); }
    case ContinueLegacy(x) => if x in st.dials { ContinuationAdvances(limits, st, x, d); }
    case TransportConnected(_) => TransportAdvances(limits, st, e, d);
    case TransportFailed(_) => TransportAdvances(limits, st, e, d);
    case _ => OtherAdvances(limits, st, e, d);
  }

  // ----- every run -----

  lemma StillComesFrom(limits: Limits, events: seq<Event>, e: Event, i: nat, d: DialId, dial: Dial, dial1: Dial)
    requires ComesFrom(limits, events, i, d, dial)
    requires dial1.socket == dial.socket && dial1.ip == dial.ip && Moved(dial.phase, dial1.phase, e, d)
    ensures ComesFrom(limits, events + [e], i, d, dial1)
  {
    var more := events + [e];
    assert more[..i] == events[..i] && more[..|more| - 1] == events && more[i] == events[i];
  }

  /** Over every run, each dial in flight came from a connect of its own, on its socket and
      for its address, and stands where the events since then put it: it was admitted when its
      target was allowed and there was room, and an arbitrary target was then resolved, and
      first resolved so. */
  lemma {:induction false} DialsComeFromConnects(limits: Limits, events: seq<Event>)
    ensures var st := After(limits, events);
            forall d <- st.dials :: exists i: nat :: ComesFrom(limits, events, i, d, st.dials[d])
    decreases |events|
  {
    if events != [] {
      var earlier, e := events[..|events| - 1], events[|events| - 1];
      assert events == earlier + [e];
      RunSnoc(limits, InitialState(), earlier, e);
      DialsComeFromConnects(limits, earlier);
      var st, st1 := After(limits, earlier), After(limits, events);
      Reachable(limits, earlier);
      forall d <- st1.dials ensures exists i: nat :: ComesFrom(limits, events, i, d, st1.dials[d]) {
        StepAdvances(limits, st, e, d);
        if d in st.dials {
          var i: nat :| ComesFrom(limits, earlier, i, d, st.dials[d]);
          StillComesFrom(limits, earlier, e, i, d, st.dials[d], st1.dials[d]);
        } else {
          assert events[..|earlier|] == earlier;
          assert ComesFrom(limits, events, |earlier|, d, st1.dials[d]);
        }
      }
    }
  }

  /** Over every run, a dial that is or may be dialled (granted, dialling or waiting for its
      transport) was asked for with an allowed target while there was room, and if that target
      was arbitrary its address was resolved and permitted afterwards, before it was ever
      denied. */
  lemma DialledOnlyIfPermitted(limits: Limits, events: seq<Event>, d: DialId)
    requires d in After(limits, events).dials
    requires var phase := After(limits, events).dials[d].phase;
             phase.TypedGranted? || phase.TypedDialing? || phase.LegacyGranted? || phase.LegacyTransport?
    ensures var dial := After(limits, events).dials[d];
            exists i: nat | i < |events| ::
              && AsksFor(events[i], dial) && After(limits, events[..i]).nextDial == d
              && events[i].targetAllowed && HasRoom(limits, After(limits, events[..i]).manager.ledger, dial.ip)
              && (events[i].arbitrary ==>
                    exists j | i < j < |events| ::
                      && events[j] == Resolved(d, true)
                      && forall k | i < k < j :: events[k] != Resolved(d, false))
  {
    DialsComeFromConnects(limits, events);
    var dial := After(limits, events).dials[d];
    var i: nat :| ComesFrom(limits, events, i, d, dial);
    if events[i].arbitrary {
      var j := VerdictWasGiven(events, i, d);
    }
  }

  lemma {:induction false} VerdictWasGiven(events: seq<Event>, i: nat, d: DialId) returns (j: nat)
    requires i < |events| && Verdict(events, i, d).Some?
    ensures i < j < |events| && events[j] == Resolved(d, Verdict(events, i, d).value)
    ensures forall k | i < k < j :: !(events[k].Resolved? && events[k].dial == d)
    decreases |events|
  {
    var last := |events| - 1;
    if Verdict(events[..last], i, d).Some? {
      j := VerdictWasGiven(events[..last], i, d);
      assert events[..last][j] == events[j];
    } else {
      j := last;
      NoVerdictYet(events[..last], i, d);
    }
  }

  lemma {:induction false} NoVerdictYet(events: seq<Event>, i: nat, d: DialId)
    requires i < |events| && Verdict(events, i, d).None?
    ensures forall k | i < k < |events| :: !(events[k].Resolved? && events[k].dial == d)
    decreases |events|
  {
    var last := |events| - 1;
    if i < last {
      NoVerdictYet(events[..last], i, d);
      forall k | i < k < last ensures !(events[k].Resolved? && events[k].dial == d) {
        assert events[..last][k] == events[k];
      }
    }
  }
}
