/** The notification rate limit of the trigger matcher, and its cleanup pass. */
module TriggerLimits {
  import opened Wrappers

  type SessionId = nat
  type TriggerId = nat

  const HOUR_MS: int := 3600000
  const MINUTE_MS: int := 60000

  datatype Entry = Entry(count: nat, lastReset: int, last: map<TriggerId, int>)

  type Limits = map<SessionId, Entry>

  datatype Event =
    | Check(session: SessionId, trigger: TriggerId, now: int)
    | Cleanup(now: int, maxAgeMs: int)
    | Clear(session: SessionId, now: int)

  function Get(m: Limits, s: SessionId): Option<Entry> {
    if s in m then Some(m[s]) else None
  }

  /** A time of zero reads as "never". */
  predicate TooSoon(e: Entry, t: TriggerId, now: int) {
    t in e.last && e.last[t] != 0 && now - e.last[t] < MINUTE_MS
  }

  function Rolled(e: Entry, now: int): Entry {
    if now - e.lastReset > HOUR_MS then e.(count := 0, lastReset := now) else e
  }

  function CheckEntry(total: nat, entry: Option<Entry>, t: TriggerId, now: int): (bool, Entry) {
    match entry
    case None => (true, Entry(1, now, map[t := now]))
    case Some(e) =>
      var e1 := Rolled(e, now);
      if e1.count >= total || TooSoon(e1, t, now) then (false, e1)
      else (true, e1.(count := e1.count + 1, last := e1.last[t := now]))
  }

  function CleanupAt(m: Limits, now: int, maxAgeMs: int): Limits {
    map s | s in m && now - m[s].lastReset <= maxAgeMs :: m[s]
  }

  function Step(total: nat, m: Limits, e: Event): Limits {
    match e
    case Check(s, t, now) => m[s := CheckEntry(total, Get(m, s), t, now).1]
    case Cleanup(now, maxAgeMs) => CleanupAt(m, now, maxAgeMs)
    case Clear(s, _) => m - {s}
  }

  /** The answers of a run's checks, in order. */
  function Answers(total: nat, m: Limits, es: seq<Event>): seq<bool>
    decreases |es|
  {
    if es == [] then []
    else (if es[0].Check? then [CheckEntry(total, Get(m, es[0].session), es[0].trigger, es[0].now).0] else [])
         + Answers(total, Step(total, m, es[0]), es[1..])
  }

  datatype Hit = Hit(trigger: TriggerId, now: int)

  /** The notifications of session s that a run accepts. */
  function Hits(total: nat, m: Limits, es: seq<Event>, s: SessionId): seq<Hit>
    decreases |es|
  {
    if es == [] then []
    else
      var e := es[0];
      (if e.Check? && e.session == s && CheckEntry(total, Get(m, s), e.trigger, e.now).0
       then [Hit(e.trigger, e.now)] else [])
      + Hits(total, Step(total, m, e), es[1..], s)
  }

  /** The clock is positive and does not go back. */
  predicate InTime(from: int, es: seq<Event>)
    decreases |es|
  {
    0 < from && (es == [] || (from <= es[0].now && InTime(es[0].now, es[1..])))
  }

  lemma OlderAreCleaned(m: Limits, now: int, maxAgeMs: int, older: set<SessionId>)
    requires older == set s | s in m && now - m[s].lastReset > maxAgeMs
    ensures m - older == CleanupAt(m, now, maxAgeMs)
    ensures m.Keys - (m - older).Keys == older
  {
    assert (m - older).Keys == m.Keys - older;
  }

  // ----- the object -----

  class TriggerMatcher {
    var rateLimits: Limits
    const totalPerHour: nat

    constructor (totalPerHour: nat)
      ensures rateLimits == map[] && this.totalPerHour == totalPerHour
    {
      this.totalPerHour := totalPerHour;
      rateLimits := map[];
    }

    method CheckRateLimit(sessionId: SessionId, triggerId: TriggerId, now: int) returns (ok: bool)
      modifies this
      ensures ok == CheckEntry(totalPerHour, Get(old(rateLimits), sessionId), triggerId, now).0
      ensures rateLimits == Step(totalPerHour, old(rateLimits), Check(sessionId, triggerId, now))
    {
      if sessionId !in rateLimits {
        rateLimits := rateLimits[sessionId := Entry(1, now, map[triggerId := now])];
        return true;
      }
      if now - rateLimits[sessionId].lastReset > HOUR_MS {
        rateLimits := rateLimits[sessionId := rateLimits[sessionId].(count := 0, lastReset := now)];
      }
      var entry := rateLimits[sessionId];
      if entry.count >= totalPerHour {
        return false;
      }
      if triggerId in entry.last && entry.last[triggerId] != 0 {
        if now - entry.last[triggerId] < MINUTE_MS {
          return false;
        }
      }
      rateLimits := rateLimits[sessionId := entry.(count := entry.count + 1, last := entry.last[triggerId := now])];
      return true;
    }

    method CleanupOldEntries(now: int, maxAgeHours: nat) returns (deleted: nat)
      modifies this
      ensures rateLimits == Step(totalPerHour, old(rateLimits), Cleanup(now, maxAgeHours * HOUR_MS))
      ensures deleted == |old(rateLimits).Keys - rateLimits.Keys|
    {
      var maxAgeMs := maxAgeHours * HOUR_MS;
      deleted := DeleteOlder(now, maxAgeMs);
    }

    method DeleteOlder(now: int, maxAgeMs: int) returns (deleted: nat)
      modifies this
      ensures rateLimits == CleanupAt(old(rateLimits), now, maxAgeMs)
      ensures deleted == |old(rateLimits).Keys - rateLimits.Keys|
    {
      var toDelete := Older(now, maxAgeMs);
      DeleteAll(toDelete);
      OlderAreCleaned(old(rateLimits), now, maxAgeMs, toDelete);
      return |toDelete|;
    }

    method Older(now: int, maxAgeMs: int) returns (toDelete: set<SessionId>)
      ensures toDelete == set s | s in rateLimits && now - rateLimits[s].lastReset > maxAgeMs
    {
      toDelete := {};
      var keys := rateLimits.Keys;
      while keys != {}
        invariant keys <= rateLimits.Keys
        invariant toDelete == set s | s in rateLimits && s !in keys && now - rateLimits[s].lastReset > maxAgeMs
        decreases keys
      {
        var sessionId :| sessionId in keys;
        if now - rateLimits[sessionId].lastReset > maxAgeMs {
          toDelete := toDelete + {sessionId};
        }
        keys := keys - {sessionId};
      }
    }

    method DeleteAll(toDelete: set<SessionId>)
      modifies this
      ensures rateLimits == old(rateLimits) - toDelete
    {
      var todo := toDelete;
      while todo != {}
        invariant todo <= toDelete
        invariant rateLimits == old(rateLimits) - (toDelete - todo)
        decreases todo
      {
        var sessionId :| sessionId in todo;
        rateLimits := rateLimits - {sessionId};
        todo := todo - {sessionId};
      }
    }

    method ClearSession(sessionId: SessionId, now: int)
      modifies this
      ensures rateLimits == Step(totalPerHour, old(rateLimits), Clear(sessionId, now))
    {
      rateLimits := rateLimits - {sessionId};
    }
  }

  // ----- cleanup cannot be observed -----

  /** Nothing was accepted later than an hour after the last reset. */
  ghost predicate WellTimed(e: Entry, now: int) {
    forall t <- e.last :: 0 < e.last[t] <= now && e.last[t] <= e.lastReset + HOUR_MS
  }

  /** With a limit of one, every notification goes out at a reset. */
  ghost predicate OneEach(total: nat, e: Entry) {
    total == 1 ==> e.count == 1 && forall t <- e.last :: e.last[t] <= e.lastReset
  }

  /** How long an entry has to be kept for its removal to go unseen. */
  function NeededAge(total: nat): int {
    if total == 1 then 3600000 else 3659999
  }

  /** The last notification of t no longer holds anything back. */
  predicate Stale(e: Entry, t: TriggerId, now: int) {
    t !in e.last || now - e.last[t] >= MINUTE_MS
  }

  /** An entry that a fresh start could replace. */
  ghost predicate Spent(e: Entry, now: int) {
    now - e.lastReset > HOUR_MS && forall t :: Stale(e, t, now)
  }

  ghost predicate SameLast(a: Entry, b: Entry, now: int) {
    forall t :: (Stale(a, t, now) && Stale(b, t, now)) || (t in a.last && t in b.last && a.last[t] == b.last[t])
  }

  /** The cleaned side a and the uncleaned side b answer alike from now on. */
  ghost predicate Alike(total: nat, a: Option<Entry>, b: Option<Entry>, now: int) {
    match (a, b)
    case (None, None) => true
    case (None, Some(eb)) => Spent(eb, now) && WellTimed(eb, now) && OneEach(total, eb)
    case (Some(ea), None) => false
    case (Some(ea), Some(eb)) =>
      ea.count == eb.count && ea.lastReset == eb.lastReset && SameLast(ea, eb, now)
      && WellTimed(ea, now) && WellTimed(eb, now) && OneEach(total, ea) && OneEach(total, eb)
  }

  lemma AlikeLater(total: nat, a: Option<Entry>, b: Option<Entry>, from: int, now: int)
    requires Alike(total, a, b, from) && from <= now
    ensures Alike(total, a, b, now)
  {
    if a.Some? {
      forall t
        ensures (Stale(a.value, t, now) && Stale(b.value, t, now))
             || (t in a.value.last && t in b.value.last && a.value.last[t] == b.value.last[t])
      {
        assert Stale(a.value, t, from) ==> Stale(a.value, t, now);
      }
    } else if b.Some? {
      forall t
        ensures Stale(b.value, t, now)
      {
        assert Stale(b.value, t, from);
      }
    }
  }

  lemma AlikeCheck(total: nat, a: Option<Entry>, b: Option<Entry>, t: TriggerId, now: int)
    requires total >= 1 && now > 0 && Alike(total, a, b, now)
    ensures CheckEntry(total, a, t, now).0 == CheckEntry(total, b, t, now).0
    ensures Alike(total, Some(CheckEntry(total, a, t, now).1), Some(CheckEntry(total, b, t, now).1), now)
  {
    if b.Some? {
      var a1, b1 := CheckEntry(total, a, t, now).1, CheckEntry(total, b, t, now).1;
      assert a.None? ==> Stale(b.value, t, now);
      assert a.Some? ==> Stale(a.value, t, now) == Stale(b.value, t, now);
      forall x
        ensures (Stale(a1, x, now) && Stale(b1, x, now))
             || (x in a1.last && x in b1.last && a1.last[x] == b1.last[x])
      {
        assert a.None? ==> Stale(b.value, x, now);
        assert a.Some? ==> Stale(a.value, x, now) == Stale(b.value, x, now);
      }
    }
  }

  lemma AlikeCleanup(total: nat, a: Option<Entry>, b: Option<Entry>, now: int, maxAgeMs: int)
    requires Alike(total, a, b, now) && a.Some? && now - a.value.lastReset > maxAgeMs >= NeededAge(total)
    ensures Alike(total, None, b, now)
  {
  }

  ghost predicate AllAlike(total: nat, a: Limits, b: Limits, now: int) {
    forall s :: Alike(total, Get(a, s), Get(b, s), now)
  }

  predicate AgesAtLeast(es: seq<Event>, ageMs: int) {
    forall e <- es :: e.Cleanup? ==> e.maxAgeMs >= ageMs
  }

  function WithoutCleanups(es: seq<Event>): seq<Event> {
    if es == [] then [] else (if es[0].Cleanup? then [] else [es[0]]) + WithoutCleanups(es[1..])
  }

  lemma StepAlike(total: nat, a: Limits, b: Limits, e: Event)
    requires total >= 1 && e.now > 0 && AllAlike(total, a, b, e.now)
    requires e.Cleanup? ==> e.maxAgeMs >= NeededAge(total)
    ensures AllAlike(total, Step(total, a, e), if e.Cleanup? then b else Step(total, b, e), e.now)
    ensures e.Check? ==>
              CheckEntry(total, Get(a, e.session), e.trigger, e.now).0 ==
              CheckEntry(total, Get(b, e.session), e.trigger, e.now).0
  {
    var a1, b1 := Step(total, a, e), if e.Cleanup? then b else Step(total, b, e);
    if e.Check? {
      AlikeCheck(total, Get(a, e.session), Get(b, e.session), e.trigger, e.now);
    }
    forall s
      ensures Alike(total, Get(a1, s), Get(b1, s), e.now)
    {
      assert Alike(total, Get(a, s), Get(b, s), e.now);
      if e.Cleanup? && s in a && s !in a1 {
        AlikeCleanup(total, Get(a, s), Get(b, s), e.now, e.maxAgeMs);
      }
    }
  }

  lemma {:induction false} RunsAlike(total: nat, a: Limits, b: Limits, from: int, es: seq<Event>, s: SessionId)
    requires total >= 1 && AllAlike(total, a, b, from) && InTime(from, es)
    requires AgesAtLeast(es, NeededAge(total))
    ensures Answers(total, a, es) == Answers(total, b, WithoutCleanups(es))
    ensures Hits(total, a, es, s) == Hits(total, b, WithoutCleanups(es), s)
    decreases |es|
  {
    if es != [] {
      var e, rest := es[0], es[1..];
      forall x
        ensures Alike(total, Get(a, x), Get(b, x), e.now)
      {
        AlikeLater(total, Get(a, x), Get(b, x), from, e.now);
      }
      StepAlike(total, a, b, e);
      var a1, b1 := Step(total, a, e), if e.Cleanup? then b else Step(total, b, e);
      RunsAlike(total, a1, b1, e.now, rest, s);
      if !e.Cleanup? {
        assert ([e] + WithoutCleanups(rest))[1..] == WithoutCleanups(rest);
      } else {
        assert [] + WithoutCleanups(rest) == WithoutCleanups(rest);
        assert [] + Hits(total, a1, rest, s) == Hits(total, a1, rest, s);
      }
    }
  }

  /** Cleaning up anywhere in a run changes no answer. */
  lemma CleanupUnobservable(total: nat, from: int, es: seq<Event>)
    requires total >= 1 && InTime(from, es) && AgesAtLeast(es, NeededAge(total))
    ensures Answers(total, map[], es) == Answers(total, map[], WithoutCleanups(es))
  {
    RunsAlike(total, map[], map[], from, es, 0);
  }

  // ----- ... exactly when entries are kept long enough -----

  ghost predicate NeverObserved(total: nat, maxAgeMs: int) {
    forall from: int, es: seq<Event> | InTime(from, es) && (forall e <- es :: e.Cleanup? ==> e.maxAgeMs == maxAgeMs) ::
      Answers(total, map[], es) == Answers(total, map[], WithoutCleanups(es))
  }

  lemma AnswersCons(total: nat, m: Limits, e: Event, es: seq<Event>)
    ensures Answers(total, m, [e] + es)
         == (if e.Check? then [CheckEntry(total, Get(m, e.session), e.trigger, e.now).0] else [])
            + Answers(total, Step(total, m, e), es)
    ensures WithoutCleanups([e] + es) == (if e.Cleanup? then [] else [e]) + WithoutCleanups(es)
    ensures forall from :: 0 < from <= e.now && InTime(e.now, es) ==> InTime(from, [e] + es)
  {
    assert ([e] + es)[1..] == es;
  }

  /** Two notifications an hour apart, a cleanup, and the trigger again within the minute:
      only the cleaned side accepts it. */
  lemma TooEagerObserved(total: nat, maxAgeMs: int) returns (es: seq<Event>)
    requires total >= 2 && maxAgeMs < HOUR_MS + MINUTE_MS - 1
    ensures InTime(1, es) && forall e <- es :: e.Cleanup? ==> e.maxAgeMs == maxAgeMs
    ensures Answers(total, map[], es) != Answers(total, map[], WithoutCleanups(es))
  {
    var late := HOUR_MS + MINUTE_MS;
    var e1, e2, e3, e4 := Check(0, 0, 1), Check(0, 0, 1 + HOUR_MS), Cleanup(late, maxAgeMs), Check(0, 0, late);
    es := [e1] + ([e2] + ([e3] + ([e4] + [])));
    var m1 := Step(total, map[], e1);
    var m2 := Step(total, m1, e2);
    assert m1[0] == Entry(1, 1, map[0 := 1]);
    assert m2[0] == Entry(2, 1, map[0 := 1][0 := 1 + HOUR_MS]);
    assert Step(total, m2, e3) == map[];
    AnswersCons(total, map[], e1, [e2] + ([e3] + ([e4] + [])));
    AnswersCons(total, m1, e2, [e3] + ([e4] + []));
    AnswersCons(total, m2, e3, [e4] + []);
    AnswersCons(total, map[], e4, []);
    AnswersCons(total, m2, e4, []);
    AnswersCons(total, m1, e2, [e4] + []);
    AnswersCons(total, map[], e1, [e2] + ([e4] + []));
    assert [] + ([e4] + []) == [e4] + [];
    assert Answers(total, map[], es)[2] != Answers(total, map[], WithoutCleanups(es))[2];
  }

  /** With a limit of one, a notification and another as soon as the cleanup takes the entry. */
  lemma TooEagerForOneObserved(maxAgeMs: int) returns (es: seq<Event>)
    requires maxAgeMs < HOUR_MS
    ensures InTime(1, es) && forall e <- es :: e.Cleanup? ==> e.maxAgeMs == maxAgeMs
    ensures Answers(1, map[], es) != Answers(1, map[], WithoutCleanups(es))
  {
    es := OnceAgainObserved(1, 1 + HOUR_MS, maxAgeMs);
  }

  /** With a limit of zero the first notification still goes out, once per cleanup. */
  lemma ZeroLimitObserved(maxAgeMs: int) returns (es: seq<Event>)
    ensures InTime(1, es) && forall e <- es :: e.Cleanup? ==> e.maxAgeMs == maxAgeMs
    ensures Answers(0, map[], es) != Answers(0, map[], WithoutCleanups(es))
  {
    es := OnceAgainObserved(0, if maxAgeMs >= 0 then maxAgeMs + 2 else 2, maxAgeMs);
  }

  lemma OnceAgainObserved(total: nat, late: int, maxAgeMs: int) returns (es: seq<Event>)
    requires late > 1 && late - 1 > maxAgeMs && (total == 0 || (total == 1 && late - 1 <= HOUR_MS))
    ensures InTime(1, es) && forall e <- es :: e.Cleanup? ==> e.maxAgeMs == maxAgeMs
    ensures Answers(total, map[], es) != Answers(total, map[], WithoutCleanups(es))
  {
    var e1, e2, e3 := Check(0, 0, 1), Cleanup(late, maxAgeMs), Check(0, 0, late);
    es := [e1] + ([e2] + ([e3] + []));
    var m1 := Step(total, map[], e1);
    assert Step(total, m1, e2) == map[];
    AnswersCons(total, map[], e1, [e2] + ([e3] + []));
    AnswersCons(total, m1, e2, [e3] + []);
    AnswersCons(total, map[], e3, []);
    AnswersCons(total, m1, e3, []);
    AnswersCons(total, map[], e1, [e3] + []);
    assert [] + ([e3] + []) == [e3] + [];
    assert Answers(total, map[], es)[1] != Answers(total, map[], WithoutCleanups(es))[1];
  }

  /** Cleanup is unobservable exactly when the limit is not zero and entries are kept long enough. */
  lemma UnobservableExactly(total: nat, maxAgeMs: int)
    ensures NeverObserved(total, maxAgeMs) <==> total >= 1 && maxAgeMs >= NeededAge(total)
  {
    if total == 0 {
      var es := ZeroLimitObserved(maxAgeMs);
    } else if maxAgeMs >= NeededAge(total) {
      forall from: int, es: seq<Event>
        | InTime(from, es) && (forall e <- es :: e.Cleanup? ==> e.maxAgeMs == maxAgeMs)
        ensures Answers(total, map[], es) == Answers(total, map[], WithoutCleanups(es))
      {
        CleanupUnobservable(total, from, es);
      }
    } else if total == 1 {
      var es := TooEagerForOneObserved(maxAgeMs);
    } else {
      var es := TooEagerObserved(total, maxAgeMs);
    }
  }

  const DEFAULT_MAX_AGE_MS: int := 4 * HOUR_MS

  /** With the default age, cleanup is unobservable exactly when the limit is not zero. */
  lemma DefaultAgeUnobservable(total: nat)
    ensures NeverObserved(total, DEFAULT_MAX_AGE_MS) <==> total >= 1
  {
    UnobservableExactly(total, DEFAULT_MAX_AGE_MS);
  }

  // ----- how many notifications get through -----

  /** Those in the hour that ends at t. */
  function InHour(hits: seq<Hit>, t: int): nat {
    if hits == [] then 0
    else (if t - 3600000 < hits[0].now <= t then 1 else 0) + InHour(hits[1..], t)
  }

  predicate NeverCleared(es: seq<Event>, s: SessionId) {
    forall e <- es :: e.Check? || (e.Clear? && e.session != s)
  }

  /** What may still fall into the hour that ends at t, given the current count. */
  function Room(total: nat, entry: Option<Entry>, t: int, now: int): int {
    if t < now then 0
    else match entry
      case None => 2 * total
      case Some(e) =>
        if t <= e.lastReset + HOUR_MS then total - e.count
        else if t - HOUR_MS < e.lastReset + HOUR_MS then 2 * total - e.count
        else 2 * total
  }

  ghost predicate Sound(total: nat, entry: Option<Entry>, now: int) {
    entry.Some? ==> entry.value.count <= total && entry.value.lastReset <= now
  }

  lemma {:induction false} HitsFitRoom(total: nat, m: Limits, from: int, es: seq<Event>, s: SessionId, t: int)
    requires total >= 1 && InTime(from, es) && NeverCleared(es, s) && Sound(total, Get(m, s), from)
    ensures InHour(Hits(total, m, es, s), t) <= Room(total, Get(m, s), t, from)
    decreases |es|
  {
    if es != [] {
      var e := es[0];
      var m1 := Step(total, m, e);
      HitsFitRoom(total, m1, e.now, es[1..], s, t);
      var rest := Hits(total, m1, es[1..], s);
      if e.Check? && e.session == s && CheckEntry(total, Get(m, s), e.trigger, e.now).0 {
        assert ([Hit(e.trigger, e.now)] + rest)[1..] == rest;
      } else {
        assert [] + rest == rest;
      }
    }
  }

  /** No two of one trigger within a minute. */
  predicate OncePerMinute(hits: seq<Hit>) {
    hits == [] || (NotSoonAgain(hits[0], hits[1..]) && OncePerMinute(hits[1..]))
  }

  predicate NotSoonAgain(first: Hit, later: seq<Hit>) {
    forall h <- later :: h.trigger == first.trigger ==> h.now - first.now >= 60000
  }

  /** Every later hit keeps its distance from what the entry remembers. */
  ghost predicate KeepsDistance(entry: Option<Entry>, hits: seq<Hit>) {
    entry.Some? ==>
      forall h <- hits :: h.trigger in entry.value.last ==> h.now - entry.value.last[h.trigger] >= MINUTE_MS
  }

  lemma HitKeepsDistance(total: nat, entry: Option<Entry>, t: TriggerId, now: int, rest: seq<Hit>)
    requires now > 0 && (entry.Some? ==> WellTimed(entry.value, now))
    requires (forall h <- rest :: h.now >= now) && KeepsDistance(Some(CheckEntry(total, entry, t, now).1), rest)
    ensures WellTimed(CheckEntry(total, entry, t, now).1, now)
    ensures KeepsDistance(entry, if CheckEntry(total, entry, t, now).0 then [Hit(t, now)] + rest else rest)
    ensures CheckEntry(total, entry, t, now).0 ==> NotSoonAgain(Hit(t, now), rest)
  {
  }

  lemma {:induction false} HitsOncePerMinute(total: nat, m: Limits, from: int, es: seq<Event>, s: SessionId)
    requires InTime(from, es) && NeverCleared(es, s)
    requires s in m ==> WellTimed(m[s], from)
    ensures OncePerMinute(Hits(total, m, es, s)) && KeepsDistance(Get(m, s), Hits(total, m, es, s))
    ensures forall h <- Hits(total, m, es, s) :: h.now >= from
    decreases |es|
  {
    if es != [] {
      var e := es[0];
      var m1 := Step(total, m, e);
      var rest := Hits(total, m1, es[1..], s);
      if e.Check? && e.session == s {
        HitsStep(total, m, e, es[1..]);
        assert Get(m1, s) == Some(CheckEntry(total, Get(m, s), e.trigger, e.now).1);
        assert WellTimed(m1[s], e.now) by {
          HitKeepsDistance(total, Get(m, s), e.trigger, e.now, []);
        }
        HitsOncePerMinute(total, m1, e.now, es[1..], s);
        HitKeepsDistance(total, Get(m, s), e.trigger, e.now, rest);
        assert ([Hit(e.trigger, e.now)] + rest)[1..] == rest;
      } else {
        HitsOncePerMinute(total, m1, e.now, es[1..], s);
      }
      assert [] + rest == rest;
    }
  }

  lemma HitsStep(total: nat, m: Limits, e: Event, es: seq<Event>)
    requires e.Check?
    ensures Hits(total, m, [e] + es, e.session)
         == (if CheckEntry(total, Get(m, e.session), e.trigger, e.now).0 then [Hit(e.trigger, e.now)] else [])
            + Hits(total, Step(total, m, e), es, e.session)
  {
    assert ([e] + es)[1..] == es;
  }

  lemma {:induction false} WithoutCleanupsKeeps(from: int, es: seq<Event>, s: SessionId)
    requires InTime(from, es) && (forall e <- es :: e.Clear? ==> e.session != s)
    ensures InTime(from, WithoutCleanups(es)) && NeverCleared(WithoutCleanups(es), s)
    decreases |es|
  {
    if es != [] {
      var rest := WithoutCleanups(es[1..]);
      WithoutCleanupsKeeps(es[0].now, es[1..], s);
      if es[0].Cleanup? {
        assert [] + rest == rest;
        InTimeEarlier(from, es[0].now, rest);
      } else {
        assert ([es[0]] + rest)[1..] == rest;
      }
    }
  }

  lemma InTimeEarlier(from: int, later: int, es: seq<Event>)
    requires 0 < from <= later && InTime(later, es)
    ensures InTime(from, es)
  {
  }

  /** However a run goes, with cleanups anywhere in it, a session that is not removed gets
      at most twice its limit in any hour, and no trigger twice within a minute. */
  lemma NotificationsBounded(total: nat, from: int, es: seq<Event>, s: SessionId, t: int)
    requires total >= 1 && InTime(from, es) && AgesAtLeast(es, NeededAge(total))
    requires forall e <- es :: e.Clear? ==> e.session != s
    ensures InHour(Hits(total, map[], es, s), t) <= 2 * total
    ensures OncePerMinute(Hits(total, map[], es, s))
  {
    var kept := WithoutCleanups(es);
    RunsAlike(total, map[], map[], from, es, s);
    WithoutCleanupsKeeps(from, es, s);
    HitsFitRoom(total, map[], from, kept, s, t);
    HitsOncePerMinute(total, map[], from, kept, s);
  }
}
