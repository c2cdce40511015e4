/** What the two per-source limiters promise over whole runs: their trimmed lists decide
    exactly as full logs would, and the store stays bounded. */
module LimiterTheorems {
  import opened WindowStore

  /** The full log of a source: everything recorded since it was last evicted. */
  type Logs = map<Source, seq<int>>

  datatype Pair = Pair(store: Store, logs: Logs)

  const START := Pair(EMPTY, map[])

  /** The logs lose exactly the source that making room evicts. */
  function LogRoom(c: Config, p: Pair, s: Source): Logs {
    if s !in p.store.times && |p.store.times| >= c.maxTracked && p.store.order != [] then p.logs - {p.store.order[0]}
    else p.logs
  }

  function Record(logs: Logs, s: Source, now: int): Logs {
    logs[s := Get(logs, s) + [now]]
  }

  /** A source's trimmed list stands for its full log. */
  predicate Agrees(c: Config, p: Pair, s: Source, now: int) {
    StandsFor(Get(p.store.times, s), Get(p.logs, s), now - c.windowMs)
  }

  ghost predicate Refines(c: Config, p: Pair, now: int) {
    Wf(p.store) && forall s :: Agrees(c, p, s, now)
  }

  // ----- steps shared by both limiters -----

  lemma LaterRefines(c: Config, p: Pair, from: int, now: int)
    requires Refines(c, p, from) && from <= now
    ensures Refines(c, p, now)
  {
    forall s
      ensures Agrees(c, p, s, now)
    {
      assert Agrees(c, p, s, from);
      LaterStandsFor(Get(p.store.times, s), Get(p.logs, s), from - c.windowMs, now - c.windowMs);
    }
  }

  /** The window that ends now holds the same timestamps in both. */
  lemma SameCount(c: Config, p: Pair, from: int, s: Source, now: int)
    requires Refines(c, p, from) && from <= now
    ensures Kept(c, p.store, s, now) == After(Get(p.logs, s), now - c.windowMs)
  {
    assert Agrees(c, p, s, from);
    LaterStandsFor(Get(p.store.times, s), Get(p.logs, s), from - c.windowMs, now - c.windowMs);
  }

  lemma RoomRefines(c: Config, p: Pair, s: Source, now: int)
    requires Refines(c, p, now)
    ensures Refines(c, Pair(MakeRoom(c, p.store, s), LogRoom(c, p, s)), now)
  {
    MakeRoomWf(c, p.store, s);
    var p1 := Pair(MakeRoom(c, p.store, s), LogRoom(c, p, s));
    if p1.store != p.store {
      assert p.store.order[0] in p.store.times;
    }
    forall x
      ensures Agrees(c, p1, x, now)
    {
      assert Agrees(c, p, x, now);
    }
  }

  lemma PutRefines(c: Config, p: Pair, s: Source, ts: seq<int>, full: seq<int>, now: int)
    requires Refines(c, p, now) && StandsFor(ts, full, now - c.windowMs)
    ensures Refines(c, Pair(Put(p.store, s, ts), p.logs[s := full]), now)
  {
    PutWf(p.store, s, ts);
    var p1 := Pair(Put(p.store, s, ts), p.logs[s := full]);
    forall x
      ensures Agrees(c, p1, x, now)
    {
      assert Agrees(c, p, x, now);
    }
  }

  /** Storing a trimmed list, or dropping an empty one, changes nothing that matters. */
  lemma TrimRefines(c: Config, p: Pair, s: Source, now: int)
    requires Refines(c, p, now)
    ensures Refines(c, Pair(Put(p.store, s, Kept(c, p.store, s, now)), p.logs), now)
    ensures StandsFor(Kept(c, p.store, s, now), Get(p.logs, s), now - c.windowMs)
  {
    var kept := Kept(c, p.store, s, now);
    assert Agrees(c, p, s, now);
    TrimStandsFor(Get(p.store.times, s), Get(p.logs, s), now - c.windowMs);
    PutWf(p.store, s, kept);
    forall x
      ensures Agrees(c, Pair(Put(p.store, s, kept), p.logs), x, now)
    {
      assert Agrees(c, p, x, now);
    }
  }

  lemma RecentRefines(c: Config, p: Pair, s: Source, now: int)
    requires Refines(c, p, now)
    ensures Refines(c, Pair(Recent(c, p.store, s, now), p.logs), now)
  {
    TrimRefines(c, p, s, now);
    var recent := Recent(c, p.store, s, now);
    if Kept(c, p.store, s, now) == [] {
      DropWf(p.store, s);
      forall x
        ensures Agrees(c, Pair(recent, p.logs), x, now)
      {
        assert Agrees(c, p, x, now);
        assert x != s ==> Get(recent.times, x) == Get(p.store.times, x);
      }
    }
  }

  // ----- the sliding-window limiter -----

  datatype Request = Request(source: Source, now: int)

  predicate Monotone(from: int, rs: seq<Request>)
    decreases |rs|
  {
    rs == [] || (from <= rs[0].now && Monotone(rs[0].now, rs[1..]))
  }

  /** The time a run has come to. */
  function Until(from: int, rs: seq<Request>): int
    decreases |rs|
  {
    if rs == [] then from else Until(rs[0].now, rs[1..])
  }

  function ConsumeStep(c: Config, p: Pair, r: Request): Pair {
    var (allowed, store) := Consume(c, p.store, r.source, r.now);
    Pair(store, if allowed then Record(LogRoom(c, p, r.source), r.source, r.now) else p.logs)
  }

  function ConsumeRun(c: Config, p: Pair, rs: seq<Request>): Pair
    decreases |rs|
  {
    if rs == [] then p else ConsumeRun(c, ConsumeStep(c, p, rs[0]), rs[1..])
  }

  lemma ConsumeRefines(c: Config, p: Pair, r: Request)
    requires Refines(c, p, r.now)
    ensures Refines(c, ConsumeStep(c, p, r), r.now)
  {
    TrimRefines(c, p, r.source, r.now);
    var kept := Kept(c, p.store, r.source, r.now);
    if |kept| < c.limit {
      RoomRefines(c, p, r.source, r.now);
      PushStandsFor(kept, Get(p.logs, r.source), r.now - c.windowMs, r.now);
      LogRoomSpares(c, p, r.source);
      PutRefines(c, Pair(MakeRoom(c, p.store, r.source), LogRoom(c, p, r.source)), r.source, kept + [r.now],
                 Get(LogRoom(c, p, r.source), r.source) + [r.now], r.now);
    }
  }

  /** Making room for a source never evicts that source. */
  lemma LogRoomSpares(c: Config, p: Pair, s: Source)
    requires Wf(p.store)
    ensures Get(LogRoom(c, p, s), s) == Get(p.logs, s)
    ensures Get(MakeRoom(c, p.store, s).times, s) == Get(p.store.times, s)
  {
    MakeRoomWf(c, p.store, s);
    if p.store.order != [] {
      assert p.store.order[0] in p.store.times;
    }
  }

  lemma {:induction false} ConsumeRunRefines(c: Config, p: Pair, from: int, rs: seq<Request>)
    requires Refines(c, p, from) && Monotone(from, rs)
    ensures Refines(c, ConsumeRun(c, p, rs), Until(from, rs))
    decreases |rs|
  {
    if rs != [] {
      LaterRefines(c, p, from, rs[0].now);
      ConsumeRefines(c, p, rs[0]);
      ConsumeRunRefines(c, ConsumeStep(c, p, rs[0]), rs[0].now, rs[1..]);
    }
  }

  /** After any run, a request is allowed exactly when fewer than the limit of the accepted
      requests of its source since its last eviction lie in the window that ends now. */
  lemma AllowedIffFewAccepted(c: Config, rs: seq<Request>, from: int, r: Request)
    requires Monotone(from, rs) && Until(from, rs) <= r.now
    ensures var p := ConsumeRun(c, START, rs);
            Consume(c, p.store, r.source, r.now).0
            <==> |After(Get(p.logs, r.source), r.now - c.windowMs)| < c.limit
  {
    ConsumeRunRefines(c, START, from, rs);
    SameCount(c, ConsumeRun(c, START, rs), Until(from, rs), r.source, r.now);
  }

  // ----- how many are let through -----

  /** In time order, and no more than limit of them inside any one window: each lies a
      full window after the one limit places before it. */
  predicate Spaced(ts: seq<int>, limit: nat, windowMs: nat) {
    && (forall i, j | 0 <= i <= j < |ts| :: ts[i] <= ts[j])
    && (forall i | limit <= i < |ts| :: ts[i - limit] + windowMs <= ts[i])
  }

  /** In a list in time order, what lies after a cutoff is a suffix. */
  lemma {:induction false} AfterIsSuffix(ts: seq<int>, cutoff: int)
    requires forall i, j | 0 <= i <= j < |ts| :: ts[i] <= ts[j]
    ensures |After(ts, cutoff)| <= |ts|
    ensures forall i | 0 <= i < |ts| :: ts[i] > cutoff <==> i >= |ts| - |After(ts, cutoff)|
    decreases |ts|
  {
    if ts != [] {
      AfterIsSuffix(ts[1..], cutoff);
      assert forall i | 1 <= i < |ts| :: ts[1..][i - 1] == ts[i];
      if ts[0] > cutoff && |ts| > 1 {
        assert ts[1..][0] > cutoff;
      }
    }
  }

  /** A window that ends at or after the last of them holds at most limit. */
  lemma SpacedCount(ts: seq<int>, limit: nat, windowMs: nat, now: int)
    requires Spaced(ts, limit, windowMs) && (ts != [] ==> ts[|ts| - 1] <= now)
    ensures |After(ts, now - windowMs)| <= limit
  {
    AfterIsSuffix(ts, now - windowMs);
    if |ts| > limit {
      assert ts[|ts| - 1 - limit] + windowMs <= ts[|ts| - 1] <= now;
    }
  }

  lemma SpacedPush(ts: seq<int>, limit: nat, windowMs: nat, now: int)
    requires Spaced(ts, limit, windowMs) && (ts != [] ==> ts[|ts| - 1] <= now)
    requires |After(ts, now - windowMs)| < limit
    ensures Spaced(ts + [now], limit, windowMs)
  {
    AfterIsSuffix(ts, now - windowMs);
  }

  ghost predicate AllSpaced(c: Config, logs: Logs, now: int) {
    forall s <- logs :: Spaced(logs[s], c.limit, c.windowMs) && (logs[s] != [] ==> logs[s][|logs[s]| - 1] <= now)
  }

  predicate Allows(c: Config, st: Store, s: Source, now: int) { |Kept(c, st, s, now)| < c.limit }

  lemma AllowedByCount(c: Config, p: Pair, s: Source, now: int)
    requires Refines(c, p, now)
    ensures Allows(c, p.store, s, now) <==> |After(Get(p.logs, s), now - c.windowMs)| < c.limit
  {
    SameCount(c, p, now, s, now);
  }

  lemma RoomSpaced(c: Config, p: Pair, s: Source, now: int)
    requires AllSpaced(c, p.logs, now)
    ensures AllSpaced(c, LogRoom(c, p, s), now)
  {
  }

  lemma StepLogs(c: Config, p: Pair, r: Request)
    ensures ConsumeStep(c, p, r).logs
         == if Allows(c, p.store, r.source, r.now) then Record(LogRoom(c, p, r.source), r.source, r.now) else p.logs
  {
  }

  lemma ConsumeSpaced(c: Config, p: Pair, r: Request)
    requires Refines(c, p, r.now) && AllSpaced(c, p.logs, r.now)
    ensures AllSpaced(c, ConsumeStep(c, p, r).logs, r.now)
  {
    StepLogs(c, p, r);
    AllowedByCount(c, p, r.source, r.now);
    LogRoomSpares(c, p, r.source);
    RoomSpaced(c, p, r.source, r.now);
    RecordSpaced(c, LogRoom(c, p, r.source), r.source, r.now);
  }

  lemma RecordSpaced(c: Config, logs: Logs, s: Source, now: int)
    requires AllSpaced(c, logs, now)
    ensures |After(Get(logs, s), now - c.windowMs)| < c.limit ==> AllSpaced(c, Record(logs, s, now), now)
  {
    if |After(Get(logs, s), now - c.windowMs)| < c.limit {
      SpacedPush(Get(logs, s), c.limit, c.windowMs, now);
    }
  }

  /** However a source behaves, the requests it gets through since it was last evicted lie
      so that no window ever holds more than the limit. */
  lemma {:induction false} AcceptedAreSpaced(c: Config, p: Pair, from: int, rs: seq<Request>)
    requires Refines(c, p, from) && AllSpaced(c, p.logs, from) && Monotone(from, rs)
    ensures AllSpaced(c, ConsumeRun(c, p, rs).logs, Until(from, rs))
    decreases |rs|
  {
    if rs != [] {
      LaterRefines(c, p, from, rs[0].now);
      ConsumeSpaced(c, p, rs[0]);
      ConsumeRefines(c, p, rs[0]);
      AcceptedAreSpaced(c, ConsumeStep(c, p, rs[0]), rs[0].now, rs[1..]);
    }
  }

  lemma {:induction false} StoreBounded(c: Config, p: Pair, rs: seq<Request>)
    requires c.limit >= 1 && Bounded(c, p.store)
    ensures Bounded(c, ConsumeRun(c, p, rs).store)
    decreases |rs|
  {
    if rs != [] {
      var r := rs[0];
      var p1 := ConsumeStep(c, p, r);
      var kept := Kept(c, p.store, r.source, r.now);
      RoomThenPut(c, p.store, r.source, kept + [r.now]);
      PutWf(p.store, r.source, kept);
      MakeRoomWf(c, p.store, r.source);
      StoreBounded(c, p1, rs[1..]);
    }
  }

  /** With a limit of zero every request is refused, and every source stays stored. */
  lemma {:induction false} ZeroLimitKeepsEverySource(c: Config, p: Pair, rs: seq<Request>)
    requires c.limit == 0
    ensures ConsumeRun(c, p, rs).store.times.Keys == p.store.times.Keys + SourcesOf(rs)
    decreases |rs|
  {
    if rs != [] {
      ZeroLimitKeepsEverySource(c, ConsumeStep(c, p, rs[0]), rs[1..]);
      assert ConsumeStep(c, p, rs[0]).store.times.Keys == p.store.times.Keys + {rs[0].source};
      assert SourcesOf(rs) == {rs[0].source} + SourcesOf(rs[1..]);
    }
  }

  function SourcesOf(rs: seq<Request>): set<Source> {
    if rs == [] then {} else {rs[0].source} + SourcesOf(rs[1..])
  }

  /** One request from each of n different sources. */
  function Rotating(n: nat): (rs: seq<Request>)
    ensures Monotone(0, rs)
  {
    if n == 0 then [] else [Request(n, 0)] + Rotating(n - 1)
  }

  lemma {:induction false} RotatingSources(n: nat)
    ensures |SourcesOf(Rotating(n))| == n && forall s <- SourcesOf(Rotating(n)) :: s <= n
  {
    if n > 0 {
      RotatingSources(n - 1);
      assert Rotating(n)[1..] == Rotating(n - 1);
      assert n !in SourcesOf(Rotating(n - 1));
    }
  }

  /** The store stays within its cap on every run exactly when the limit is not zero. */
  lemma BoundedExactlyWhenLimited(c: Config)
    ensures c.limit >= 1 <==> forall rs :: Monotone(0, rs) ==> Bounded(c, ConsumeRun(c, START, rs).store)
  {
    if c.limit >= 1 {
      forall rs | Monotone(0, rs)
        ensures Bounded(c, ConsumeRun(c, START, rs).store)
      {
        StoreBounded(c, START, rs);
      }
    } else {
      var n := c.maxTracked + 2;
      ZeroLimitKeepsEverySource(c, START, Rotating(n));
      RotatingSources(n);
      var store := ConsumeRun(c, START, Rotating(n)).store;
      assert store.times.Keys == SourcesOf(Rotating(n));
      assert |store.times| == |store.times.Keys|;
      assert Monotone(0, Rotating(n)) && !Bounded(c, store);
    }
  }

  // ----- the failed-authentication limiter -----

  datatype Attempt =
    | Failure(source: Source, now: int)
    | Success(source: Source, now: int)
    | Probe(source: Source, now: int)

  predicate InOrder(from: int, xs: seq<Attempt>)
    decreases |xs|
  {
    xs == [] || (from <= xs[0].now && InOrder(xs[0].now, xs[1..]))
  }

  function Last(from: int, xs: seq<Attempt>): int
    decreases |xs|
  {
    if xs == [] then from else Last(xs[0].now, xs[1..])
  }

  function AttemptStep(c: Config, p: Pair, a: Attempt): Pair {
    match a
    case Failure(s, now) => Pair(Fail(c, p.store, s, now), Record(LogRoom(c, p, s), s, now))
    case Success(s, _) => Pair(Drop(p.store, s), p.logs - {s})
    case Probe(s, now) => Pair(Blocked(c, p.store, s, now).1, p.logs)
  }

  function AttemptRun(c: Config, p: Pair, xs: seq<Attempt>): Pair
    decreases |xs|
  {
    if xs == [] then p else AttemptRun(c, AttemptStep(c, p, xs[0]), xs[1..])
  }

  lemma FailureRefines(c: Config, p: Pair, s: Source, now: int)
    requires Refines(c, p, now)
    ensures Refines(c, AttemptStep(c, p, Failure(s, now)), now)
  {
    RoomRefines(c, p, s, now);
    LogRoomSpares(c, p, s);
    var p1 := Pair(MakeRoom(c, p.store, s), LogRoom(c, p, s));
    var kept, full := Kept(c, p1.store, s, now), Get(p1.logs, s);
    TrimRefines(c, p1, s, now);
    RecentRefines(c, p1, s, now);
    PushStandsFor(kept, full, now - c.windowMs, now);
    PutRefines(c, Pair(Recent(c, p1.store, s, now), p1.logs), s, kept + [now], full + [now], now);
  }

  lemma SuccessRefines(c: Config, p: Pair, s: Source, now: int)
    requires Refines(c, p, now)
    ensures Refines(c, AttemptStep(c, p, Success(s, now)), now)
  {
    DropWf(p.store, s);
    var p1 := AttemptStep(c, p, Success(s, now));
    forall x
      ensures Agrees(c, p1, x, now)
    {
      assert Agrees(c, p, x, now);
    }
  }

  lemma AttemptRefines(c: Config, p: Pair, a: Attempt)
    requires Refines(c, p, a.now)
    ensures Refines(c, AttemptStep(c, p, a), a.now)
  {
    match a {
      case Failure(s, now) => FailureRefines(c, p, s, now);
      case Success(s, now) => SuccessRefines(c, p, s, now);
      case Probe(s, now) =>
        RecentRefines(c, p, s, now);
    }
  }

  lemma {:induction false} AttemptRunRefines(c: Config, p: Pair, from: int, xs: seq<Attempt>)
    requires Refines(c, p, from) && InOrder(from, xs)
    ensures Refines(c, AttemptRun(c, p, xs), Last(from, xs))
    decreases |xs|
  {
    if xs != [] {
      LaterRefines(c, p, from, xs[0].now);
      AttemptRefines(c, p, xs[0]);
      AttemptRunRefines(c, AttemptStep(c, p, xs[0]), xs[0].now, xs[1..]);
    }
  }

  /** After any run, a source is blocked exactly when at least the limit of its failures
      since its last success, or its last eviction, lie in the window that ends now. */
  lemma BlockedIffManyFailures(c: Config, xs: seq<Attempt>, from: int, s: Source, now: int)
    requires InOrder(from, xs) && Last(from, xs) <= now
    ensures var p := AttemptRun(c, START, xs);
            Blocked(c, p.store, s, now).0 <==> |After(Get(p.logs, s), now - c.windowMs)| >= c.limit
  {
    AttemptRunRefines(c, START, from, xs);
    SameCount(c, AttemptRun(c, START, xs), Last(from, xs), s, now);
  }

  /** A success clears its source and leaves every other one as it was. */
  lemma SuccessUnblocks(c: Config, st: Store, s: Source, x: Source, now: int)
    ensures var after := Blocked(c, Drop(st, s), x, now).0;
            if x == s then after == (c.limit == 0) else after == Blocked(c, st, x, now).0
  {
    assert Get(Drop(st, s).times, x) == if x == s then [] else Get(st.times, x);
  }

  lemma RecentWf(c: Config, st: Store, s: Source, now: int)
    requires Wf(st)
    ensures var st1 := Recent(c, st, s, now);
            && Wf(st1)
            && |st1.times| + (if s in st1.times then 0 else 1) == |st.times| + (if s in st.times then 0 else 1)
  {
    DropWf(st, s);
    PutWf(st, s, Kept(c, st, s, now));
    WithoutMembers(st.order, s);
  }

  lemma {:induction false} AttemptsBounded(c: Config, p: Pair, xs: seq<Attempt>)
    requires Bounded(c, p.store)
    ensures Bounded(c, AttemptRun(c, p, xs).store)
    decreases |xs|
  {
    if xs != [] {
      match xs[0] {
        case Failure(s, now) =>
          MakeRoomWf(c, p.store, s);
          var st1 := MakeRoom(c, p.store, s);
          RecentWf(c, st1, s, now);
          PutWf(Recent(c, st1, s, now), s, Kept(c, st1, s, now) + [now]);
        case Success(s, _) => DropWf(p.store, s);
        case Probe(s, now) => RecentWf(c, p.store, s, now);
      }
      AttemptsBounded(c, AttemptStep(c, p, xs[0]), xs[1..]);
    }
  }
}
