/** What eviction costs the two per-source limiters: their promises over a log that is
    never reset hold exactly while every source in use fits into the store. */
module LimiterEviction {
  import opened WindowStore
  import opened LimiterTheorems

  /** How many sources the store holds at once. */
  function Slots(c: Config): nat { if c.maxTracked == 0 then 1 else c.maxTracked }

  // ----- while all sources fit, nothing is evicted -----

  ghost predicate Below(st: Store, n: nat) { Wf(st) && forall s <- st.times :: s < n }

  function FirstSources(n: nat): set<Source> {
    if n == 0 then {} else FirstSources(n - 1) + {n - 1}
  }

  lemma {:induction false} FirstSourcesAre(n: nat)
    ensures |FirstSources(n)| == n && forall s: Source :: s in FirstSources(n) <==> s < n
    decreases n
  {
    if n > 0 {
      FirstSourcesAre(n - 1);
      assert n - 1 !in FirstSources(n - 1);
    }
  }

  lemma SubsetCount<T>(small: set<T>, large: set<T>)
    requires small <= large
    ensures |small| <= |large|
  {
    assert large == small + (large - small);
  }

  lemma NoEviction(c: Config, st: Store, s: Source, n: nat)
    requires Below(st, n) && s < n <= Slots(c)
    ensures MakeRoom(c, st, s) == st
    ensures s !in st.times && |st.times| >= c.maxTracked ==> st.order == []
  {
    if s !in st.times {
      FirstSourcesAre(n);
      SubsetCount(st.times.Keys, FirstSources(n) - {s});
      assert |st.times| == |st.times.Keys|;
      if st.order != [] {
        assert st.order[0] in st.times;
      }
    }
  }

  lemma PutBelow(st: Store, s: Source, ts: seq<int>, n: nat)
    requires Below(st, n) && s < n
    ensures Below(Put(st, s, ts), n)
  {
    PutWf(st, s, ts);
  }

  // ----- accepted requests -----

  /** The requests of s that a run lets through, whatever becomes of s in between. */
  function Accepted(c: Config, st: Store, rs: seq<Request>, s: Source): seq<int>
    decreases |rs|
  {
    if rs == [] then []
    else
      var (allowed, st1) := Consume(c, st, rs[0].source, rs[0].now);
      (if allowed && rs[0].source == s then [rs[0].now] else []) + Accepted(c, st1, rs[1..], s)
  }

  /** No request of this run evicts a source. */
  predicate NeverEvicts(c: Config, st: Store, rs: seq<Request>)
    decreases |rs|
  {
    rs == []
    || ((rs[0].source in st.times || |st.times| < c.maxTracked || st.order == [])
        && NeverEvicts(c, Consume(c, st, rs[0].source, rs[0].now).1, rs[1..]))
  }

  lemma {:induction false} FewNeverEvict(c: Config, st: Store, rs: seq<Request>, n: nat)
    requires Below(st, n) && n <= Slots(c) && forall r <- rs :: r.source < n
    ensures NeverEvicts(c, st, rs)
    decreases |rs|
  {
    if rs != [] {
      var st1 := Consume(c, st, rs[0].source, rs[0].now).1;
      NoEviction(c, st, rs[0].source, n);
      PutBelow(st, rs[0].source, st1.times[rs[0].source], n);
      FewNeverEvict(c, st1, rs[1..], n);
    }
  }

  lemma {:induction false} LogsKeepAccepted(c: Config, p: Pair, rs: seq<Request>, s: Source)
    requires NeverEvicts(c, p.store, rs)
    ensures Get(ConsumeRun(c, p, rs).logs, s) == Get(p.logs, s) + Accepted(c, p.store, rs, s)
    decreases |rs|
  {
    if rs != [] {
      var p1 := ConsumeStep(c, p, rs[0]);
      LogsKeepAccepted(c, p1, rs[1..], s);
      var now := if Consume(c, p.store, rs[0].source, rs[0].now).0 && rs[0].source == s then [rs[0].now] else [];
      assert Get(p1.logs, s) == Get(p.logs, s) + now;
    }
  }

  lemma {:induction false} AcceptedInOrder(c: Config, st: Store, from: int, rs: seq<Request>, s: Source)
    requires Monotone(from, rs)
    ensures forall i | 0 <= i < |Accepted(c, st, rs, s)| :: from <= Accepted(c, st, rs, s)[i]
    ensures Spaced(Accepted(c, st, rs, s), c.limit, 0)
    decreases |rs|
  {
    if rs != [] {
      var (allowed, st1) := Consume(c, st, rs[0].source, rs[0].now);
      AcceptedInOrder(c, st1, rs[0].now, rs[1..], s);
    }
  }

  lemma {:induction false} NothingAccepted(c: Config, st: Store, rs: seq<Request>, s: Source)
    requires c.limit == 0
    ensures Accepted(c, st, rs, s) == []
    decreases |rs|
  {
    if rs != [] {
      NothingAccepted(c, Consume(c, st, rs[0].source, rs[0].now).1, rs[1..], s);
    }
  }

  // ----- a run in which one source pushes out another -----

  /** The store holds sources 0 to k - 1, source 0 the oldest. */
  predicate Filled(st: Store, k: nat) {
    && |st.times| == k
    && (forall s <- st.times :: s < k) && (forall s: Source | s < k :: s in st.times)
    && if k == 0 then st.order == [] else st.order != [] && st.order[0] == 0
  }

  /** ... or is past holding source 0. */
  predicate Crowded(c: Config, st: Store, k: nat) {
    if k <= Slots(c) then Filled(st, k) else 0 !in st.times
  }

  lemma FillOne(c: Config, st: Store, k: nat, ts: seq<int>)
    requires Filled(st, k) && k < Slots(c)
    ensures MakeRoom(c, st, k) == st && Filled(Put(st, k, ts), k + 1)
  {
    assert Put(st, k, ts).times.Keys == st.times.Keys + {k};
    assert |st.times| == |st.times.Keys|;
  }

  lemma EmptyFilled()
    ensures Filled(EMPTY, 0)
  {
    assert EMPTY.times == map[];
  }

  lemma Overflow(c: Config, st: Store, ts: seq<int>)
    requires Filled(st, Slots(c))
    ensures Slots(c) !in MakeRoom(c, st, Slots(c)).times && 0 !in Put(MakeRoom(c, st, Slots(c)), Slots(c), ts).times
  {
  }

  lemma AgainOne(c: Config, st: Store, k: nat, s: Source, ts: seq<int>)
    requires Filled(st, k) && s < k
    ensures MakeRoom(c, st, s) == st && Filled(Put(st, s, ts), k)
  {
    assert Put(st, s, ts).times.Keys == st.times.Keys;
    assert |st.times| == |st.times.Keys|;
  }

  /** One request from each source from k to the one too many, then source 0 again. */
  function Crowd(c: Config, k: nat): seq<Request>
    decreases Slots(c) + 1 - k
  {
    if k > Slots(c) then [Request(0, 0)] else [Request(k, 0)] + Crowd(c, k + 1)
  }

  /** Source k is let through, at the cost of source 0 once the store is full. */
  lemma CrowdStep(c: Config, st: Store, k: nat)
    requires c.limit >= 1 && Crowded(c, st, k) && k <= Slots(c)
    ensures Crowded(c, Consume(c, st, k, 0).1, k + 1)
  {
    if k < Slots(c) {
      FillOne(c, st, k, [0]);
    } else {
      Overflow(c, st, [0]);
    }
  }

  /** The same for a limiter of which only this is known. */
  function AcceptedWith(consume: (Store, Request) -> (bool, Store), st: Store, rs: seq<Request>, s: Source): seq<int>
    decreases |rs|
  {
    if rs == [] then []
    else
      var (allowed, st1) := consume(st, rs[0]);
      (if allowed && rs[0].source == s then [rs[0].now] else []) + AcceptedWith(consume, st1, rs[1..], s)
  }

  lemma {:induction false} AcceptedIs(c: Config, consume: (Store, Request) -> (bool, Store), st: Store,
                                      rs: seq<Request>, s: Source)
    requires forall st1, r :: consume(st1, r) == Consume(c, st1, r.source, r.now)
    ensures Accepted(c, st, rs, s) == AcceptedWith(consume, st, rs, s)
    decreases |rs|
  {
    if rs != [] {
      AcceptedIs(c, consume, consume(st, rs[0]).1, rs[1..], s);
    }
  }

  ghost predicate LetsCrowdIn(c: Config, consume: (Store, Request) -> (bool, Store)) {
    && (forall st: Store, k: nat ::
          Crowded(c, st, k) && 1 <= k <= Slots(c) ==> Crowded(c, consume(st, Request(k, 0)).1, k + 1))
    && (forall st: Store :: 0 !in st.times ==> consume(st, Request(0, 0)).0)
  }

  lemma {:induction false} CrowdForgets(c: Config, consume: (Store, Request) -> (bool, Store), st: Store, k: nat)
    requires LetsCrowdIn(c, consume) && 1 <= k <= Slots(c) + 1 && Crowded(c, st, k)
    ensures AcceptedWith(consume, st, Crowd(c, k), 0) == [0]
    decreases Slots(c) + 1 - k
  {
    if k <= Slots(c) {
      assert Crowd(c, k)[1..] == Crowd(c, k + 1);
      CrowdForgets(c, consume, consume(st, Request(k, 0)).1, k + 1);
    } else {
      assert Crowd(c, k)[1..] == [];
    }
  }

  lemma CrowdIsLetIn(c: Config, st: Store)
    requires c.limit >= 1 && Filled(st, 1)
    ensures Accepted(c, st, Crowd(c, 1), 0) == [0]
  {
    var consume := (st1: Store, r: Request) => Consume(c, st1, r.source, r.now);
    forall st1: Store, k: nat | Crowded(c, st1, k) && 1 <= k <= Slots(c)
      ensures Crowded(c, consume(st1, Request(k, 0)).1, k + 1)
    {
      CrowdStep(c, st1, k);
    }
    CrowdForgets(c, consume, st, 1);
    AcceptedIs(c, consume, st, Crowd(c, 1), 0);
  }

  /** Source 0 until it is at its limit, having made j requests, then the crowd. */
  function Rush(c: Config, j: nat): seq<Request>
    decreases c.limit - j
  {
    if j >= c.limit then Crowd(c, 1) else [Request(0, 0)] + Rush(c, j + 1)
  }

  ghost predicate CrowdOnly(c: Config, rs: seq<Request>) {
    Monotone(0, rs) && forall r <- rs :: r.source <= Slots(c)
  }

  lemma {:induction false} CrowdShape(c: Config, k: nat)
    ensures CrowdOnly(c, Crowd(c, k))
    decreases Slots(c) + 1 - k
  {
    if k <= Slots(c) {
      CrowdShape(c, k + 1);
      assert ([Request(k, 0)] + Crowd(c, k + 1))[1..] == Crowd(c, k + 1);
    }
  }

  lemma {:induction false} RushShape(c: Config, j: nat)
    ensures CrowdOnly(c, Rush(c, j))
    decreases c.limit - j
  {
    if j < c.limit {
      RushShape(c, j + 1);
      assert ([Request(0, 0)] + Rush(c, j + 1))[1..] == Rush(c, j + 1);
    } else {
      CrowdShape(c, 1);
    }
  }

  predicate AllZero(ts: seq<int>) { forall i | 0 <= i < |ts| :: ts[i] == 0 }

  lemma {:induction false} AfterKeepsZeros(ts: seq<int>, cutoff: int)
    requires AllZero(ts) && cutoff < 0
    ensures After(ts, cutoff) == ts
    decreases |ts|
  {
    if ts != [] {
      AfterKeepsZeros(ts[1..], cutoff);
    }
  }

  /** What source 0 alone has left in the store after j requests or failures. */
  ghost predicate Alone(st: Store, j: nat) {
    && AllZero(Get(st.times, 0)) && |Get(st.times, 0)| == j
    && if j == 0 then st == EMPTY else Filled(st, 1)
  }

  lemma RushStep(c: Config, st: Store, j: nat)
    requires c.windowMs >= 1 && j < c.limit && Alone(st, j)
    ensures Consume(c, st, 0, 0).0 && Alone(Consume(c, st, 0, 0).1, j + 1)
  {
    var kept := Get(st.times, 0);
    AfterKeepsZeros(kept, 0 - c.windowMs);
    if j == 0 {
      EmptyFilled();
      FillOne(c, st, 0, [0]);
    } else {
      AgainOne(c, st, 1, 0, kept + [0]);
    }
  }

  lemma {:induction false} RushGetsThrough(c: Config, st: Store, j: nat)
    requires c.limit >= 1 && c.windowMs >= 1 && j <= c.limit && Alone(st, j)
    ensures AllZero(Accepted(c, st, Rush(c, j), 0)) && |Accepted(c, st, Rush(c, j), 0)| == c.limit - j + 1
    decreases c.limit - j
  {
    if j >= c.limit {
      CrowdIsLetIn(c, st);
    } else {
      RushStep(c, st, j);
      assert Rush(c, j)[1..] == Rush(c, j + 1);
      RushGetsThrough(c, Consume(c, st, 0, 0).1, j + 1);
    }
  }

  /** However n sources behave, no window holds more accepted requests of one source than
      the limit, evicted or not. */
  ghost predicate AlwaysSpaced(c: Config, n: nat) {
    forall rs: seq<Request>, s: Source | Monotone(0, rs) && (forall r <- rs :: r.source < n) ::
      Spaced(Accepted(c, EMPTY, rs, s), c.limit, c.windowMs)
  }

  lemma FewSourcesSpaced(c: Config, n: nat, rs: seq<Request>, s: Source)
    requires n <= Slots(c) || c.limit == 0 || c.windowMs == 0
    requires Monotone(0, rs) && forall r <- rs :: r.source < n
    ensures Spaced(Accepted(c, EMPTY, rs, s), c.limit, c.windowMs)
  {
    if c.limit == 0 {
      NothingAccepted(c, EMPTY, rs, s);
    } else if c.windowMs == 0 {
      AcceptedInOrder(c, EMPTY, 0, rs, s);
    } else {
      FewNeverEvict(c, EMPTY, rs, n);
      LogsKeepAccepted(c, START, rs, s);
      AcceptedAreSpaced(c, START, 0, rs);
      assert Accepted(c, EMPTY, rs, s) == Get(ConsumeRun(c, START, rs).logs, s);
    }
  }

  /** The limit holds across evictions exactly while the sources in use fit the store. */
  lemma SpacedExactlyWhileTheyFit(c: Config, n: nat)
    ensures AlwaysSpaced(c, n) <==> n <= Slots(c) || c.limit == 0 || c.windowMs == 0
  {
    if n <= Slots(c) || c.limit == 0 || c.windowMs == 0 {
      forall rs: seq<Request>, s: Source | Monotone(0, rs) && forall r <- rs :: r.source < n
        ensures Spaced(Accepted(c, EMPTY, rs, s), c.limit, c.windowMs)
      {
        FewSourcesSpaced(c, n, rs, s);
      }
    } else {
      RushGetsThrough(c, EMPTY, 0);
      RushShape(c, 0);
      var ts := Accepted(c, EMPTY, Rush(c, 0), 0);
      assert ts[c.limit - c.limit] == 0 && ts[c.limit] == 0;
      assert !Spaced(ts, c.limit, c.windowMs);
    }
  }

  // ----- failures -----

  /** The failures of s since its last success, given those before. */
  function FailuresSince(before: seq<int>, xs: seq<Attempt>, s: Source): seq<int>
    decreases |xs|
  {
    if xs == [] then before
    else
      var now :=
        match xs[0]
        case Failure(x, now) => if x == s then before + [now] else before
        case Success(x, _) => if x == s then [] else before
        case Probe(_, _) => before;
      FailuresSince(now, xs[1..], s)
  }

  lemma RecentBelow(c: Config, st: Store, s: Source, now: int, n: nat)
    requires Below(st, n) && s < n
    ensures Below(Recent(c, st, s, now), n)
  {
    DropWf(st, s);
    PutWf(st, s, Kept(c, st, s, now));
  }

  lemma AttemptBelow(c: Config, p: Pair, a: Attempt, n: nat)
    requires Below(p.store, n) && a.source < n <= Slots(c)
    ensures Below(AttemptStep(c, p, a).store, n)
    ensures a.Failure? ==> LogRoom(c, p, a.source) == p.logs
  {
    NoEviction(c, p.store, a.source, n);
    RecentBelow(c, p.store, a.source, a.now, n);
    DropWf(p.store, a.source);
    if a.Failure? {
      PutBelow(Recent(c, p.store, a.source, a.now), a.source, Kept(c, p.store, a.source, a.now) + [a.now], n);
    }
  }

  lemma {:induction false} LogsKeepFailures(c: Config, p: Pair, xs: seq<Attempt>, n: nat, s: Source)
    requires Below(p.store, n) && n <= Slots(c) && forall a <- xs :: a.source < n
    ensures Get(AttemptRun(c, p, xs).logs, s) == FailuresSince(Get(p.logs, s), xs, s)
    decreases |xs|
  {
    if xs != [] {
      AttemptBelow(c, p, xs[0], n);
      LogsKeepFailures(c, AttemptStep(c, p, xs[0]), xs[1..], n, s);
    }
  }

  predicate NoneLater(ts: seq<int>, now: int) { forall i | 0 <= i < |ts| :: ts[i] <= now }

  lemma {:induction false} NothingAfter(ts: seq<int>, now: int)
    requires NoneLater(ts, now)
    ensures After(ts, now) == []
    decreases |ts|
  {
    if ts != [] {
      NothingAfter(ts[1..], now);
    }
  }

  lemma {:induction false} FailuresNotLater(before: seq<int>, from: int, xs: seq<Attempt>, s: Source)
    requires InOrder(from, xs) && NoneLater(before, from)
    ensures NoneLater(FailuresSince(before, xs, s), Last(from, xs))
    decreases |xs|
  {
    if xs != [] {
      var now :=
        match xs[0]
        case Failure(x, now) => if x == s then before + [now] else before
        case Success(x, _) => if x == s then [] else before
        case Probe(_, _) => before;
      FailuresNotLater(now, xs[0].now, xs[1..], s);
    }
  }

  lemma {:induction false} LogsNotLater(c: Config, p: Pair, from: int, xs: seq<Attempt>, s: Source)
    requires InOrder(from, xs) && forall x <- p.logs :: NoneLater(p.logs[x], from)
    ensures NoneLater(Get(AttemptRun(c, p, xs).logs, s), Last(from, xs))
    decreases |xs|
  {
    if xs != [] {
      LogsNotLater(c, AttemptStep(c, p, xs[0]), xs[0].now, xs[1..], s);
    }
  }

  /** The answer of this store is the one that these failures give. */
  predicate BlocksOn(c: Config, st: Store, failures: seq<int>, s: Source, now: int) {
    Blocked(c, st, s, now).0 == (|After(failures, now - c.windowMs)| >= c.limit)
  }

  /** However n sources behave, one is blocked exactly on its own failures, evicted or not. */
  ghost predicate AlwaysBlocks(c: Config, n: nat) {
    forall xs: seq<Attempt>, s: Source, now: int
      | InOrder(0, xs) && Last(0, xs) <= now && (forall a <- xs :: a.source < n) ::
      BlocksOn(c, AttemptRun(c, START, xs).store, FailuresSince([], xs, s), s, now)
  }

  /** In an empty window there is nothing to count. */
  lemma EmptyWindowBlocksNone(c: Config, xs: seq<Attempt>, s: Source, now: int)
    requires c.windowMs == 0 && InOrder(0, xs) && Last(0, xs) <= now
    ensures After(FailuresSince([], xs, s), now - c.windowMs) == []
    ensures After(Get(AttemptRun(c, START, xs).logs, s), now - c.windowMs) == []
  {
    FailuresNotLater([], 0, xs, s);
    LogsNotLater(c, START, 0, xs, s);
    NothingAfter(FailuresSince([], xs, s), now);
    NothingAfter(Get(AttemptRun(c, START, xs).logs, s), now);
  }

  lemma FewSourcesCount(c: Config, n: nat, xs: seq<Attempt>, s: Source, now: int)
    requires n <= Slots(c) || c.windowMs == 0
    requires InOrder(0, xs) && Last(0, xs) <= now && forall a <- xs :: a.source < n
    ensures After(Get(AttemptRun(c, START, xs).logs, s), now - c.windowMs)
         == After(FailuresSince([], xs, s), now - c.windowMs)
  {
    if c.windowMs > 0 {
      LogsKeepFailures(c, START, xs, n, s);
    } else {
      EmptyWindowBlocksNone(c, xs, s, now);
    }
  }

  lemma FewSourcesKept(c: Config, n: nat, xs: seq<Attempt>, s: Source, now: int)
    requires n <= Slots(c) || c.windowMs == 0
    requires InOrder(0, xs) && Last(0, xs) <= now && forall a <- xs :: a.source < n
    ensures Kept(c, AttemptRun(c, START, xs).store, s, now) == After(FailuresSince([], xs, s), now - c.windowMs)
  {
    AttemptRunRefines(c, START, 0, xs);
    SameCount(c, AttemptRun(c, START, xs), Last(0, xs), s, now);
    FewSourcesCount(c, n, xs, s, now);
  }

  lemma CountDecides(c: Config, st: Store, failures: seq<int>, s: Source, now: int)
    requires c.limit == 0 || Kept(c, st, s, now) == After(failures, now - c.windowMs)
    ensures BlocksOn(c, st, failures, s, now)
  {
  }

  lemma FewSourcesBlocked(c: Config, n: nat, xs: seq<Attempt>, s: Source, now: int)
    requires n <= Slots(c) || c.limit == 0 || c.windowMs == 0
    requires InOrder(0, xs) && Last(0, xs) <= now && forall a <- xs :: a.source < n
    ensures BlocksOn(c, AttemptRun(c, START, xs).store, FailuresSince([], xs, s), s, now)
  {
    if c.limit > 0 {
      FewSourcesKept(c, n, xs, s, now);
    }
    CountDecides(c, AttemptRun(c, START, xs).store, FailuresSince([], xs, s), s, now);
  }

  /** One failure of each source from k to the one too many. */
  function CrowdFails(c: Config, k: nat): seq<Attempt>
    decreases Slots(c) + 1 - k
  {
    if k > Slots(c) then [] else [Failure(k, 0)] + CrowdFails(c, k + 1)
  }

  /** Source 0 fails until it is blocked, having failed j times, then the crowd. */
  function RushFails(c: Config, j: nat): seq<Attempt>
    decreases c.limit - j
  {
    if j >= c.limit then CrowdFails(c, 1) else [Failure(0, 0)] + RushFails(c, j + 1)
  }

  ghost predicate CrowdFailsOnly(c: Config, xs: seq<Attempt>) {
    InOrder(0, xs) && Last(0, xs) == 0 && forall a <- xs :: a.source <= Slots(c)
  }

  lemma {:induction false} CrowdFailsShape(c: Config, k: nat)
    ensures CrowdFailsOnly(c, CrowdFails(c, k))
    decreases Slots(c) + 1 - k
  {
    if k <= Slots(c) {
      CrowdFailsShape(c, k + 1);
      assert ([Failure(k, 0)] + CrowdFails(c, k + 1))[1..] == CrowdFails(c, k + 1);
    }
  }

  lemma {:induction false} RushFailsShape(c: Config, j: nat)
    ensures CrowdFailsOnly(c, RushFails(c, j))
    decreases c.limit - j
  {
    if j < c.limit {
      RushFailsShape(c, j + 1);
      assert ([Failure(0, 0)] + RushFails(c, j + 1))[1..] == RushFails(c, j + 1);
    } else {
      CrowdFailsShape(c, 1);
    }
  }

  lemma FailNew(c: Config, st: Store, k: nat)
    requires k !in st.times && k !in MakeRoom(c, st, k).times
    ensures Fail(c, st, k, 0) == Put(MakeRoom(c, st, k), k, [0])
  {
    assert Kept(c, MakeRoom(c, st, k), k, 0) == [];
    assert [] + [0] == [0];
  }

  lemma CrowdFailStep(c: Config, st: Store, k: nat)
    requires Crowded(c, st, k) && k <= Slots(c)
    ensures Crowded(c, Fail(c, st, k, 0), k + 1)
  {
    if k < Slots(c) {
      FillOne(c, st, k, [0]);
    } else {
      Overflow(c, st, [0]);
    }
    FailNew(c, st, k);
  }

  function RunWith(step: (Pair, Attempt) -> Pair, p: Pair, xs: seq<Attempt>): Pair
    decreases |xs|
  {
    if xs == [] then p else RunWith(step, step(p, xs[0]), xs[1..])
  }

  lemma {:induction false} AttemptRunIs(c: Config, step: (Pair, Attempt) -> Pair, p: Pair, xs: seq<Attempt>)
    requires forall q, a :: step(q, a) == AttemptStep(c, q, a)
    ensures AttemptRun(c, p, xs) == RunWith(step, p, xs)
    decreases |xs|
  {
    if xs != [] {
      AttemptRunIs(c, step, step(p, xs[0]), xs[1..]);
    }
  }

  /** A new source's failure is stored, at the cost of source 0 once the store is full. */
  ghost predicate PushesOut(c: Config, step: (Pair, Attempt) -> Pair) {
    forall p: Pair, k: nat ::
      Crowded(c, p.store, k) && 1 <= k <= Slots(c) ==> Crowded(c, step(p, Failure(k, 0)).store, k + 1)
  }

  lemma {:induction false} CrowdFailsForgets(c: Config, step: (Pair, Attempt) -> Pair, p: Pair, k: nat)
    requires PushesOut(c, step) && 1 <= k <= Slots(c) + 1 && Crowded(c, p.store, k)
    ensures 0 !in RunWith(step, p, CrowdFails(c, k)).store.times
    decreases Slots(c) + 1 - k
  {
    if k <= Slots(c) {
      assert CrowdFails(c, k)[1..] == CrowdFails(c, k + 1);
      CrowdFailsForgets(c, step, step(p, Failure(k, 0)), k + 1);
    }
  }

  lemma CrowdIsForgotten(c: Config, p: Pair)
    requires Filled(p.store, 1)
    ensures 0 !in AttemptRun(c, p, CrowdFails(c, 1)).store.times
  {
    var step := (q: Pair, a: Attempt) => AttemptStep(c, q, a);
    forall q: Pair, k: nat | Crowded(c, q.store, k) && 1 <= k <= Slots(c)
      ensures Crowded(c, step(q, Failure(k, 0)).store, k + 1)
    {
      CrowdFailStep(c, q.store, k);
    }
    CrowdFailsForgets(c, step, p, 1);
    AttemptRunIs(c, step, p, CrowdFails(c, 1));
  }

  lemma {:induction false} CrowdFailsAlone(c: Config, k: nat, before: seq<int>)
    requires k >= 1
    ensures FailuresSince(before, CrowdFails(c, k), 0) == before
    decreases Slots(c) + 1 - k
  {
    if k <= Slots(c) {
      assert CrowdFails(c, k)[1..] == CrowdFails(c, k + 1);
      CrowdFailsAlone(c, k + 1, before);
    }
  }

  lemma RushFailStep(c: Config, st: Store, j: nat)
    requires c.windowMs >= 1 && Alone(st, j)
    ensures Alone(Fail(c, st, 0, 0), j + 1)
  {
    var kept := Get(st.times, 0);
    AfterKeepsZeros(kept, 0 - c.windowMs);
    if j == 0 {
      EmptyFilled();
      FillOne(c, st, 0, [0]);
    } else {
      AgainOne(c, st, 1, 0, kept);
      AgainOne(c, Put(st, 0, kept), 1, 0, kept + [0]);
    }
  }

  lemma {:induction false} RushIsForgotten(c: Config, p: Pair, j: nat, before: seq<int>)
    requires c.limit >= 1 && c.windowMs >= 1 && j <= c.limit && Alone(p.store, j)
    requires |before| == j && AllZero(before)
    ensures 0 !in AttemptRun(c, p, RushFails(c, j)).store.times
    ensures AllZero(FailuresSince(before, RushFails(c, j), 0)) && |FailuresSince(before, RushFails(c, j), 0)| == c.limit
    decreases c.limit - j
  {
    if j >= c.limit {
      CrowdIsForgotten(c, p);
      CrowdFailsAlone(c, 1, before);
    } else {
      RushFailStep(c, p.store, j);
      assert RushFails(c, j)[1..] == RushFails(c, j + 1);
      RushIsForgotten(c, AttemptStep(c, p, Failure(0, 0)), j + 1, before + [0]);
    }
  }

  lemma NotBlockedOn(c: Config, st: Store, failures: seq<int>)
    requires c.limit >= 1 && c.windowMs >= 1 && 0 !in st.times && AllZero(failures) && |failures| == c.limit
    ensures !BlocksOn(c, st, failures, 0, 0)
  {
    AfterKeepsZeros(failures, 0 - c.windowMs);
  }

  /** Blocking forgets nothing exactly while the sources in use fit the store. */
  lemma BlocksExactlyWhileTheyFit(c: Config, n: nat)
    ensures AlwaysBlocks(c, n) <==> n <= Slots(c) || c.limit == 0 || c.windowMs == 0
  {
    if n <= Slots(c) || c.limit == 0 || c.windowMs == 0 {
      forall xs: seq<Attempt>, s: Source, now: int
        | InOrder(0, xs) && Last(0, xs) <= now && forall a <- xs :: a.source < n
        ensures BlocksOn(c, AttemptRun(c, START, xs).store, FailuresSince([], xs, s), s, now)
      {
        FewSourcesBlocked(c, n, xs, s, now);
      }
    } else {
      var xs := RushFails(c, 0);
      RushIsForgotten(c, START, 0, []);
      RushFailsShape(c, 0);
      NotBlockedOn(c, AttemptRun(c, START, xs).store, FailuresSince([], xs, 0));
    }
  }
}
