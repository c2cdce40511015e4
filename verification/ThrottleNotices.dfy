/** Telling a throttled client: how often it is told, and when that stops being bounded. */
module ThrottleNotices {
  import opened MessageRate

  datatype Refusal = Refusal(key: Key, now: int)

  predicate RefusalsInTime(from: int, rs: seq<Refusal>)
    decreases |rs|
  {
    rs == [] || (from <= rs[0].now && RefusalsInTime(rs[0].now, rs[1..]))
  }

  /** The refusals that were answered with a notice. */
  function Told(n: Notices, rs: seq<Refusal>): seq<Refusal>
    decreases |rs|
  {
    if rs == [] then []
    else
      var (notify, n1) := Notify(n, rs[0].key, rs[0].now);
      (if notify then [rs[0]] else []) + Told(n1, rs[1..])
  }

  /** Every notice to a key comes a full window after the last one it is known to have had. */
  lemma {:induction false} ToldAfterLast(n: Notices, from: int, rs: seq<Refusal>, keys: set<Key>)
    requires RefusalsInTime(from, rs) && n.told.Keys <= keys && |keys| < MAX_NOTIFIED
    requires forall r <- rs :: r.key in keys
    ensures forall r <- Told(n, rs) :: r.key in n.told ==> r.now - n.told[r.key] >= WINDOW_MS
    ensures forall r <- Told(n, rs) :: r.now >= from
    decreases |rs|
  {
    if rs != [] {
      var (notify, n1) := Notify(n, rs[0].key, rs[0].now);
      NothingForgotten(n, rs[0].key, rs[0].now, keys);
      ToldAfterLast(n1, rs[0].now, rs[1..], keys);
    }
  }

  lemma NothingForgotten(n: Notices, key: Key, now: int, keys: set<Key>)
    requires n.told.Keys <= keys && |keys| < MAX_NOTIFIED && key in keys
    ensures Notify(n, key, now).1.told == if Notify(n, key, now).0 then n.told[key := now] else n.told
    ensures Notify(n, key, now).1.told.Keys <= keys
  {
    assert keys == n.told.Keys + (keys - n.told.Keys);
    assert |n.told| == |n.told.Keys| <= |keys|;
  }

  /** No two for one key inside one window. */
  predicate OncePerWindow(told: seq<Refusal>) {
    told == [] || (NotSoonAgain(told[0], told[1..]) && OncePerWindow(told[1..]))
  }

  predicate NotSoonAgain(first: Refusal, later: seq<Refusal>) {
    forall r <- later :: r.key == first.key ==> r.now - first.now >= WINDOW_MS
  }

  /** While fewer keys are about than notices are kept, no key is told twice within one
      window: the notices cannot amplify a flood. */
  lemma {:induction false} ToldOncePerWindow(n: Notices, from: int, rs: seq<Refusal>, keys: set<Key>)
    requires RefusalsInTime(from, rs) && n.told.Keys <= keys && |keys| < MAX_NOTIFIED
    requires forall r <- rs :: r.key in keys
    ensures OncePerWindow(Told(n, rs))
    decreases |rs|
  {
    if rs != [] {
      var (notify, n1) := Notify(n, rs[0].key, rs[0].now);
      NothingForgotten(n, rs[0].key, rs[0].now, keys);
      ToldOncePerWindow(n1, rs[0].now, rs[1..], keys);
      ToldAfterLast(n1, rs[0].now, rs[1..], keys);
      var rest := Told(n1, rs[1..]);
      if notify {
        assert NotSoonAgain(rs[0], rest);
        assert ([rs[0]] + rest)[1..] == rest;
      } else {
        assert [] + rest == rest;
      }
    }
  }

  // ----- ... and with that many keys it fails -----

  function Noticed(n: Notices, rs: seq<Refusal>): Notices
    decreases |rs|
  {
    if rs == [] then n else Noticed(Notify(n, rs[0].key, rs[0].now).1, rs[1..])
  }

  lemma {:induction false} ToldConcat(n: Notices, a: seq<Refusal>, b: seq<Refusal>)
    ensures Told(n, a + b) == Told(n, a) + Told(Noticed(n, a), b)
    ensures Noticed(n, a + b) == Noticed(Noticed(n, a), b)
    decreases |a|
  {
    if a == [] {
      assert a + b == b;
    } else {
      assert (a + b)[1..] == a[1..] + b;
      ToldConcat(Notify(n, a[0].key, a[0].now).1, a[1..], b);
    }
  }

  /** One refusal for each of n connections, all at time 0. */
  function Flood(n: nat): seq<Refusal> {
    if n == 0 then [] else Flood(n - 1) + [Refusal(ConnectionKey(n - 1), 0)]
  }

  const NO_NOTICES := Notices([], map[])

  /** Connections 0 to n - 1 have been told, in that order, all at time 0. */
  ghost predicate FilledBy(n: Notices, k: nat) {
    && |n.order| == |n.told| == k
    && (forall i | 0 <= i < k :: n.order[i] == ConnectionKey(i))
    && (forall i: nat | i < k :: ConnectionKey(i) in n.told && n.told[ConnectionKey(i)] == 0)
    && (forall i: nat | k <= i :: ConnectionKey(i) !in n.told)
  }

  lemma ToldNew(n: Notices, key: Key, now: int)
    requires key !in n.told && |n.told| < MAX_NOTIFIED
    ensures Notify(n, key, now) == (true, Notices(n.order + [key], n.told[key := now]))
    ensures |Notify(n, key, now).1.told| == |n.told| + 1
  {
    assert n.told[key := now].Keys == n.told.Keys + {key};
    assert |n.told[key := now]| == |n.told[key := now].Keys|;
  }

  /** When the store is full, telling a stored key again forgets the oldest one. */
  lemma ToldWhenFull(n: Notices, key: Key, now: int)
    requires |n.told| == MAX_NOTIFIED && n.order != [] && n.order[0] != key && n.order[0] in n.told
    requires key in n.told && now - n.told[key] >= WINDOW_MS
    ensures Notify(n, key, now) == (true, Notices(n.order[1..], (n.told - {n.order[0]})[key := now]))
    ensures |Notify(n, key, now).1.told| == MAX_NOTIFIED - 1
  {
    var told := (n.told - {n.order[0]})[key := now];
    assert told.Keys == n.told.Keys - {n.order[0]};
    assert |told| == |told.Keys| && |n.told| == |n.told.Keys|;
  }

  lemma {:induction false} FloodFills(k: nat)
    requires k <= MAX_NOTIFIED
    ensures FilledBy(Noticed(NO_NOTICES, Flood(k)), k)
  {
    if k > 0 {
      FloodFills(k - 1);
      var key := ConnectionKey(k - 1);
      var m := Noticed(NO_NOTICES, Flood(k - 1));
      ToldConcat(NO_NOTICES, Flood(k - 1), [Refusal(key, 0)]);
      NoticedOne(m, Refusal(key, 0));
      FilledStep(m, k - 1);
    }
  }

  lemma FilledStep(n: Notices, k: nat)
    requires FilledBy(n, k) && k < MAX_NOTIFIED
    ensures FilledBy(Notify(n, ConnectionKey(k), 0).1, k + 1)
  {
    ToldNew(n, ConnectionKey(k), 0);
  }

  lemma NoticedOne(n: Notices, r: Refusal)
    ensures Noticed(n, [r]) == Notify(n, r.key, r.now).1
    ensures Told(n, [r]) == if Notify(n, r.key, r.now).0 then [r] else []
  {
    assert |[r][1..]| == 0;
  }

  /** Connection 1 is told at 1000 and again at 1001: its notice was pushed out. */
  function Again(): seq<Refusal> {
    [Refusal(ConnectionKey(1), 1000)]
    + [Refusal(ConnectionKey(0), 1000), Refusal(ConnectionKey(2), 1000)]
    + [Refusal(ConnectionKey(1), 1001)]
  }

  /** Telling 1 pushes out 0, telling 0 fills the store again, telling 2 pushes out 1. */
  lemma ToldTwice(n: Notices)
    requires FilledBy(n, MAX_NOTIFIED)
    ensures !OncePerWindow(Told(n, Again()))
  {
    ToldWhenFull(n, ConnectionKey(1), 1000);
  }

  lemma {:induction false} OncePerWindowTail(a: seq<Refusal>, b: seq<Refusal>)
    requires OncePerWindow(a + b)
    ensures OncePerWindow(b)
    decreases |a|
  {
    if a == [] {
      assert a + b == b;
    } else {
      assert (a + b)[1..] == a[1..] + b;
      OncePerWindowTail(a[1..], b);
    }
  }

  lemma {:induction false} FloodThen(n: nat, rs: seq<Refusal>)
    requires RefusalsInTime(0, rs)
    ensures RefusalsInTime(0, Flood(n) + rs)
    ensures forall r <- Flood(n) :: r.key.ConnectionKey? && r.key.connection < n
  {
    if n == 0 {
      assert Flood(n) + rs == rs;
    } else {
      var last := Refusal(ConnectionKey(n - 1), 0);
      assert ([last] + rs)[1..] == rs;
      FloodThen(n - 1, [last] + rs);
      assert Flood(n) + rs == Flood(n - 1) + ([last] + rs);
    }
  }

  /** The keys of connections 0 to n - 1. */
  function KeySet(n: nat): (ks: set<Key>)
    ensures |ks| <= n && forall k :: k in ks <==> k.ConnectionKey? && k.connection < n
  {
    if n == 0 then {} else KeySet(n - 1) + {ConnectionKey(n - 1)}
  }

  ghost predicate AlwaysOncePerWindow(n: nat) {
    forall rs: seq<Refusal> | RefusalsInTime(0, rs) && (forall r <- rs :: r.key in KeySet(n)) ::
      OncePerWindow(Told(NO_NOTICES, rs))
  }

  /** n keys can share the notices without any being told twice in a window exactly when
      n is below the number of notices kept. */
  lemma OncePerWindowExactlyBelowCap(n: nat)
    ensures AlwaysOncePerWindow(n) <==> n < 10000
  {
    if n < MAX_NOTIFIED {
      forall rs: seq<Refusal> | RefusalsInTime(0, rs) && forall r <- rs :: r.key in KeySet(n)
        ensures OncePerWindow(Told(NO_NOTICES, rs))
      {
        ToldOncePerWindow(NO_NOTICES, 0, rs, KeySet(n));
      }
    } else {
      var rs := FailingRun();
      assert forall r <- rs :: r.key in KeySet(n);
    }
  }

  lemma FailingRun() returns (rs: seq<Refusal>)
    ensures RefusalsInTime(0, rs) && !OncePerWindow(Told(NO_NOTICES, rs))
    ensures forall r <- rs :: r.key.ConnectionKey? && r.key.connection < MAX_NOTIFIED
  {
    rs := FailingAfter(Again());
  }

  /** A flood that fills the notices, and then these refusals. */
  lemma FailingAfter(again: seq<Refusal>) returns (rs: seq<Refusal>)
    requires again == Again()
    ensures RefusalsInTime(0, rs) && !OncePerWindow(Told(NO_NOTICES, rs))
    ensures forall r <- rs :: r.key.ConnectionKey? && r.key.connection < MAX_NOTIFIED
  {
    AgainInTime();
    var flood := FloodOf(MAX_NOTIFIED, again);
    ToldTwice(Noticed(NO_NOTICES, flood));
    rs := flood + again;
    ToldConcat(NO_NOTICES, flood, again);
    if OncePerWindow(Told(NO_NOTICES, rs)) {
      OncePerWindowTail(Told(NO_NOTICES, flood), Told(Noticed(NO_NOTICES, flood), again));
    }
  }

  lemma FloodOf(n: nat, rs: seq<Refusal>) returns (flood: seq<Refusal>)
    requires n <= MAX_NOTIFIED && RefusalsInTime(0, rs)
    ensures FilledBy(Noticed(NO_NOTICES, flood), n) && RefusalsInTime(0, flood + rs)
    ensures forall r <- flood :: r.key.ConnectionKey? && r.key.connection < n
  {
    flood := Flood(n);
    FloodFills(n);
    FloodThen(n, rs);
  }

  lemma AgainInTime()
    ensures RefusalsInTime(0, Again())
    ensures forall r <- Again() :: r.key.ConnectionKey? && r.key.connection < 3
  {
    assert Again()[1..][1..][1..] == [Refusal(ConnectionKey(1), 1001)];
    assert Again()[1..][1..][1..][1..] == [];
  }
}
