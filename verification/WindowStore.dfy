/** The two per-source limiters as functions on values: an insertion-ordered map from a
    source to its trimmed timestamps. */
module WindowStore {

  /** A source's name; only whether two are equal matters. */
  type Source = nat

  datatype Config = Config(limit: nat, windowMs: nat, maxTracked: nat)

  /** order: the sources as the map enumerates them, oldest insertion first. */
  datatype Store = Store(order: seq<Source>, times: map<Source, seq<int>>)

  const EMPTY := Store([], map[])

  /** The timestamps strictly after a cutoff. */
  function After(ts: seq<int>, cutoff: int): seq<int> {
    if ts == [] then []
    else (if ts[0] > cutoff then [ts[0]] else []) + After(ts[1..], cutoff)
  }

  function Get(m: map<Source, seq<int>>, s: Source): seq<int> {
    if s in m then m[s] else []
  }

  // ----- the map operations -----

  function Put(st: Store, s: Source, ts: seq<int>): Store {
    Store(if s in st.times then st.order else st.order + [s], st.times[s := ts])
  }

  function Without(order: seq<Source>, s: Source): seq<Source> {
    if order == [] then []
    else if order[0] == s then order[1..]
    else [order[0]] + Without(order[1..], s)
  }

  function Drop(st: Store, s: Source): Store {
    if s in st.times then Store(Without(st.order, s), st.times - {s}) else st
  }

  function DropOldest(st: Store): Store {
    if st.order == [] then st else Drop(st, st.order[0])
  }

  function MakeRoom(c: Config, st: Store, s: Source): Store {
    if s !in st.times && |st.times| >= c.maxTracked then DropOldest(st) else st
  }

  // ----- the limiter operations -----

  function Kept(c: Config, st: Store, s: Source, now: int): seq<int> {
    After(Get(st.times, s), now - c.windowMs)
  }

  function Consume(c: Config, st: Store, s: Source, now: int): (bool, Store) {
    var kept := Kept(c, st, s, now);
    if |kept| >= c.limit then (false, Put(st, s, kept))
    else (true, Put(MakeRoom(c, st, s), s, kept + [now]))
  }

  function Recent(c: Config, st: Store, s: Source, now: int): Store {
    var kept := Kept(c, st, s, now);
    if kept == [] then Drop(st, s) else Put(st, s, kept)
  }

  function Fail(c: Config, st: Store, s: Source, now: int): Store {
    var st1 := MakeRoom(c, st, s);
    Put(Recent(c, st1, s, now), s, Kept(c, st1, s, now) + [now])
  }

  function Blocked(c: Config, st: Store, s: Source, now: int): (bool, Store) {
    (|Kept(c, st, s, now)| >= c.limit, Recent(c, st, s, now))
  }

  // ----- what a store can be -----

  predicate Distinct(order: seq<Source>) {
    order == [] || (order[0] !in order[1..] && Distinct(order[1..]))
  }

  predicate Wf(st: Store) {
    Distinct(st.order) && st.times.Keys == set s | s in st.order
  }

  lemma {:induction false} WithoutMembers(order: seq<Source>, s: Source)
    requires Distinct(order)
    ensures Distinct(Without(order, s))
    ensures forall x :: x in Without(order, s) <==> x in order && x != s
    decreases |order|
  {
    if order != [] {
      WithoutMembers(order[1..], s);
      if order[0] != s {
        var rest := Without(order[1..], s);
        assert ([order[0]] + rest)[1..] == rest;
      }
    }
  }

  lemma {:induction false} DistinctSnoc(order: seq<Source>, s: Source)
    requires Distinct(order) && s !in order
    ensures Distinct(order + [s])
    decreases |order|
  {
    if order != [] {
      DistinctSnoc(order[1..], s);
      assert (order + [s])[1..] == order[1..] + [s];
    }
  }

  lemma PutWf(st: Store, s: Source, ts: seq<int>)
    requires Wf(st)
    ensures Wf(Put(st, s, ts))
    ensures |Put(st, s, ts).times| == |st.times| + if s in st.times then 0 else 1
  {
    if s !in st.times {
      DistinctSnoc(st.order, s);
      assert Put(st, s, ts).times.Keys == st.times.Keys + {s};
      assert |st.times| == |st.times.Keys|;
    } else {
      assert Put(st, s, ts).times.Keys == st.times.Keys;
    }
  }

  lemma DropWf(st: Store, s: Source)
    requires Wf(st)
    ensures Wf(Drop(st, s))
    ensures s in st.times ==> |Drop(st, s).times| == |st.times| - 1
  {
    WithoutMembers(st.order, s);
    if s in st.times {
      assert Drop(st, s).times.Keys == st.times.Keys - {s};
      assert |st.times| == |st.times.Keys|;
    }
  }

  /** After making room for a source that is not stored, there is room for it; only the
      oldest source can have gone, and only when the store was full. */
  lemma MakeRoomWf(c: Config, st: Store, s: Source)
    requires Wf(st)
    ensures var st1 := MakeRoom(c, st, s);
            && Wf(st1) && |st1.times| <= |st.times| && (s in st1.times <==> s in st.times)
            && (s !in st.times && st.times != map[] && |st.times| >= c.maxTracked ==> |st1.times| == |st.times| - 1)
            && (s in st.times || |st.times| < c.maxTracked ==> st1 == st)
  {
    if st.order != [] {
      assert st.order[0] in st.times;
      DropWf(st, st.order[0]);
    } else {
      assert st.times == map[];
    }
  }

  /** A store with room for one more, or already holding the source, stays bounded. */
  predicate Bounded(c: Config, st: Store) {
    Wf(st) && |st.times| <= if c.maxTracked == 0 then 1 else c.maxTracked
  }

  lemma RoomThenPut(c: Config, st: Store, s: Source, ts: seq<int>)
    requires Bounded(c, st)
    ensures Bounded(c, Put(MakeRoom(c, st, s), s, ts))
  {
    MakeRoomWf(c, st, s);
    PutWf(MakeRoom(c, st, s), s, ts);
  }

  // ----- trimming -----

  /** Trimming at an earlier cutoff first makes no difference. */
  lemma {:induction false} AfterAfter(ts: seq<int>, early: int, late: int)
    requires early <= late
    ensures After(After(ts, early), late) == After(ts, late)
    decreases |ts|
  {
    if ts != [] {
      AfterAfter(ts[1..], early, late);
      var rest := After(ts[1..], early);
      if ts[0] > early {
        assert ([ts[0]] + rest)[1..] == rest;
      } else {
        assert After(ts, early) == rest && After(ts, late) == After(ts[1..], late);
      }
    }
  }

  lemma {:induction false} AfterConcat(a: seq<int>, b: seq<int>, cutoff: int)
    ensures After(a + b, cutoff) == After(a, cutoff) + After(b, cutoff)
    decreases |a|
  {
    if a == [] {
      assert a + b == b;
    } else {
      assert (a + b)[1..] == a[1..] + b;
      AfterConcat(a[1..], b, cutoff);
    }
  }

  /** A trimmed list stands for a full one: from this cutoff on they count the same. */
  predicate StandsFor(ts: seq<int>, full: seq<int>, from: int) {
    After(ts, from) == After(full, from)
  }

  lemma LaterStandsFor(ts: seq<int>, full: seq<int>, from: int, cutoff: int)
    requires StandsFor(ts, full, from) && from <= cutoff
    ensures StandsFor(ts, full, cutoff)
  {
    AfterAfter(ts, from, cutoff);
    AfterAfter(full, from, cutoff);
  }

  lemma TrimStandsFor(ts: seq<int>, full: seq<int>, from: int)
    requires StandsFor(ts, full, from)
    ensures StandsFor(After(ts, from), full, from)
  {
    AfterAfter(ts, from, from);
  }

  lemma PushStandsFor(ts: seq<int>, full: seq<int>, from: int, now: int)
    requires StandsFor(ts, full, from)
    ensures StandsFor(ts + [now], full + [now], from)
  {
    AfterConcat(ts, [now], from);
    AfterConcat(full, [now], from);
  }
}
