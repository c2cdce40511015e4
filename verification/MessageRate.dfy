/** The two-dimensional message limiter: one allowance per connection, one per address. */
module MessageRate {
  import opened WindowStore
  import opened LimiterTheorems
  import opened RateLimiters

  const WINDOW_MS: nat := 1000
  const MAX_NOTIFIED: nat := 10000

  datatype Limits = Limits(perConnection: nat, perAddress: nat, maxTracked: nat) {
    function Connections(): Config { Config(perConnection, WINDOW_MS, maxTracked) }

    function Addresses(): Config { Config(perAddress, WINDOW_MS, maxTracked) }
  }

  datatype Key = ConnectionKey(connection: Source) | AddressKey(address: Source)

  datatype Decision = Allowed | Refused(dimension: Dimension, notify: bool)
  datatype Dimension = Connection | Address

  /** Who was last told, and when; order as the map enumerates them. */
  datatype Notices = Notices(order: seq<Key>, told: map<Key, int>)

  datatype State = State(connections: Store, addresses: Store, notices: Notices)

  datatype Frame = Frame(connection: Source, address: Source, now: int)

  function ForgetOldest(n: Notices): Notices {
    if n.order == [] then n else Notices(n.order[1..], n.told - {n.order[0]})
  }

  function Tell(n: Notices, key: Key, now: int): Notices {
    Notices(if key in n.told then n.order else n.order + [key], n.told[key := now])
  }

  function Notify(n: Notices, key: Key, now: int): (bool, Notices) {
    if key in n.told && now - n.told[key] < WINDOW_MS then (false, n)
    else (true, Tell(if |n.told| >= MAX_NOTIFIED then ForgetOldest(n) else n, key, now))
  }

  function Check(l: Limits, st: State, f: Frame): (Decision, State) {
    var (onConnection, connections) := Consume(l.Connections(), st.connections, f.connection, f.now);
    if !onConnection then
      var (notify, notices) := Notify(st.notices, ConnectionKey(f.connection), f.now);
      (Refused(Connection, notify), State(connections, st.addresses, notices))
    else
      var (onAddress, addresses) := Consume(l.Addresses(), st.addresses, f.address, f.now);
      if !onAddress then
        var (notify, notices) := Notify(st.notices, AddressKey(f.address), f.now);
        (Refused(Address, notify), State(connections, addresses, notices))
      else
        (Allowed, State(connections, addresses, st.notices))
  }

  function Run(l: Limits, st: State, frames: seq<Frame>): State
    decreases |frames|
  {
    if frames == [] then st else Run(l, Check(l, st, frames[0]).1, frames[1..])
  }

  const START_STATE := State(EMPTY, EMPTY, Notices([], map[]))

  // ----- the object -----

  class MessageRateLimiter {
    const connections: SlidingWindowLimiter
    const addresses: SlidingWindowLimiter
    var notified: Notices
    const limits: Limits

    ghost predicate Valid()
      reads {}
    {
      && connections != addresses
      && connections.Settings() == limits.Connections() && addresses.Settings() == limits.Addresses()
    }

    ghost function View(): State
      reads this, connections, addresses
    {
      State(connections.hits, addresses.hits, notified)
    }

    constructor (limits: Limits)
      ensures Valid() && View() == START_STATE && this.limits == limits
      ensures fresh(connections) && fresh(addresses)
    {
      this.limits := limits;
      connections := new SlidingWindowLimiter(limits.perConnection, WINDOW_MS, limits.maxTracked);
      addresses := new SlidingWindowLimiter(limits.perAddress, WINDOW_MS, limits.maxTracked);
      notified := Notices([], map[]);
    }

    /** The connection first; a frame it refuses never reaches the address allowance. */
    method CheckFrame(connection: Source, address: Source, now: int) returns (decision: Decision)
      requires Valid()
      modifies this, connections, addresses
      ensures (decision, View()) == Check(limits, old(View()), Frame(connection, address, now))
      ensures decision.Refused? && decision.dimension == Connection ==> addresses.hits == old(addresses.hits)
      ensures decision.Allowed? ==> notified == old(notified)
      ensures decision.Refused? ==>
                var key := if decision.dimension == Connection then ConnectionKey(connection) else AddressKey(address);
                && (decision.notify <==> !(key in old(notified).told && now - old(notified).told[key] < 1000))
                && (if decision.notify then key in notified.told && notified.told[key] == now
                    else notified == old(notified))
    {
      var onConnection := connections.TryConsume(connection, now);
      if !onConnection {
        var notify := ShouldNotify(ConnectionKey(connection), now);
        return Refused(Connection, notify);
      }
      var onAddress := addresses.TryConsume(address, now);
      if !onAddress {
        var notify := ShouldNotify(AddressKey(address), now);
        return Refused(Address, notify);
      }
      return Allowed;
    }

    method ShouldNotify(key: Key, now: int) returns (notify: bool)
      modifies this
      ensures (notify, notified) == Notify(old(notified), key, now)
    {
      if key in notified.told && now - notified.told[key] < WINDOW_MS {
        return false;
      }
      if |notified.told| >= MAX_NOTIFIED {
        if |notified.order| > 0 {
          notified := ForgetOldest(notified);
        }
      }
      notified := Tell(notified, key, now);
      return true;
    }
  }

  // ----- the composition of the two limits -----

  /** The run with the full logs beside both stores. */
  datatype Logged = Logged(connections: Pair, addresses: Pair)

  function LoggedStep(l: Limits, p: Logged, f: Frame): Logged {
    Logged(ConsumeStep(l.Connections(), p.connections, Request(f.connection, f.now)),
           if Consume(l.Connections(), p.connections.store, f.connection, f.now).0
           then ConsumeStep(l.Addresses(), p.addresses, Request(f.address, f.now))
           else p.addresses)
  }

  function LoggedRun(l: Limits, p: Logged, frames: seq<Frame>): Logged
    decreases |frames|
  {
    if frames == [] then p else LoggedRun(l, LoggedStep(l, p, frames[0]), frames[1..])
  }

  /** The logs only watch: the stores are those of the limiter itself. */
  lemma {:induction false} LogsOnlyWatch(l: Limits, st: State, p: Logged, frames: seq<Frame>)
    requires p.connections.store == st.connections && p.addresses.store == st.addresses
    ensures LoggedRun(l, p, frames).connections.store == Run(l, st, frames).connections
    ensures LoggedRun(l, p, frames).addresses.store == Run(l, st, frames).addresses
    decreases |frames|
  {
    if frames != [] {
      LogsOnlyWatch(l, Check(l, st, frames[0]).1, LoggedStep(l, p, frames[0]), frames[1..]);
    }
  }

  predicate InTime(from: int, frames: seq<Frame>)
    decreases |frames|
  {
    frames == [] || (from <= frames[0].now && InTime(frames[0].now, frames[1..]))
  }

  function Ends(from: int, frames: seq<Frame>): int
    decreases |frames|
  {
    if frames == [] then from else Ends(frames[0].now, frames[1..])
  }

  function Count(logs: Logs, s: Source, cutoff: int): nat { |After(Get(logs, s), cutoff)| }

  /** The timestamps these connections have after a cutoff, all together. */
  function Together(logs: Logs, ks: seq<Source>, cutoff: int): nat {
    if ks == [] then 0 else Count(logs, ks[0], cutoff) + Together(logs, ks[1..], cutoff)
  }

  /** What the address has after a cutoff, its connections have. */
  predicate Covered(p: Logged, ks: seq<Source>, address: Source, cutoff: int) {
    Count(p.addresses.logs, address, cutoff) <= Together(p.connections.logs, ks, cutoff)
  }

  lemma {:induction false} TogetherBound(logs: Logs, ks: seq<Source>, cutoff: int, limit: nat)
    requires forall k <- ks :: Count(logs, k, cutoff) <= limit
    ensures Together(logs, ks, cutoff) <= |ks| * limit
    decreases |ks|
  {
    if ks != [] {
      TogetherBound(logs, ks[1..], cutoff, limit);
      OneMore(|ks|, limit);
    }
  }

  lemma OneMore(n: nat, limit: nat)
    requires n > 0
    ensures n * limit == limit + (n - 1) * limit
  {
  }

  /** ... and one less when one of them is below its own limit. */
  lemma {:induction false} TogetherBelow(logs: Logs, ks: seq<Source>, cutoff: int, limit: nat, k: Source)
    requires forall x <- ks :: Count(logs, x, cutoff) <= limit
    requires k in ks && Count(logs, k, cutoff) < limit
    ensures Together(logs, ks, cutoff) < |ks| * limit
    decreases |ks|
  {
    OneMore(|ks|, limit);
    if ks[0] == k {
      TogetherBound(logs, ks[1..], cutoff, limit);
    } else {
      TogetherBelow(logs, ks[1..], cutoff, limit, k);
    }
  }

  lemma CountGrows(logs: Logs, s: Source, now: int, x: Source, cutoff: int)
    ensures Count(Record(logs, s, now), x, cutoff)
         == Count(logs, x, cutoff) + if x == s && now > cutoff then 1 else 0
  {
    AfterConcat(Get(logs, s), [now], cutoff);
    AfterOne(now, cutoff);
  }

  lemma {:induction false} TogetherGrows(logs: Logs, ks: seq<Source>, k: Source, now: int, cutoff: int)
    ensures Together(Record(logs, k, now), ks, cutoff) >= Together(logs, ks, cutoff)
    ensures k in ks && now > cutoff ==> Together(Record(logs, k, now), ks, cutoff) > Together(logs, ks, cutoff)
    decreases |ks|
  {
    if ks != [] {
      TogetherGrows(logs, ks[1..], k, now, cutoff);
      CountGrows(logs, k, now, ks[0], cutoff);
    }
  }

  lemma AfterOne(now: int, cutoff: int)
    ensures |After([now], cutoff)| == if now > cutoff then 1 else 0
  {
    assert |[now][1..]| == 0;
  }

  // ----- the invariant of a run in which no connection key is evicted -----

  ghost predicate Inv(l: Limits, p: Logged, ks: seq<Source>, tracked: set<Source>, address: Source, now: int) {
    && Refines(l.Connections(), p.connections, now) && Refines(l.Addresses(), p.addresses, now)
    && AllSpaced(l.Connections(), p.connections.logs, now)
    && p.connections.store.times.Keys <= tracked
    && forall cutoff :: Covered(p, ks, address, cutoff)
  }

  lemma InvLater(l: Limits, p: Logged, ks: seq<Source>, tracked: set<Source>, address: Source, from: int, now: int)
    requires Inv(l, p, ks, tracked, address, from) && from <= now
    ensures Inv(l, p, ks, tracked, address, now)
  {
    LaterRefines(l.Connections(), p.connections, from, now);
    LaterRefines(l.Addresses(), p.addresses, from, now);
  }

  /** With no more connections than there are slots, room is never made. */
  lemma NoConnectionEvicted(l: Limits, p: Pair, tracked: set<Source>, r: Request)
    requires Wf(p.store) && p.store.times.Keys <= tracked && r.source in tracked && |tracked| <= l.maxTracked
    ensures LogRoom(l.Connections(), p, r.source) == p.logs
    ensures ConsumeStep(l.Connections(), p, r).store.times.Keys <= tracked
  {
    if r.source !in p.store.times {
      SubsetSmaller(p.store.times.Keys + {r.source}, tracked);
      assert |p.store.times| == |p.store.times.Keys|;
      assert |p.store.times.Keys + {r.source}| == |p.store.times.Keys| + 1;
    }
  }

  lemma SubsetSmaller(a: set<Source>, b: set<Source>)
    requires a <= b
    ensures |a| <= |b|
  {
    assert b == a + (b - a);
  }

  /** A frame its connection lets through meets room on the address. */
  lemma AddressHasRoom(l: Limits, p: Logged, ks: seq<Source>, tracked: set<Source>, f: Frame)
    requires Inv(l, p, ks, tracked, f.address, f.now) && f.connection in ks
    requires |ks| * l.perConnection <= l.perAddress
    requires Allows(l.Connections(), p.connections.store, f.connection, f.now)
    ensures Allows(l.Addresses(), p.addresses.store, f.address, f.now)
  {
    assert Covered(p, ks, f.address, f.now - WINDOW_MS);
    AllowedByCount(l.Connections(), p.connections, f.connection, f.now);
    AddressBelow(l, p.connections.logs, p.addresses.logs, ks, f);
    AllowedByCount(l.Addresses(), p.addresses, f.address, f.now);
  }

  lemma AddressBelow(l: Limits, connections: Logs, addresses: Logs, ks: seq<Source>, f: Frame)
    requires AllSpaced(l.Connections(), connections, f.now) && f.connection in ks
    requires Count(connections, f.connection, f.now - WINDOW_MS) < l.perConnection
    requires Count(addresses, f.address, f.now - WINDOW_MS) <= Together(connections, ks, f.now - WINDOW_MS)
    requires |ks| * l.perConnection <= l.perAddress
    ensures Count(addresses, f.address, f.now - WINDOW_MS) < l.perAddress
  {
    EachWithinAllowance(l, connections, ks, f.now);
    TogetherBelow(connections, ks, f.now - WINDOW_MS, l.perConnection, f.connection);
  }

  lemma EachWithinAllowance(l: Limits, logs: Logs, ks: seq<Source>, now: int)
    requires AllSpaced(l.Connections(), logs, now)
    ensures forall k | k in ks :: Count(logs, k, now - WINDOW_MS) <= l.perConnection
  {
    forall k | k in ks
      ensures Count(logs, k, now - WINDOW_MS) <= l.perConnection
    {
      if k in logs {
        SpacedCount(logs[k], l.perConnection, WINDOW_MS, now);
      }
    }
  }

  lemma CoveredStep(l: Limits, p: Logged, ks: seq<Source>, tracked: set<Source>, address: Source, f: Frame, cutoff: int)
    requires Inv(l, p, ks, tracked, address, f.now) && (f.address == address ==> f.connection in ks)
    requires LogRoom(l.Connections(), p.connections, f.connection) == p.connections.logs
    ensures Covered(LoggedStep(l, p, f), ks, address, cutoff)
  {
    assert Covered(p, ks, address, cutoff);
    if Consume(l.Connections(), p.connections.store, f.connection, f.now).0 {
      TogetherGrows(p.connections.logs, ks, f.connection, f.now, cutoff);
      if Consume(l.Addresses(), p.addresses.store, f.address, f.now).0 {
        var room := LogRoom(l.Addresses(), p.addresses, f.address);
        CountGrows(room, f.address, f.now, address, cutoff);
        LogRoomSpares(l.Addresses(), p.addresses, f.address);
        assert Count(room, address, cutoff) <= Count(p.addresses.logs, address, cutoff);
      }
    }
  }

  lemma InvStep(l: Limits, p: Logged, ks: seq<Source>, tracked: set<Source>, address: Source, f: Frame)
    requires Inv(l, p, ks, tracked, address, f.now) && (f.address == address ==> f.connection in ks)
    requires f.connection in tracked && |tracked| <= l.maxTracked
    ensures Inv(l, LoggedStep(l, p, f), ks, tracked, address, f.now)
  {
    var r := Request(f.connection, f.now);
    ConsumeRefines(l.Connections(), p.connections, r);
    ConsumeSpaced(l.Connections(), p.connections, r);
    ConsumeRefines(l.Addresses(), p.addresses, Request(f.address, f.now));
    NoConnectionEvicted(l, p.connections, tracked, r);
    forall cutoff
      ensures Covered(LoggedStep(l, p, f), ks, address, cutoff)
    {
      CoveredStep(l, p, ks, tracked, address, f, cutoff);
    }
  }

  predicate Uses(frames: seq<Frame>, ks: seq<Source>, tracked: set<Source>, address: Source) {
    forall f <- frames :: f.connection in tracked && (f.address == address ==> f.connection in ks)
  }

  lemma {:induction false} InvRun(l: Limits, p: Logged, ks: seq<Source>, tracked: set<Source>, address: Source,
                                  from: int, frames: seq<Frame>)
    requires Inv(l, p, ks, tracked, address, from) && InTime(from, frames)
    requires Uses(frames, ks, tracked, address) && |tracked| <= l.maxTracked
    ensures Inv(l, LoggedRun(l, p, frames), ks, tracked, address, Ends(from, frames))
    decreases |frames|
  {
    if frames != [] {
      InvLater(l, p, ks, tracked, address, from, frames[0].now);
      InvStep(l, p, ks, tracked, address, frames[0]);
      InvRun(l, LoggedStep(l, p, frames[0]), ks, tracked, address, frames[0].now, frames[1..]);
    }
  }

  /** If the connections ks are all that use an address, their allowances together fit
      the address's, and no more connections are about than slots, then whatever anyone
      sends the address dimension refuses none of their frames. */
  lemma AddressNeverRefuses(l: Limits, frames: seq<Frame>, from: int, f: Frame, ks: seq<Source>, tracked: set<Source>)
    requires InTime(from, frames) && Ends(from, frames) <= f.now
    requires Uses(frames + [f], ks, tracked, f.address) && |tracked| <= l.maxTracked
    requires |ks| * l.perConnection <= l.perAddress
    ensures var decision := Check(l, Run(l, START_STATE, frames), f).0;
            decision.Refused? ==> decision.dimension == Connection
  {
    assert (frames + [f])[|frames|] == f;
    assert Uses(frames, ks, tracked, f.address) by {
      assert forall g <- frames :: g in frames + [f];
    }
    var p := LoggedRun(l, Logged(START, START), frames);
    InvRun(l, Logged(START, START), ks, tracked, f.address, from, frames);
    InvLater(l, p, ks, tracked, f.address, Ends(from, frames), f.now);
    LogsOnlyWatch(l, START_STATE, Logged(START, START), frames);
    if Consume(l.Connections(), p.connections.store, f.connection, f.now).0 {
      AddressHasRoom(l, p, ks, tracked, f);
    }
  }

  // ----- each decision as counts -----

  lemma {:induction false} RefinesRun(l: Limits, p: Logged, from: int, frames: seq<Frame>)
    requires Refines(l.Connections(), p.connections, from) && Refines(l.Addresses(), p.addresses, from)
    requires InTime(from, frames)
    ensures var p1, end := LoggedRun(l, p, frames), Ends(from, frames);
            Refines(l.Connections(), p1.connections, end) && Refines(l.Addresses(), p1.addresses, end)
    decreases |frames|
  {
    if frames != [] {
      var f := frames[0];
      LaterRefines(l.Connections(), p.connections, from, f.now);
      LaterRefines(l.Addresses(), p.addresses, from, f.now);
      ConsumeRefines(l.Connections(), p.connections, Request(f.connection, f.now));
      ConsumeRefines(l.Addresses(), p.addresses, Request(f.address, f.now));
      RefinesRun(l, LoggedStep(l, p, f), f.now, frames[1..]);
    }
  }

  /** The decision told by the timestamps the two logs have in the last second. */
  predicate CountsDecide(l: Limits, p: Logged, f: Frame, decision: Decision) {
    var onConnection := Count(p.connections.logs, f.connection, f.now - 1000) < l.perConnection;
    var onAddress := Count(p.addresses.logs, f.address, f.now - 1000) < l.perAddress;
    && (decision.Allowed? <==> onConnection && onAddress)
    && (decision.Refused? ==> (decision.dimension == Address <==> onConnection))
  }

  lemma DecidedNow(l: Limits, st: State, p: Logged, f: Frame)
    requires p.connections.store == st.connections && p.addresses.store == st.addresses
    requires Refines(l.Connections(), p.connections, f.now) && Refines(l.Addresses(), p.addresses, f.now)
    ensures CountsDecide(l, p, f, Check(l, st, f).0)
  {
    AllowedByCount(l.Connections(), p.connections, f.connection, f.now);
    AllowedByCount(l.Addresses(), p.addresses, f.address, f.now);
  }

  /** After any run a frame is refused on its connection exactly when that connection was let
      through its full allowance within the last second, and on its address exactly when it was
      not and the address was; both as logged since the source was last evicted. */
  lemma DecidedByCounts(l: Limits, frames: seq<Frame>, from: int, f: Frame)
    requires InTime(from, frames) && Ends(from, frames) <= f.now
    ensures CountsDecide(l, LoggedRun(l, Logged(START, START), frames), f, Check(l, Run(l, START_STATE, frames), f).0)
  {
    var p := LoggedRun(l, Logged(START, START), frames);
    RefinesRun(l, Logged(START, START), from, frames);
    LaterRefines(l.Connections(), p.connections, Ends(from, frames), f.now);
    LaterRefines(l.Addresses(), p.addresses, Ends(from, frames), f.now);
    LogsOnlyWatch(l, START_STATE, Logged(START, START), frames);
    DecidedNow(l, Run(l, START_STATE, frames), p, f);
  }
}
