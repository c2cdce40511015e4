/** The four counters of the session manager, as values: what a reservation, its release
    and a counted connection do to them. */
module CapacityLedger {
  import opened Wrappers

  type Ip = string

  const UNKNOWN: Ip := "unknown"

  datatype Limits = Limits(maxPerIp: nat, maxGlobal: Option<nat>)

  datatype Ledger = Ledger(
    established: map<Ip, nat>, pending: map<Ip, nat>,
    globalEstablished: nat, globalPending: nat)

  datatype Decision = Allowed | AddressFull | ServerFull

  function EmptyLedger(): Ledger { Ledger(map[], map[], 0, 0) }

  function Count(m: map<Ip, nat>, ip: Ip): nat {
    if ip in m then m[ip] else 0
  }

  function Decide(limits: Limits, l: Ledger, ip: Ip): Decision {
    if Count(l.established, ip) + Count(l.pending, ip) >= limits.maxPerIp then AddressFull
    else if limits.maxGlobal.Some? && l.globalEstablished + l.globalPending >= limits.maxGlobal.value then ServerFull
    else Allowed
  }

  function Reserve(limits: Limits, l: Ledger, ip: Ip): Ledger {
    if Decide(limits, l, ip) != Allowed then l
    else l.(pending := l.pending[ip := Count(l.pending, ip) + 1], globalPending := l.globalPending + 1)
  }

  function Release(l: Ledger, ip: Ip): Ledger {
    var n := Count(l.pending, ip);
    if n == 0 then l
    else
      l.(pending := if n == 1 then l.pending - {ip} else l.pending[ip := n - 1],
         globalPending := if l.globalPending > 0 then l.globalPending - 1 else 0)
  }

  function Increment(l: Ledger, ip: Ip): Ledger {
    l.(established := l.established[ip := Count(l.established, ip) + 1],
       globalEstablished := l.globalEstablished + 1)
  }

  function Decrement(l: Ledger, ip: Ip): Ledger {
    var n := Count(l.established, ip);
    l.(established := if n > 1 then l.established[ip := n - 1] else l.established - {ip},
       globalEstablished := if n > 0 && l.globalEstablished > 0 then l.globalEstablished - 1 else l.globalEstablished)
  }

  // ----- sums -----

  ghost function Sum(m: map<Ip, nat>): nat {
    if m == map[] then 0
    else
      var ip :| ip in m;
      m[ip] + Sum(m - {ip})
  }

  lemma {:induction false} SumSplit(m: map<Ip, nat>, ip: Ip)
    requires ip in m
    ensures Sum(m) == m[ip] + Sum(m - {ip})
    decreases |m|
  {
    var first :| first in m && Sum(m) == m[first] + Sum(m - {first});
    if first != ip {
      SumSplit(m - {first}, ip);
      SumSplit(m - {ip}, first);
      assert m - {first} - {ip} == m - {ip} - {first};
    }
  }

  lemma SumUpdate(m: map<Ip, nat>, ip: Ip, n: nat)
    ensures Sum(m[ip := n]) == Sum(m - {ip}) + n
    ensures Sum(m) == Sum(m - {ip}) + Count(m, ip)
  {
    SumSplit(m[ip := n], ip);
    assert m[ip := n] - {ip} == m - {ip};
    if ip in m {
      SumSplit(m, ip);
    } else {
      assert m - {ip} == m;
    }
  }

  // ----- what each operation keeps -----

  /** Both running totals are the sums of their maps. */
  ghost predicate Balanced(l: Ledger) {
    && l.globalEstablished == Sum(l.established)
    && l.globalPending == Sum(l.pending)
  }

  ghost predicate WithinLimits(limits: Limits, l: Ledger) {
    && (forall ip :: Count(l.established, ip) + Count(l.pending, ip) <= limits.maxPerIp)
    && (limits.maxGlobal.Some? ==> l.globalEstablished + l.globalPending <= limits.maxGlobal.value)
  }

  /** Only this address changes, from (e, p) to (e1, p1), and the totals change alike. */
  ghost predicate Moves(l: Ledger, l1: Ledger, ip: Ip, de: int, dp: int) {
    && Count(l1.established, ip) == Count(l.established, ip) + de
    && Count(l1.pending, ip) == Count(l.pending, ip) + dp
    && (forall other :: other != ip ==> Count(l1.established, other) == Count(l.established, other)
                                        && Count(l1.pending, other) == Count(l.pending, other))
    && l1.globalEstablished == l.globalEstablished + de
    && l1.globalPending == l.globalPending + dp
  }

  lemma ReserveMoves(limits: Limits, l: Ledger, ip: Ip)
    requires Balanced(l)
    ensures Balanced(Reserve(limits, l, ip))
    ensures Moves(l, Reserve(limits, l, ip), ip, 0, if Decide(limits, l, ip) == Allowed then 1 else 0)
    ensures WithinLimits(limits, l) ==> WithinLimits(limits, Reserve(limits, l, ip))
  {
    SumUpdate(l.pending, ip, Count(l.pending, ip) + 1);
  }

  lemma ReleaseMoves(l: Ledger, ip: Ip)
    requires Balanced(l)
    ensures Balanced(Release(l, ip))
    ensures Moves(l, Release(l, ip), ip, 0, if Count(l.pending, ip) > 0 then -1 else 0)
  {
    var n := Count(l.pending, ip);
    if n > 0 {
      SumUpdate(l.pending, ip, n - 1);
    }
  }

  lemma IncrementMoves(l: Ledger, ip: Ip)
    requires Balanced(l)
    ensures Balanced(Increment(l, ip)) && Moves(l, Increment(l, ip), ip, 1, 0)
  {
    SumUpdate(l.established, ip, Count(l.established, ip) + 1);
  }

  lemma DecrementMoves(l: Ledger, ip: Ip)
    requires Balanced(l)
    ensures Balanced(Decrement(l, ip))
    ensures Moves(l, Decrement(l, ip), ip, if Count(l.established, ip) > 0 then -1 else 0, 0)
  {
    var n := Count(l.established, ip);
    SumUpdate(l.established, ip, if n > 0 then n - 1 else 0);
  }

  /** A reservation turned into an established connection moves one unit across. */
  lemma HandOffMoves(limits: Limits, l: Ledger, ip: Ip)
    requires Balanced(l) && WithinLimits(limits, l) && Count(l.pending, ip) > 0
    ensures var l1 := Release(Increment(l, ip), ip);
            Balanced(l1) && Moves(l, l1, ip, 1, -1) && WithinLimits(limits, l1)
  {
    IncrementMoves(l, ip);
    ReleaseMoves(Increment(l, ip), ip);
  }
}
