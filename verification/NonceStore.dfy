/** The attestation nonces: issued once, accepted at most once and only while they live. */
module NonceStore {

  type Nonce = nat

  const NONCE_TTL_MS: int := 60000
  const MAX_CHALLENGES: nat := 10000

  datatype Challenge = Challenge(nonce: Nonce, expiry: int)

  /** The map in the order it enumerates: oldest insertion first. */
  type Store = seq<Challenge>

  /** What is left once every entry past its expiry is gone. */
  function Live(cs: Store, now: int): Store {
    if cs == [] then [] else (if now > cs[0].expiry then [] else [cs[0]]) + Live(cs[1..], now)
  }

  lemma {:induction false} LiveIsUnexpired(cs: Store, now: int)
    ensures forall c :: c in Live(cs, now) <==> c in cs && now <= c.expiry
    decreases |cs|
  {
    if cs != [] {
      LiveIsUnexpired(cs[1..], now);
      assert cs == [cs[0]] + cs[1..];
    }
  }

  /** The newest of them, few enough to leave room for one more. */
  function Room(cs: Store): (room: Store)
    ensures |room| < MAX_CHALLENGES && |room| <= |cs| && room == cs[|cs| - |room|..]
  {
    if |cs| < MAX_CHALLENGES then assert cs[0..] == cs; cs
    else
      var room := Room(cs[1..]);
      assert cs[1..][|cs| - 1 - |room|..] == cs[|cs| - |room|..];
      room
  }

  function Issue(cs: Store, nonce: Nonce, now: int): Store {
    Room(Live(cs, now)) + [Challenge(nonce, now + NONCE_TTL_MS)]
  }

  predicate Holds(cs: Store, nonce: Nonce) { exists c <- cs :: c.nonce == nonce }

  function ExpiryOf(cs: Store, nonce: Nonce): int
    requires Holds(cs, nonce)
  {
    if cs[0].nonce == nonce then cs[0].expiry else assert Holds(cs[1..], nonce); ExpiryOf(cs[1..], nonce)
  }

  function Without(cs: Store, nonce: Nonce): Store {
    if cs == [] then [] else (if cs[0].nonce == nonce then [] else [cs[0]]) + Without(cs[1..], nonce)
  }

  function Consume(cs: Store, nonce: Nonce, now: int): (bool, Store) {
    if !Holds(cs, nonce) then (false, cs) else (now <= ExpiryOf(cs, nonce), Without(cs, nonce))
  }

  // ----- the object -----

  class ChallengeStore {
    var challenges: Store

    constructor ()
      ensures challenges == []
    {
      challenges := [];
    }

    method EvictExpiredChallenges(now: int)
      modifies this
      ensures challenges == Live(old(challenges), now)
      ensures forall c :: c in challenges <==> c in old(challenges) && now <= c.expiry
    {
      var all, kept: Store := challenges, [];
      assert all[0..] == all;
      for i := 0 to |all|
        invariant Live(all, now) == kept + Live(all[i..], now)
      {
        assert all[i..][1..] == all[i + 1..];
        if !(now > all[i].expiry) {
          kept := kept + [all[i]];
        }
      }
      assert all[|all|..] == [] && kept + [] == kept;
      LiveIsUnexpired(all, now);
      challenges := kept;
    }

    method GenerateChallenge(now: int, nonce: Nonce)
      modifies this
      ensures challenges == Issue(old(challenges), nonce, now)
    {
      EvictExpiredChallenges(now);
      while |challenges| >= MAX_CHALLENGES
        invariant Room(challenges) == Room(Live(old(challenges), now))
        decreases |challenges|
      {
        challenges := challenges[1..];
      }
      challenges := challenges + [Challenge(nonce, now + NONCE_TTL_MS)];
    }

    method ValidateAndConsumeNonce(now: int, nonce: Nonce) returns (accepted: bool)
      modifies this
      ensures (accepted, challenges) == Consume(old(challenges), nonce, now)
    {
      if !Holds(challenges, nonce) {
        return false;
      }
      var expiry := ExpiryOf(challenges, nonce);
      challenges := Without(challenges, nonce);
      return now <= expiry;
    }
  }

  // ----- runs -----

  datatype Event = Issued(nonce: Nonce, now: int) | Used(nonce: Nonce, now: int)

  function Step(cs: Store, e: Event): Store {
    match e
    case Issued(nonce, now) => Issue(cs, nonce, now)
    case Used(nonce, now) => Consume(cs, nonce, now).1
  }

  function Run(cs: Store, es: seq<Event>): Store
    decreases |es|
  {
    if es == [] then cs else Run(Step(cs, es[0]), es[1..])
  }

  predicate InTime(from: int, es: seq<Event>)
    decreases |es|
  {
    es == [] || (from <= es[0].now && InTime(es[0].now, es[1..]))
  }

  /** No nonce is drawn twice, nor one of those already seen. */
  predicate Fresh(seen: set<Nonce>, es: seq<Event>)
    decreases |es|
  {
    es == []
    || (if es[0].Issued? then es[0].nonce !in seen && Fresh(seen + {es[0].nonce}, es[1..]) else Fresh(seen, es[1..]))
  }

  /** The uses a run accepts, in order. */
  function Accepted(cs: Store, es: seq<Event>): seq<Event>
    decreases |es|
  {
    if es == [] then []
    else
      (if es[0].Used? && Consume(cs, es[0].nonce, es[0].now).0 then [es[0]] else [])
      + Accepted(Step(cs, es[0]), es[1..])
  }

  // ----- what the store is at every moment -----

  /** In order of expiry, and no nonce twice. */
  predicate Ordered(cs: Store) {
    cs == [] || (Precedes(cs[0], cs[1..]) && Ordered(cs[1..]))
  }

  predicate Precedes(c: Challenge, later: Store) {
    forall d <- later :: c.expiry <= d.expiry && c.nonce != d.nonce
  }

  /** Nothing outlives what would be issued now, and every nonce has been seen. */
  predicate Bounds(cs: Store, now: int, seen: set<Nonce>) {
    forall c <- cs :: c.expiry <= now + NONCE_TTL_MS && c.nonce in seen
  }

  ghost predicate PartOf(part: Store, whole: Store) {
    |part| <= |whole| && forall c <- part :: c in whole
  }

  lemma {:induction false} LiveKeeps(cs: Store, now: int)
    ensures PartOf(Live(cs, now), cs) && (Ordered(cs) ==> Ordered(Live(cs, now)))
    decreases |cs|
  {
    if cs != [] {
      LiveKeeps(cs[1..], now);
      KeepsCons(cs[0], Live(cs[1..], now), cs[1..]);
      assert [cs[0]] + cs[1..] == cs;
    }
  }

  lemma KeepsCons(c: Challenge, part: Store, rest: Store)
    requires PartOf(part, rest) && (Ordered(rest) ==> Ordered(part))
    ensures PartOf([c] + part, [c] + rest) && PartOf([] + part, [c] + rest)
    ensures Ordered([c] + rest) ==> Ordered([c] + part) && Ordered([] + part)
  {
    assert ([c] + rest)[1..] == rest && ([c] + part)[1..] == part && [] + part == part;
  }

  lemma {:induction false} WithoutKeeps(cs: Store, nonce: Nonce)
    ensures PartOf(Without(cs, nonce), cs) && (Ordered(cs) ==> Ordered(Without(cs, nonce)))
    ensures !Holds(Without(cs, nonce), nonce)
    decreases |cs|
  {
    if cs != [] {
      WithoutKeeps(cs[1..], nonce);
      KeepsCons(cs[0], Without(cs[1..], nonce), cs[1..]);
      assert [cs[0]] + cs[1..] == cs;
    }
  }

  lemma {:induction false} RoomKeeps(cs: Store)
    ensures PartOf(Room(cs), cs) && (Ordered(cs) ==> Ordered(Room(cs)))
    decreases |cs|
  {
    if |cs| >= MAX_CHALLENGES {
      RoomKeeps(cs[1..]);
    }
  }

  lemma {:induction false} OrderedSnoc(cs: Store, c: Challenge)
    requires Ordered(cs) && forall d <- cs :: d.expiry <= c.expiry && d.nonce != c.nonce
    ensures Ordered(cs + [c])
    decreases |cs|
  {
    if cs == [] {
      assert (cs + [c])[1..] == [];
    } else {
      OrderedSnoc(cs[1..], c);
      assert (cs + [c])[1..] == cs[1..] + [c];
    }
  }

  /** What a step leaves was there before, but for the nonce it issues. */
  lemma StepMembers(cs: Store, e: Event)
    ensures forall c <- Step(cs, e) :: c in cs || (e.Issued? && c == Challenge(e.nonce, e.now + NONCE_TTL_MS))
    ensures e.Used? ==> !Holds(Step(cs, e), e.nonce)
  {
    if e.Issued? {
      LiveKeeps(cs, e.now);
      RoomKeeps(Live(cs, e.now));
    } else {
      WithoutKeeps(cs, e.nonce);
    }
  }

  lemma StepKeeps(cs: Store, e: Event, seen: set<Nonce>)
    requires Ordered(cs) && |cs| <= MAX_CHALLENGES && Bounds(cs, e.now, seen) && (e.Issued? ==> e.nonce !in seen)
    ensures Ordered(Step(cs, e)) && |Step(cs, e)| <= MAX_CHALLENGES
    ensures Bounds(Step(cs, e), e.now, Seen(seen, e))
  {
    StepMembers(cs, e);
    if e.Issued? {
      LiveKeeps(cs, e.now);
      RoomKeeps(Live(cs, e.now));
      OrderedSnoc(Room(Live(cs, e.now)), Challenge(e.nonce, e.now + NONCE_TTL_MS));
    } else {
      WithoutKeeps(cs, e.nonce);
    }
  }

  function Seen(seen: set<Nonce>, e: Event): set<Nonce> {
    if e.Issued? then seen + {e.nonce} else seen
  }

  lemma {:induction false} RunKeeps(cs: Store, from: int, es: seq<Event>, seen: set<Nonce>)
    requires Ordered(cs) && |cs| <= MAX_CHALLENGES && Bounds(cs, from, seen) && InTime(from, es) && Fresh(seen, es)
    ensures Ordered(Run(cs, es)) && |Run(cs, es)| <= MAX_CHALLENGES
    decreases |es|
  {
    if es != [] {
      StepKeeps(cs, es[0], seen);
      RunKeeps(Step(cs, es[0]), es[0].now, es[1..], Seen(seen, es[0]));
    }
  }

  /** Over every run with fresh nonces: insertion order is expiry order, and the store
      never holds more than its ceiling. */
  lemma OrderedAndBounded(from: int, es: seq<Event>)
    requires InTime(from, es) && Fresh({}, es)
    ensures Ordered(Run([], es)) && |Run([], es)| <= 10000
  {
    RunKeeps([], from, es, {});
  }

  // ----- accepted at most once, and only in time -----

  predicate NotAgain(nonce: Nonce, uses: seq<Event>) {
    forall u <- uses :: u.nonce != nonce
  }

  predicate OnceEach(uses: seq<Event>) {
    uses == [] || (NotAgain(uses[0].nonce, uses[1..]) && OnceEach(uses[1..]))
  }

  /** A use is in time when its nonce was issued no longer ago than it lives. */
  ghost predicate TimelyUse(u: Event, cs: Store, es: seq<Event>) {
    || (exists c <- cs :: c.nonce == u.nonce && u.now <= c.expiry)
    || (exists e <- es :: e.Issued? && e.nonce == u.nonce && e.now <= u.now <= e.now + 60000)
  }

  lemma {:induction false} ExpiryIsHeld(cs: Store, nonce: Nonce)
    requires Holds(cs, nonce)
    ensures Challenge(nonce, ExpiryOf(cs, nonce)) in cs
    decreases |cs|
  {
    if cs[0].nonce != nonce {
      assert Holds(cs[1..], nonce);
      ExpiryIsHeld(cs[1..], nonce);
    }
  }

  /** A nonce that is not stored and was seen before is never accepted again. */
  lemma {:induction false} GoneForGood(cs: Store, es: seq<Event>, seen: set<Nonce>, nonce: Nonce)
    requires Fresh(seen, es) && nonce in seen && !Holds(cs, nonce)
    ensures NotAgain(nonce, Accepted(cs, es))
    decreases |es|
  {
    if es != [] {
      StepMembers(cs, es[0]);
      GoneForGood(Step(cs, es[0]), es[1..], Seen(seen, es[0]), nonce);
      AcceptedHead(cs, es);
    }
  }

  ghost predicate Within(cs: Store, seen: set<Nonce>) {
    forall c <- cs :: c.nonce in seen
  }

  lemma AcceptedHead(cs: Store, es: seq<Event>)
    requires es != []
    ensures forall u <- Accepted(cs, es) ::
              u in Accepted(Step(cs, es[0]), es[1..]) || (u == es[0] && u.Used? && Holds(cs, u.nonce))
  {
  }

  lemma {:induction false} AcceptedOnce(cs: Store, es: seq<Event>, seen: set<Nonce>)
    requires Within(cs, seen) && Fresh(seen, es)
    ensures OnceEach(Accepted(cs, es))
    decreases |es|
  {
    if es != [] {
      var e := es[0];
      StepMembers(cs, e);
      AcceptedOnce(Step(cs, e), es[1..], Seen(seen, e));
      var rest := Accepted(Step(cs, e), es[1..]);
      if e.Used? && Consume(cs, e.nonce, e.now).0 {
        GoneForGood(Step(cs, e), es[1..], seen, e.nonce);
        assert ([e] + rest)[1..] == rest;
      } else {
        assert [] + rest == rest;
      }
    }
  }

  lemma {:induction false} AcceptedInTime(cs: Store, from: int, es: seq<Event>)
    requires InTime(from, es)
    ensures forall u <- Accepted(cs, es) :: from <= u.now && TimelyUse(u, cs, es)
    decreases |es|
  {
    if es != [] {
      var e, rest := es[0], es[1..];
      AcceptedInTime(Step(cs, e), e.now, rest);
      assert [e] + rest == es;
      forall u | u in Accepted(Step(cs, e), rest)
        ensures TimelyUse(u, cs, es)
      {
        TimelyEarlier(u, cs, e, rest);
      }
      if e.Used? && Consume(cs, e.nonce, e.now).0 {
        ExpiryIsHeld(cs, e.nonce);
        assert TimelyUse(e, cs, es);
      }
    }
  }

  lemma TimelyEarlier(u: Event, cs: Store, e: Event, rest: seq<Event>)
    requires e.now <= u.now && TimelyUse(u, Step(cs, e), rest)
    ensures TimelyUse(u, cs, [e] + rest)
  {
    StepMembers(cs, e);
    if x :| x in rest && x.Issued? && x.nonce == u.nonce && x.now <= u.now <= x.now + 60000 {
      assert x in [e] + rest;
    } else {
      var c :| c in Step(cs, e) && c.nonce == u.nonce && u.now <= c.expiry;
      if c !in cs {
        assert e in [e] + rest;
      }
    }
  }

  /** Over every run with fresh nonces each is accepted at most once, and only within
      its lifetime after being issued. */
  lemma AcceptedAtMostOnceInTime(from: int, es: seq<Event>)
    requires InTime(from, es) && Fresh({}, es)
    ensures OnceEach(Accepted([], es))
    ensures forall u <- Accepted([], es) ::
              exists e <- es :: e.Issued? && e.nonce == u.nonce && e.now <= u.now <= e.now + 60000
  {
    AcceptedOnce([], es, {});
    AcceptedInTime([], from, es);
  }

  // ----- a live nonce is still accepted -----

  function Ends(from: int, es: seq<Event>): int
    decreases |es|
  {
    if es == [] then from else Ends(es[0].now, es[1..])
  }

  function IssueCount(es: seq<Event>): nat {
    if es == [] then 0 else (if es[0].Issued? then 1 else 0) + IssueCount(es[1..])
  }

  predicate NotUsed(es: seq<Event>, nonce: Nonce) {
    forall e <- es :: e.nonce != nonce
  }

  lemma {:induction false} LiveAround(a: Store, c: Challenge, b: Store, now: int)
    requires now <= c.expiry
    ensures Live(a + [c] + b, now) == Live(a, now) + [c] + Live(b, now)
    decreases |a|
  {
    var whole := a + [c] + b;
    if a == [] {
      assert whole[1..] == b;
    } else {
      assert whole[1..] == a[1..] + [c] + b;
      LiveAround(a[1..], c, b, now);
      var head: Store := if now > a[0].expiry then [] else [a[0]];
      assert head + (Live(a[1..], now) + [c] + Live(b, now)) == (head + Live(a[1..], now)) + [c] + Live(b, now);
    }
  }

  lemma {:induction false} WithoutAround(a: Store, c: Challenge, b: Store, nonce: Nonce)
    requires nonce != c.nonce
    ensures Without(a + [c] + b, nonce) == Without(a, nonce) + [c] + Without(b, nonce)
    decreases |a|
  {
    var whole := a + [c] + b;
    if a == [] {
      assert whole[1..] == b;
    } else {
      assert whole[1..] == a[1..] + [c] + b;
      WithoutAround(a[1..], c, b, nonce);
      var head: Store := if a[0].nonce == nonce then [] else [a[0]];
      assert head + (Without(a[1..], nonce) + [c] + Without(b, nonce))
          == (head + Without(a[1..], nonce)) + [c] + Without(b, nonce);
    }
  }

  /** Making room takes from the front, and not as far as c. */
  lemma {:induction false} RoomAround(a: Store, c: Challenge, b: Store) returns (kept: Store)
    requires |b| + 1 < MAX_CHALLENGES
    ensures Room(a + [c] + b) == kept + [c] + b && PartOf(kept, a)
    decreases |a|
  {
    var whole := a + [c] + b;
    if |whole| < MAX_CHALLENGES {
      kept := a;
    } else {
      assert whole[1..] == a[1..] + [c] + b;
      kept := RoomAround(a[1..], c, b);
    }
  }

  lemma {:induction false} FoundAround(a: Store, c: Challenge, b: Store)
    requires !Holds(a, c.nonce)
    ensures Holds(a + [c] + b, c.nonce) && ExpiryOf(a + [c] + b, c.nonce) == c.expiry
    decreases |a|
  {
    var whole := a + [c] + b;
    assert whole[|a|] == c;
    if a != [] {
      assert a[0] in a;
      assert whole[1..] == a[1..] + [c] + b;
      FoundAround(a[1..], c, b);
    }
  }

  /** c stays stored, with at most k newer entries and one more for each later issue. */
  lemma {:induction false} StaysStored(a: Store, c: Challenge, b: Store, from: int, es: seq<Event>)
    returns (a1: Store, b1: Store)
    requires InTime(from, es) && Ends(from, es) <= c.expiry && NotUsed(es, c.nonce)
    requires !Holds(a, c.nonce) && |b| + IssueCount(es) < MAX_CHALLENGES
    ensures Run(a + [c] + b, es) == a1 + [c] + b1 && !Holds(a1, c.nonce)
    decreases |es|
  {
    if es == [] {
      a1, b1 := a, b;
    } else {
      var e := es[0];
      EndsLater(e.now, es[1..]);
      if e.Issued? {
        LiveAround(a, c, b, e.now);
        LiveKeeps(a, e.now);
        LiveKeeps(b, e.now);
        var kept := RoomAround(Live(a, e.now), c, Live(b, e.now));
        var newest := [Challenge(e.nonce, e.now + NONCE_TTL_MS)];
        assert kept + [c] + Live(b, e.now) + newest == kept + [c] + (Live(b, e.now) + newest);
        a1, b1 := StaysStored(kept, c, Live(b, e.now) + newest, e.now, es[1..]);
      } else {
        WithoutAround(a, c, b, e.nonce);
        WithoutKeeps(a, e.nonce);
        WithoutKeeps(b, e.nonce);
        if Holds(a + [c] + b, e.nonce) {
          a1, b1 := StaysStored(Without(a, e.nonce), c, Without(b, e.nonce), e.now, es[1..]);
        } else {
          a1, b1 := StaysStored(a, c, b, e.now, es[1..]);
        }
      }
    }
  }

  lemma {:induction false} EndsLater(from: int, es: seq<Event>)
    requires InTime(from, es)
    ensures from <= Ends(from, es)
    decreases |es|
  {
    if es != [] {
      EndsLater(es[0].now, es[1..]);
    }
  }

  /** A nonce that is not used, with fewer issues after it than the store has room for,
      is accepted up to the moment it expires, whatever the store held before. */
  lemma LiveNonceAccepted(before: Store, nonce: Nonce, issued: int, es: seq<Event>, now: int)
    requires !Holds(before, nonce) && InTime(issued, es) && NotUsed(es, nonce) && IssueCount(es) < 10000
    requires Ends(issued, es) <= now <= issued + 60000
    ensures Consume(Run(Issue(before, nonce, issued), es), nonce, now).0
  {
    var c := Challenge(nonce, issued + NONCE_TTL_MS);
    LiveKeeps(before, issued);
    RoomKeeps(Live(before, issued));
    var a := Room(Live(before, issued));
    assert a + [c] + [] == Issue(before, nonce, issued);
    var a1, b1 := StaysStored(a, c, [], issued, es);
    FoundAround(a1, c, b1);
  }
}
