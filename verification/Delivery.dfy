/** What a client receives over a whole run of output, lost connections and resumes, when
    it resumes from the highest sequence it has received. */
module Delivery {
  import opened ReplayList

  /** history, counter: the session's replay buffer.  live: whether output reaches the
      client.  received: the sequences it got, in order.  unheard: what was produced since
      it was cut off, or left of a replay that broke off.  lost: what was unheard and no
      longer held when it resumed. */
  datatype State = State(
    history: seq<Chunk>, counter: nat, live: bool, received: seq<nat>, unheard: seq<Chunk>, lost: set<nat>,
    produced: seq<Chunk>)

  /** Interrupted: a resume whose socket breaks after some chunks of the replay. */
  datatype Event = Output(data: Payload, kind: Kind) | CutOff | Resume | Interrupted(got: nat)

  function Initial(): State { State([], 0, true, [], [], {}, []) }

  function Highest(received: seq<nat>): nat {
    if received == [] then 0 else received[|received| - 1]
  }

  function Sequences(cs: seq<Chunk>): seq<nat> {
    seq(|cs|, i requires 0 <= i < |cs| => cs[i].sequence)
  }

  /** The sequences of what was unheard and is no longer held. */
  function Gone(unheard: seq<Chunk>, history: seq<Chunk>): set<nat> {
    set c | c in unheard && c !in history :: c.sequence
  }

  /** What is held and was not received. */
  function Replay(st: State): seq<Chunk> { Newer(st.history, Highest(st.received)) }

  /** The client gets the first k chunks of the replay. */
  function ReplayTo(st: State, k: nat, live: bool): State
    requires k <= |Replay(st)|
  {
    st.(live := live, received := st.received + Sequences(Replay(st)[..k]), unheard := Replay(st)[k..],
        lost := st.lost + Gone(st.unheard, st.history))
  }

  function Step(st: State, e: Event, maxSize: nat, capacity: nat): State {
    match e
    case Output(data, kind) =>
      var c := Chunk(st.counter + 1, data, kind);
      st.(history := Store(st.history, c, maxSize, capacity), counter := st.counter + 1,
          received := if st.live then st.received + [c.sequence] else st.received,
          unheard := if st.live then st.unheard else st.unheard + [c],
          produced := st.produced + [c])
    case CutOff => st.(live := false)
    case Resume => ReplayTo(st, |Replay(st)|, true)
    case Interrupted(got) => ReplayTo(st, if got <= |Replay(st)| then got else |Replay(st)|, false)
  }

  function Run(st: State, events: seq<Event>, maxSize: nat, capacity: nat): State
    decreases |events|
  {
    if events == [] then st else Run(Step(st, events[0], maxSize, capacity), events[1..], maxSize, capacity)
  }

  predicate Ascending(xs: seq<nat>) {
    forall i, j | 0 <= i < j < |xs| :: xs[i] < xs[j]
  }

  /** Every produced sequence is received, lost, or still unheard, and nothing else is. */
  predicate Accounted(received: seq<nat>, unheard: seq<Chunk>, lost: set<nat>, counter: nat) {
    && (forall q | 1 <= q <= counter :: q in received || q in lost || Carries(unheard, q))
    && (forall q <- received :: 1 <= q <= counter && q !in lost && !Carries(unheard, q))
    && (forall q <- lost :: 1 <= q <= counter && !Carries(unheard, q))
  }

  predicate Carries(cs: seq<Chunk>, q: nat) {
    exists c <- cs :: c.sequence == q
  }

  /** What is held and not yet received is held and unheard. */
  predicate Holding(history: seq<Chunk>, unheard: seq<Chunk>, highest: nat, counter: nat) {
    && Increasing(history)
    && (forall c <- history :: 1 <= c.sequence <= counter)
    && (forall c <- unheard :: highest < c.sequence <= counter)
    && (forall c <- history :: c.sequence > highest ==> c in unheard)
    && (forall c <- history, d <- unheard :: c.sequence == d.sequence ==> c == d)
  }

  predicate Inv(st: State, maxSize: nat, capacity: nat) {
    && Ascending(st.received)
    && Accounted(st.received, st.unheard, st.lost, st.counter)
    && Holding(st.history, st.unheard, Highest(st.received), st.counter)
    && (st.live ==> st.unheard == [])
    && st.history == History(st.produced, maxSize, capacity)
  }

  // ----- one event -----

  lemma StoreKeepsNewest(cs: seq<Chunk>, c: Chunk, maxSize: nat, capacity: nat)
    requires Increasing(cs) && (forall d <- cs :: d.sequence < c.sequence)
    ensures Increasing(Store(cs, c, maxSize, capacity))
    ensures forall d <- Store(cs, c, maxSize, capacity) :: d in cs || d == c
  {
    if Cost(c) <= maxSize {
      IncreasingSnoc(cs, c);
      TrimIncreasing(cs + [c], maxSize, capacity);
    }
  }

  lemma TrimIncreasing(cs: seq<Chunk>, maxSize: nat, capacity: nat)
    requires Increasing(cs)
    ensures Increasing(Trim(cs, maxSize, capacity))
    ensures forall d <- Trim(cs, maxSize, capacity) :: d in cs
  {
    TrimIsLongest(cs, maxSize, capacity);
    IncreasingSuffix(cs, |cs| - |Trim(cs, maxSize, capacity)|);
  }

  lemma {:induction false} IncreasingSuffix(cs: seq<Chunk>, k: nat)
    requires Increasing(cs) && k <= |cs|
    ensures Increasing(cs[k..])
    decreases k
  {
    if k == 0 {
      assert cs[0..] == cs;
    } else {
      IncreasingTail(cs);
      IncreasingSuffix(cs[1..], k - 1);
      assert cs[1..][k - 1..] == cs[k..];
    }
  }

  lemma HighestIsMax(received: seq<nat>)
    requires Ascending(received)
    ensures forall q <- received :: q <= Highest(received)
  {
  }

  lemma OutputKeeps(st: State, data: Payload, kind: Kind, maxSize: nat, capacity: nat)
    requires Inv(st, maxSize, capacity)
    ensures Inv(Step(st, Output(data, kind), maxSize, capacity), maxSize, capacity)
  {
    var c := Chunk(st.counter + 1, data, kind);
    HistorySnoc(st.produced, c, maxSize, capacity);
    StoreKeepsHolding(st.history, st.unheard, Highest(st.received), c, maxSize, capacity);
    if st.live {
      HeardKeeps(st.received, st.lost, st.counter);
    } else {
      UnheardKeeps(st.received, st.unheard, st.lost, c);
      HighestIsProduced(st.received, st.unheard, st.lost, st.counter);
    }
  }

  lemma HistorySnoc(produced: seq<Chunk>, c: Chunk, maxSize: nat, capacity: nat)
    ensures History(produced + [c], maxSize, capacity)
         == Store(History(produced, maxSize, capacity), c, maxSize, capacity)
  {
    assert (produced + [c])[..|produced|] == produced;
  }

  lemma HighestIsProduced(received: seq<nat>, unheard: seq<Chunk>, lost: set<nat>, counter: nat)
    requires Accounted(received, unheard, lost, counter)
    ensures Highest(received) <= counter
  {
    assert received == [] || Highest(received) in received;
  }

  lemma StoreKeepsHolding(history: seq<Chunk>, unheard: seq<Chunk>, highest: nat, c: Chunk, maxSize: nat, capacity: nat)
    requires c.sequence > 0 && Holding(history, unheard, highest, c.sequence - 1)
    ensures Holding(Store(history, c, maxSize, capacity), [], c.sequence, c.sequence)
    ensures highest < c.sequence ==>
              Holding(Store(history, c, maxSize, capacity), unheard + [c], highest, c.sequence)
  {
    StoreKeepsNewest(history, c, maxSize, capacity);
    forall d
      ensures d in unheard + [c] <==> d in unheard || d == c
    {
    }
  }

  lemma HeardKeeps(received: seq<nat>, lost: set<nat>, counter: nat)
    requires Ascending(received) && Accounted(received, [], lost, counter)
    ensures Ascending(received + [counter + 1]) && Accounted(received + [counter + 1], [], lost, counter + 1)
  {
    var received1 := received + [counter + 1];
    assert received1[|received|] == counter + 1;
    assert forall q <- received :: q in received1;
    assert forall i | 0 <= i < |received| :: received[i] in received;
  }

  lemma UnheardKeeps(received: seq<nat>, unheard: seq<Chunk>, lost: set<nat>, c: Chunk)
    requires c.sequence > 0 && Accounted(received, unheard, lost, c.sequence - 1)
    requires forall d <- unheard :: d.sequence < c.sequence
    ensures Accounted(received, unheard + [c], lost, c.sequence)
  {
    forall q: nat
      ensures Carries(unheard + [c], q) <==> Carries(unheard, q) || q == c.sequence
    {
      assert c in unheard + [c];
      if Carries(unheard, q) {
        var d :| d in unheard && d.sequence == q;
        assert d in unheard + [c];
      }
    }
  }

  /** The chunks newer than what the client has: increasing, and exactly those. */
  lemma {:induction false} NewerMembers(cs: seq<Chunk>, sequence: int)
    ensures forall c :: c in Newer(cs, sequence) <==> c in cs && c.sequence > sequence
    decreases |cs|
  {
    if cs != [] {
      NewerMembers(cs[1..], sequence);
      assert cs == [cs[0]] + cs[1..];
    }
  }

  /** In an increasing list the newer chunks are a suffix, so they increase too. */
  lemma {:induction false} NewerStart(cs: seq<Chunk>, sequence: int) returns (k: nat)
    requires Increasing(cs)
    ensures k <= |cs| && Newer(cs, sequence) == cs[k..]
    decreases |cs|
  {
    k := 0;
    if cs != [] {
      if cs[0].sequence > sequence {
        IncreasingOrder(cs);
        NewerIsSuffix(cs, sequence, 0);
      } else {
        IncreasingTail(cs);
        k := NewerStart(cs[1..], sequence);
        assert cs[1..][k..] == cs[k + 1..];
        k := k + 1;
      }
    }
  }

  predicate Sorted(cs: seq<Chunk>) {
    forall i, j | 0 <= i < j < |cs| :: cs[i].sequence < cs[j].sequence
  }

  predicate AllAbove(cs: seq<Chunk>, highest: nat) {
    forall i | 0 <= i < |cs| :: cs[i].sequence > highest
  }

  /** The replay increases, from above what was received, and is what is held of the rest. */
  lemma ReplayIsSorted(history: seq<Chunk>, highest: nat)
    requires Increasing(history)
    ensures Sorted(Newer(history, highest)) && AllAbove(Newer(history, highest), highest)
  {
    var replay := Newer(history, highest);
    var start := NewerStart(history, highest);
    IncreasingSuffix(history, start);
    IncreasingOrder(replay);
    NewerMembers(history, highest);
    forall i | 0 <= i < |replay|
      ensures replay[i].sequence > highest
    {
      assert replay[i] in replay;
    }
  }

  /** Getting the first part of it keeps what was received ascending. */
  lemma PartAscends(received: seq<nat>, part: seq<Chunk>)
    requires Ascending(received) && Sorted(part) && AllAbove(part, Highest(received))
    ensures Ascending(received + Sequences(part))
  {
    HighestIsMax(received);
    forall i | 0 <= i < |received|
      ensures received[i] <= Highest(received)
    {
      assert received[i] in received;
    }
  }

  lemma PartReceived(received: seq<nat>, part: seq<Chunk>, q: nat)
    ensures q in received + Sequences(part) <==> q in received || Carries(part, q)
  {
    SequencesCarry(part, q);
  }

  /** The rest of the replay is what is then held and not received. */
  lemma RestIsHeld(history: seq<Chunk>, unheard: seq<Chunk>, highest: nat, counter: nat, replay: seq<Chunk>, k: nat)
    requires Holding(history, unheard, highest, counter) && k <= |replay|
    requires Sorted(replay) && AllAbove(replay, highest)
    requires forall c :: c in replay <==> c in history && c.sequence > highest
    ensures Holding(history, replay[k..], if k == 0 then highest else replay[k - 1].sequence, counter)
  {
    var highest1 := if k == 0 then highest else replay[k - 1].sequence;
    forall c | c in history && c.sequence > highest1
      ensures c in replay[k..]
    {
      assert k > 0 ==> replay[k - 1].sequence > highest;
      assert c in replay;
      var i :| 0 <= i < |replay| && replay[i] == c;
      assert i >= k && replay[k..][i - k] == c;
    }
    forall c | c in replay[k..]
      ensures highest1 < c.sequence <= counter && c in history
    {
      var i :| 0 <= i < |replay[k..]| && replay[k..][i] == c;
      assert replay[k + i] == c && c in replay;
    }
    IncreasingOrder(history);
  }

  /** Every unheard chunk is got, left in the rest of the replay, or gone. */
  lemma RestIsAccounted(history: seq<Chunk>, unheard: seq<Chunk>, highest: nat, counter: nat, replay: seq<Chunk>,
                        k: nat, q: nat)
    requires Holding(history, unheard, highest, counter) && k <= |replay| && Sorted(replay)
    requires forall c :: c in replay <==> c in history && c.sequence > highest
    ensures Carries(unheard, q) <==>
              Carries(replay[..k], q) || Carries(replay[k..], q) || q in Gone(unheard, history)
    ensures !(Carries(replay[..k], q) && Carries(replay[k..], q))
    ensures q in Gone(unheard, history) ==> !Carries(replay[..k], q) && !Carries(replay[k..], q)
  {
    if Carries(replay[..k], q) {
      var c := CarriedAt(replay, 0, k, q);
    }
    if Carries(replay[k..], q) {
      var c := CarriedAt(replay, k, |replay|, q);
    }
    if Carries(unheard, q) {
      var c :| c in unheard && c.sequence == q;
      if c in history {
        assert c in replay;
        var i :| 0 <= i < |replay| && replay[i] == c;
        assert if i < k then replay[..k][i] == c else replay[k..][i - k] == c;
      }
    }
  }

  lemma CarriedAt(cs: seq<Chunk>, i: nat, j: nat, q: nat) returns (at: nat)
    requires i <= j <= |cs| && Carries(cs[i..j], q)
    ensures i <= at < j && cs[at].sequence == q && cs[at] in cs
  {
    var c :| c in cs[i..j] && c.sequence == q;
    var x :| 0 <= x < j - i && cs[i..j][x] == c;
    at := i + x;
  }

  lemma SequencesCarry(cs: seq<Chunk>, q: nat)
    ensures q in Sequences(cs) <==> Carries(cs, q)
  {
    if Carries(cs, q) {
      var c :| c in cs && c.sequence == q;
      var i :| 0 <= i < |cs| && cs[i] == c;
      assert Sequences(cs)[i] == q;
    }
  }

  lemma ReplayKeeps(st: State, k: nat, live: bool, maxSize: nat, capacity: nat)
    requires Inv(st, maxSize, capacity) && k <= |Replay(st)| && (live ==> k == |Replay(st)|)
    ensures Inv(ReplayTo(st, k, live), maxSize, capacity)
  {
    var st1 := ReplayTo(st, k, live);
    assert Ascending(st1.received) by {
      ReplayIsSorted(st.history, Highest(st.received));
      PartAscends(st.received, Replay(st)[..k]);
    }
    assert Accounted(st1.received, st1.unheard, st1.lost, st1.counter) by {
      ReplayIsSorted(st.history, Highest(st.received));
      NewerMembers(st.history, Highest(st.received));
      PartAccounts(st.received, st.unheard, st.lost, st.history, st.counter, Replay(st), k);
    }
    RestHolds(st.received, st.unheard, st.history, st.counter, k);
  }

  lemma RestHolds(received: seq<nat>, unheard: seq<Chunk>, history: seq<Chunk>, counter: nat, k: nat)
    requires Holding(history, unheard, Highest(received), counter) && k <= |Newer(history, Highest(received))|
    ensures var replay := Newer(history, Highest(received));
            Holding(history, replay[k..], Highest(received + Sequences(replay[..k])), counter)
  {
    NewerHolds(history, unheard, Highest(received), counter, Newer(history, Highest(received)), k);
    HighestAfter(received, Newer(history, Highest(received))[..k]);
  }

  lemma NewerHolds(history: seq<Chunk>, unheard: seq<Chunk>, highest: nat, counter: nat, replay: seq<Chunk>, k: nat)
    requires Holding(history, unheard, highest, counter) && replay == Newer(history, highest) && k <= |replay|
    ensures Holding(history, replay[k..], if k == 0 then highest else replay[k - 1].sequence, counter)
  {
    ReplayIsSorted(history, highest);
    NewerMembers(history, highest);
    RestIsHeld(history, unheard, highest, counter, replay, k);
  }

  lemma HighestAfter(received: seq<nat>, part: seq<Chunk>)
    ensures Highest(received + Sequences(part))
         == if part == [] then Highest(received) else part[|part| - 1].sequence
  {
    assert part == [] ==> received + Sequences(part) == received;
  }

  lemma PartAccounts(received: seq<nat>, unheard: seq<Chunk>, lost: set<nat>, history: seq<Chunk>, counter: nat,
                     replay: seq<Chunk>, k: nat)
    requires Accounted(received, unheard, lost, counter) && Holding(history, unheard, Highest(received), counter)
    requires k <= |replay| && Sorted(replay)
    requires forall c :: c in replay <==> c in history && c.sequence > Highest(received)
    ensures Accounted(received + Sequences(replay[..k]), replay[k..], lost + Gone(unheard, history), counter)
  {
    forall q: nat
      ensures q in received + Sequences(replay[..k]) <==> q in received || Carries(replay[..k], q)
      ensures Carries(unheard, q) <==>
                Carries(replay[..k], q) || Carries(replay[k..], q) || q in Gone(unheard, history)
      ensures !(Carries(replay[..k], q) && Carries(replay[k..], q))
      ensures q in Gone(unheard, history) ==> !Carries(replay[..k], q) && !Carries(replay[k..], q)
    {
      PartReceived(received, replay[..k], q);
      RestIsAccounted(history, unheard, Highest(received), counter, replay, k, q);
    }
  }

  // ----- every run -----

  lemma {:induction false} RunKeeps(st: State, events: seq<Event>, maxSize: nat, capacity: nat)
    requires Inv(st, maxSize, capacity)
    ensures Inv(Run(st, events, maxSize, capacity), maxSize, capacity)
    decreases |events|
  {
    if events != [] {
      match events[0] {
        case Output(data, kind) => OutputKeeps(st, data, kind, maxSize, capacity);
        case CutOff =>
        case Resume => ReplayKeeps(st, |Replay(st)|, true, maxSize, capacity);
        case Interrupted(got) =>
          ReplayKeeps(st, if got <= |Replay(st)| then got else |Replay(st)|, false, maxSize, capacity);
      }
      RunKeeps(Step(st, events[0], maxSize, capacity), events[1..], maxSize, capacity);
    }
  }

  // ----- why a chunk is lost -----

  /** It alone was too large, or what was accepted from it onward no longer fits. */
  predicate Unholdable(produced: seq<Chunk>, q: nat, maxSize: nat, capacity: nat) {
    1 <= q <= |produced|
    && (Cost(produced[q - 1]) > maxSize || !Fits(Accepted(produced[q - 1..], maxSize), maxSize, capacity))
  }

  /** Chunks are numbered from one, and what is unheard was produced. */
  predicate Numbered(produced: seq<Chunk>, unheard: seq<Chunk>) {
    && (forall i | 0 <= i < |produced| :: produced[i].sequence == i + 1)
    && (forall c <- unheard :: 1 <= c.sequence <= |produced| && produced[c.sequence - 1] == c)
  }

  ghost predicate LossesExplained(st: State, maxSize: nat, capacity: nat) {
    && |st.produced| == st.counter && Numbered(st.produced, st.unheard)
    && forall q <- st.lost :: Unholdable(st.produced, q, maxSize, capacity)
  }

  lemma UnholdableStays(produced: seq<Chunk>, c: Chunk, q: nat, maxSize: nat, capacity: nat)
    requires Unholdable(produced, q, maxSize, capacity)
    ensures Unholdable(produced + [c], q, maxSize, capacity)
  {
    var onward := produced[q - 1..];
    assert (produced + [c])[q - 1..] == onward + [c];
    AcceptedSnoc(onward, c, maxSize);
    TotalCostConcat(Accepted(onward, maxSize), if Cost(c) <= maxSize then [c] else []);
  }

  lemma OutputExplains(st: State, data: Payload, kind: Kind, maxSize: nat, capacity: nat)
    requires LossesExplained(st, maxSize, capacity)
    ensures LossesExplained(Step(st, Output(data, kind), maxSize, capacity), maxSize, capacity)
  {
    var c := Chunk(st.counter + 1, data, kind);
    forall q | q in st.lost
      ensures Unholdable(st.produced + [c], q, maxSize, capacity)
    {
      UnholdableStays(st.produced, c, q, maxSize, capacity);
    }
  }

  lemma RestUnheard(history: seq<Chunk>, unheard: seq<Chunk>, highest: nat, counter: nat, k: nat)
    requires Holding(history, unheard, highest, counter) && k <= |Newer(history, highest)|
    ensures forall c <- Newer(history, highest)[k..] :: c in unheard
  {
    NewerMembers(history, highest);
    forall c | c in Newer(history, highest)[k..]
      ensures c in unheard
    {
      assert c in Newer(history, highest);
    }
  }

  lemma GoneUnholdable(produced: seq<Chunk>, unheard: seq<Chunk>, history: seq<Chunk>, q: nat,
                       maxSize: nat, capacity: nat)
    requires Numbered(produced, unheard) && history == History(produced, maxSize, capacity)
    requires q in Gone(unheard, history)
    ensures Unholdable(produced, q, maxSize, capacity)
  {
    HistoryIsLongestSuffix(produced, maxSize, capacity);
    NotHeldMeansRefusedOrEvicted(produced, q - 1, maxSize, capacity);
  }

  lemma ReplayExplains(st: State, k: nat, live: bool, maxSize: nat, capacity: nat)
    requires Inv(st, maxSize, capacity) && LossesExplained(st, maxSize, capacity) && k <= |Replay(st)|
    ensures LossesExplained(ReplayTo(st, k, live), maxSize, capacity)
  {
    RestUnheard(st.history, st.unheard, Highest(st.received), st.counter, k);
    forall q | q in Gone(st.unheard, st.history)
      ensures Unholdable(st.produced, q, maxSize, capacity)
    {
      GoneUnholdable(st.produced, st.unheard, st.history, q, maxSize, capacity);
    }
  }

  lemma {:induction false} RunExplains(st: State, events: seq<Event>, maxSize: nat, capacity: nat)
    requires Inv(st, maxSize, capacity) && LossesExplained(st, maxSize, capacity)
    ensures LossesExplained(Run(st, events, maxSize, capacity), maxSize, capacity)
    decreases |events|
  {
    if events != [] {
      RunKeeps(st, [events[0]], maxSize, capacity);
      OneStep(st, events[0], maxSize, capacity);
      match events[0] {
        case Output(data, kind) => OutputExplains(st, data, kind, maxSize, capacity);
        case CutOff =>
        case Resume => ReplayExplains(st, |Replay(st)|, true, maxSize, capacity);
        case Interrupted(got) =>
          ReplayExplains(st, if got <= |Replay(st)| then got else |Replay(st)|, false, maxSize, capacity);
      }
      RunExplains(Step(st, events[0], maxSize, capacity), events[1..], maxSize, capacity);
    }
  }

  lemma OneStep(st: State, e: Event, maxSize: nat, capacity: nat)
    ensures Run(st, [e], maxSize, capacity) == Step(st, e, maxSize, capacity)
  {
    assert [e][1..] == [];
  }

  /** Over any run, broken replays included, the client receives sequences in strictly
      increasing order, none twice; and each produced sequence is either received, or still
      unheard and the client cut off, or lost: produced while cut off and no longer held
      when it resumed, because it was too large or too much came after it. */
  lemma DeliveredOnceInOrder(events: seq<Event>, maxSize: nat, capacity: nat)
    ensures var st := Run(Initial(), events, maxSize, capacity);
            && Ascending(st.received)
            && Accounted(st.received, st.unheard, st.lost, st.counter)
            && (st.live ==> forall q | 1 <= q <= st.counter :: (q in st.received) != (q in st.lost))
            && (forall q <- st.lost :: Unholdable(st.produced, q, maxSize, capacity))
            && st.history == Trim(Accepted(st.produced, maxSize), maxSize, capacity)
  {
    RunKeeps(Initial(), events, maxSize, capacity);
    RunExplains(Initial(), events, maxSize, capacity);
    HistoryIsLongestSuffix(Run(Initial(), events, maxSize, capacity).produced, maxSize, capacity);
  }

  /** Why a produced chunk is not held: it alone was too large, or everything accepted
      from it onward no longer fits. */
  lemma NotHeldMeansRefusedOrEvicted(produced: seq<Chunk>, k: nat, maxSize: nat, capacity: nat)
    requires k < |produced| && produced[k] !in Trim(Accepted(produced, maxSize), maxSize, capacity)
    ensures Cost(produced[k]) > maxSize || !Fits(Accepted(produced[k..], maxSize), maxSize, capacity)
  {
    if Cost(produced[k]) <= maxSize {
      AcceptedSplit(produced, k, maxSize);
      var all, tail := Accepted(produced, maxSize), Accepted(produced[k..], maxSize);
      assert tail[0] == produced[k];
      assert all[|all| - |tail|..] == tail;
      if Fits(tail, maxSize, capacity) {
        FittingSuffixIsHeld(all, |all| - |tail|, maxSize, capacity);
      }
    }
  }

  lemma FittingSuffixIsHeld(cs: seq<Chunk>, k: nat, maxSize: nat, capacity: nat)
    requires k < |cs| && Fits(cs[k..], maxSize, capacity)
    ensures cs[k] in Trim(cs, maxSize, capacity)
  {
    TrimIsLongest(cs, maxSize, capacity);
    var t := Trim(cs, maxSize, capacity);
    assert t[k - (|cs| - |t|)] == cs[k];
  }

  lemma AcceptedHead(c: Chunk, a: seq<Chunk>, b: seq<Chunk>, maxSize: nat)
    ensures var head := if Cost(c) <= maxSize then [c] else [];
            head + (Accepted(a, maxSize) + Accepted(b, maxSize)) == (head + Accepted(a, maxSize)) + Accepted(b, maxSize)
  {
  }

  lemma {:induction false} AcceptedSplit(cs: seq<Chunk>, k: nat, maxSize: nat)
    requires k <= |cs|
    ensures Accepted(cs, maxSize) == Accepted(cs[..k], maxSize) + Accepted(cs[k..], maxSize)
    decreases k
  {
    if k == 0 {
      assert cs[0..] == cs;
    } else {
      AcceptedSplit(cs[1..], k - 1, maxSize);
      assert cs[..k][1..] == cs[1..][..k - 1] && cs[1..][k - 1..] == cs[k..];
      assert cs[..k][0] == cs[0];
      AcceptedHead(cs[0], cs[1..][..k - 1], cs[k..], maxSize);
    }
  }
}
