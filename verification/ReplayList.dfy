/** The replay history as a plain list, and what a bounded history of it is. */
module ReplayList {
  import TelnetProtocol

  const CHUNK_OVERHEAD_ESTIMATE: nat := 256

  type Payload = seq<TelnetProtocol.byte>

  datatype Kind = Data | Gmcp(package: Payload) | Echo(suppressed: bool)

  datatype Chunk = Chunk(sequence: nat, data: Payload, kind: Kind)

  function Cost(c: Chunk): nat { |c.data| + CHUNK_OVERHEAD_ESTIMATE }

  function TotalCost(cs: seq<Chunk>): nat {
    if cs == [] then 0 else Cost(cs[0]) + TotalCost(cs[1..])
  }

  predicate Fits(cs: seq<Chunk>, maxSize: nat, capacity: nat) {
    |cs| <= capacity && TotalCost(cs) <= maxSize
  }

  /** The longest suffix that fits. */
  function Trim(cs: seq<Chunk>, maxSize: nat, capacity: nat): seq<Chunk> {
    if cs == [] || Fits(cs, maxSize, capacity) then cs else Trim(cs[1..], maxSize, capacity)
  }

  /** One append: a chunk too large for the whole history is refused, and any other pushes
      out as few of the oldest as will do. */
  function Store(cs: seq<Chunk>, c: Chunk, maxSize: nat, capacity: nat): seq<Chunk> {
    if Cost(c) > maxSize then cs else Trim(cs + [c], maxSize, capacity)
  }

  /** A run of appends, the last one last. */
  function History(log: seq<Chunk>, maxSize: nat, capacity: nat): seq<Chunk> {
    if log == [] then []
    else Store(History(log[..|log| - 1], maxSize, capacity), log[|log| - 1], maxSize, capacity)
  }

  /** The chunks a history of this size does not refuse outright. */
  function Accepted(cs: seq<Chunk>, maxSize: nat): seq<Chunk> {
    if cs == [] then [] else (if Cost(cs[0]) <= maxSize then [cs[0]] else []) + Accepted(cs[1..], maxSize)
  }

  function Newer(cs: seq<Chunk>, sequence: int): seq<Chunk> {
    if cs == [] then []
    else (if cs[0].sequence > sequence then [cs[0]] else []) + Newer(cs[1..], sequence)
  }

  /** Sequence numbers strictly increase along the list. */
  predicate Increasing(cs: seq<Chunk>) {
    |cs| <= 1 || (Increasing(cs[..|cs| - 1]) && cs[|cs| - 2].sequence < cs[|cs| - 1].sequence)
  }

  lemma {:induction false} IncreasingOrder(cs: seq<Chunk>)
    requires Increasing(cs)
    ensures forall i, j | 0 <= i < j < |cs| :: cs[i].sequence < cs[j].sequence
    decreases |cs|
  {
    if |cs| > 1 {
      var shorter := cs[..|cs| - 1];
      IncreasingOrder(shorter);
      assert forall i | 0 <= i < |cs| - 1 :: shorter[i] == cs[i];
    }
  }

  lemma {:induction false} IncreasingTail(cs: seq<Chunk>)
    requires Increasing(cs) && cs != []
    ensures Increasing(cs[1..])
    decreases |cs|
  {
    if |cs| > 2 {
      IncreasingTail(cs[..|cs| - 1]);
      assert cs[1..][..|cs| - 2] == cs[..|cs| - 1][1..];
    }
  }

  lemma IncreasingSnoc(cs: seq<Chunk>, c: Chunk)
    requires Increasing(cs) && (cs != [] ==> cs[|cs| - 1].sequence < c.sequence)
    ensures Increasing(cs + [c])
  {
    assert (cs + [c])[..|cs|] == cs;
  }

  lemma {:induction false} TotalCostConcat(a: seq<Chunk>, b: seq<Chunk>)
    ensures TotalCost(a + b) == TotalCost(a) + TotalCost(b)
    decreases |a|
  {
    if a == [] {
      assert a + b == b;
    } else {
      assert (a + b)[1..] == a[1..] + b;
      TotalCostConcat(a[1..], b);
    }
  }

  lemma TotalCostOne(c: Chunk)
    ensures TotalCost([c]) == Cost(c)
  {
    assert [c] == [c] + [];
    assert TotalCost([c][1..]) == 0;
  }

  /** Trim is the longest fitting suffix: it is a suffix, it fits, and no longer one does. */
  lemma {:induction false} TrimIsLongest(cs: seq<Chunk>, maxSize: nat, capacity: nat)
    ensures var t := Trim(cs, maxSize, capacity);
            && |t| <= |cs| && t == cs[|cs| - |t|..]
            && Fits(t, maxSize, capacity)
            && forall k | 0 <= k < |cs| - |t| :: !Fits(cs[k..], maxSize, capacity)
    decreases |cs|
  {
    if cs != [] && !Fits(cs, maxSize, capacity) {
      TrimIsLongest(cs[1..], maxSize, capacity);
      var t := Trim(cs, maxSize, capacity);
      forall k | 0 <= k < |cs| - |t|
        ensures !Fits(cs[k..], maxSize, capacity)
      {
        if k == 0 {
          assert cs[0..] == cs;
        } else {
          assert cs[1..][k - 1..] == cs[k..];
        }
      }
      assert cs[1..][|cs| - 1 - |t|..] == cs[|cs| - |t|..];
    }
  }

  /** Trimming as you go is trimming once. */
  lemma {:induction false} TrimSnoc(cs: seq<Chunk>, c: Chunk, maxSize: nat, capacity: nat)
    ensures Trim(Trim(cs, maxSize, capacity) + [c], maxSize, capacity) == Trim(cs + [c], maxSize, capacity)
    decreases |cs|
  {
    if cs != [] && !Fits(cs, maxSize, capacity) {
      TotalCostConcat(cs, [c]);
      assert !Fits(cs + [c], maxSize, capacity);
      assert (cs + [c])[1..] == cs[1..] + [c];
      TrimSnoc(cs[1..], c, maxSize, capacity);
    }
  }

  /** What eviction leaves: as few of the oldest dropped as brings the size down ... */
  function FitBySize(cs: seq<Chunk>, cost: nat, maxSize: nat): seq<Chunk> {
    if cs == [] || TotalCost(cs) + cost <= maxSize then cs else FitBySize(cs[1..], cost, maxSize)
  }

  /** ... and one more if every slot is still taken. */
  function RoomFor(cs: seq<Chunk>, cost: nat, maxSize: nat, capacity: nat): seq<Chunk> {
    var fit := FitBySize(cs, cost, maxSize);
    if |fit| == capacity && fit != [] then fit[1..] else fit
  }

  /** Making room and then storing is trimming the longer list. */
  lemma RoomForIsTrim(cs: seq<Chunk>, c: Chunk, maxSize: nat, capacity: nat)
    requires Cost(c) <= maxSize && 0 < capacity && |cs| <= capacity
    ensures var room := RoomFor(cs, Cost(c), maxSize, capacity);
            && room + [c] == Trim(cs + [c], maxSize, capacity)
            && |room| < capacity && SameLast(room, cs)
  {
    FitBySizeTrims(cs, c, maxSize, capacity);
    var fit := FitBySize(cs, Cost(c), maxSize);
    if |fit| == capacity {
      TotalCostConcat(fit, [c]);
      assert (fit + [c])[1..] == fit[1..] + [c];
      TrimDone(fit[1..], c, maxSize, capacity);
    } else {
      TrimDone(fit, c, maxSize, capacity);
    }
  }

  predicate SameLast(part: seq<Chunk>, whole: seq<Chunk>) {
    |part| <= |whole| && (part != [] ==> part[|part| - 1] == whole[|whole| - 1])
  }

  lemma TrimDone(cs: seq<Chunk>, c: Chunk, maxSize: nat, capacity: nat)
    requires TotalCost(cs) + Cost(c) <= maxSize && |cs| < capacity
    ensures Trim(cs + [c], maxSize, capacity) == cs + [c]
  {
    TotalCostConcat(cs, [c]);
    TotalCostOne(c);
  }

  lemma {:induction false} FitBySizeTrims(cs: seq<Chunk>, c: Chunk, maxSize: nat, capacity: nat)
    requires Cost(c) <= maxSize
    ensures var fit := FitBySize(cs, Cost(c), maxSize);
            && Trim(cs + [c], maxSize, capacity) == Trim(fit + [c], maxSize, capacity)
            && TotalCost(fit) + Cost(c) <= maxSize && SameLast(fit, cs)
    decreases |cs|
  {
    TotalCostConcat(cs, [c]);
    TotalCostOne(c);
    if cs != [] && TotalCost(cs) + Cost(c) > maxSize {
      assert (cs + [c])[1..] == cs[1..] + [c];
      FitBySizeTrims(cs[1..], c, maxSize, capacity);
    }
  }

  lemma {:induction false} AcceptedSnoc(cs: seq<Chunk>, c: Chunk, maxSize: nat)
    ensures Accepted(cs + [c], maxSize) == Accepted(cs, maxSize) + if Cost(c) <= maxSize then [c] else []
    decreases |cs|
  {
    if cs == [] {
      assert [] + [c] == [c] && Accepted([c][1..], maxSize) == [];
    } else {
      assert (cs + [c])[1..] == cs[1..] + [c];
      AcceptedSnoc(cs[1..], c, maxSize);
    }
  }

  /** After any run of appends the history is the longest suffix of the chunks not
      refused that fits both the size and the number of slots. */
  lemma {:induction false} HistoryIsLongestSuffix(log: seq<Chunk>, maxSize: nat, capacity: nat)
    ensures History(log, maxSize, capacity) == Trim(Accepted(log, maxSize), maxSize, capacity)
    decreases |log|
  {
    if log != [] {
      var before, c := log[..|log| - 1], log[|log| - 1];
      HistoryIsLongestSuffix(before, maxSize, capacity);
      assert before + [c] == log;
      AcceptedSnoc(before, c, maxSize);
      TrimSnoc(Accepted(before, maxSize), c, maxSize, capacity);
      assert Accepted(before, maxSize) + [] == Accepted(before, maxSize);
    }
  }

  /** In an increasing list, "newer than" is a suffix. */
  lemma {:induction false} NewerIsSuffix(cs: seq<Chunk>, sequence: int, k: nat)
    requires k <= |cs|
    requires forall i | 0 <= i < k :: cs[i].sequence <= sequence
    requires forall i | k <= i < |cs| :: cs[i].sequence > sequence
    ensures Newer(cs, sequence) == cs[k..]
    decreases |cs|
  {
    if cs != [] {
      NewerIsSuffix(cs[1..], sequence, if k == 0 then 0 else k - 1);
      if k == 0 {
        assert cs[0..] == [cs[0]] + cs[1..];
      } else {
        assert cs[1..][k - 1..] == cs[k..];
      }
    }
  }

  /** ... and it starts right after the chunk with this sequence, when there is one. */
  lemma NewerAfterHit(cs: seq<Chunk>, sequence: int, at: nat)
    requires Increasing(cs) && at < |cs| && cs[at].sequence == sequence
    ensures Newer(cs, sequence) == cs[at + 1..]
  {
    IncreasingOrder(cs);
    NewerIsSuffix(cs, sequence, at + 1);
  }

  lemma NewerAfterScan(cs: seq<Chunk>, sequence: int, at: nat)
    requires Increasing(cs) && at <= |cs| && (at < |cs| ==> cs[at].sequence > sequence)
    requires forall i | 0 <= i < at :: cs[i].sequence <= sequence
    ensures Newer(cs, sequence) == cs[at..]
  {
    IncreasingOrder(cs);
    NewerIsSuffix(cs, sequence, at);
  }
}
