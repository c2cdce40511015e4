/** The replay buffer: a ring of slots with a sequence index, both updated in place. */
module CircularBuffers {
  import opened Wrappers
  import opened ReplayList

  /** The slot of the i-th oldest element of a ring that starts at head. */
  function Slot(capacity: nat, head: nat, i: nat): nat {
    if head + i < capacity then head + i else head + i - capacity
  }

  /** Reading the ring from head gives these elements. */
  ghost predicate RingHolds<T>(slots: seq<Option<T>>, head: nat, xs: seq<T>) {
    && head < |slots| && |xs| <= |slots|
    && forall i | 0 <= i < |xs| :: slots[Slot(|slots|, head, i)] == Some(xs[i])
  }

  lemma RingAfterEviction<T>(slots: seq<Option<T>>, head: nat, xs: seq<T>)
    requires RingHolds(slots, head, xs) && |xs| > 0
    ensures RingHolds(slots[head := None], Slot(|slots|, head, 1), xs[1..])
  {
    forall i | 0 <= i < |xs| - 1
      ensures slots[head := None][Slot(|slots|, Slot(|slots|, head, 1), i)] == Some(xs[1..][i])
    {
      assert Slot(|slots|, Slot(|slots|, head, 1), i) == Slot(|slots|, head, i + 1) != head;
    }
  }

  lemma RingAfterStore<T>(slots: seq<Option<T>>, head: nat, xs: seq<T>, x: T)
    requires RingHolds(slots, head, xs) && |xs| < |slots|
    ensures RingHolds(slots[Slot(|slots|, head, |xs|) := Some(x)], head, xs + [x])
  {
  }

  /** The index these chunks need: each sequence to its slot, and nothing else. */
  function IndexOf(cs: seq<Chunk>, capacity: nat, head: nat): map<int, nat> {
    if cs == [] then map[]
    else
      var last := |cs| - 1;
      IndexOf(cs[..last], capacity, head)[cs[last].sequence := Slot(capacity, head, last)]
  }

  /** A sequence in the index is carried by a chunk, and leads to its slot. */
  lemma {:induction false} IndexHit(cs: seq<Chunk>, capacity: nat, head: nat, s: int) returns (at: nat)
    requires Increasing(cs) && s in IndexOf(cs, capacity, head)
    ensures at < |cs| && cs[at].sequence == s && IndexOf(cs, capacity, head)[s] == Slot(capacity, head, at)
    decreases |cs|
  {
    at := |cs| - 1;
    if cs[at].sequence != s {
      at := IndexHit(cs[..at], capacity, head, s);
    }
  }

  lemma {:induction false} IndexMiss(cs: seq<Chunk>, capacity: nat, head: nat, s: int)
    requires s !in IndexOf(cs, capacity, head)
    ensures forall i | 0 <= i < |cs| :: cs[i].sequence != s
    decreases |cs|
  {
    if cs != [] {
      var shorter := cs[..|cs| - 1];
      IndexMiss(shorter, capacity, head, s);
      assert forall i | 0 <= i < |cs| - 1 :: shorter[i] == cs[i];
    }
  }

  lemma IndexAfterStore(cs: seq<Chunk>, capacity: nat, head: nat, c: Chunk)
    ensures IndexOf(cs + [c], capacity, head) == IndexOf(cs, capacity, head)[c.sequence := Slot(capacity, head, |cs|)]
  {
    assert (cs + [c])[..|cs|] == cs;
  }

  lemma {:induction false} IndexAfterEviction(cs: seq<Chunk>, capacity: nat, head: nat)
    requires head < capacity && 0 < |cs| <= capacity && Increasing(cs)
    ensures IndexOf(cs, capacity, head) - {cs[0].sequence} == IndexOf(cs[1..], capacity, Slot(capacity, head, 1))
    decreases |cs|
  {
    var last := |cs| - 1;
    var shorter := cs[..last];
    if last == 0 {
      assert IndexOf(shorter, capacity, head) == map[];
    } else {
      IncreasingOrder(cs);
      IndexAfterEviction(shorter, capacity, head);
      assert shorter[0] == cs[0] && cs[0].sequence < cs[last].sequence;
      assert cs[1..][..last - 1] == shorter[1..];
      assert Slot(capacity, Slot(capacity, head, 1), last - 1) == Slot(capacity, head, last);
    }
  }

  /** The fields of a ring, as values. */
  datatype Fields = Fields(slots: seq<Option<Chunk>>, head: nat, tail: nat, count: nat, size: int, index: map<int, nat>)

  /** A ring with these fields holds these chunks, oldest first. */
  ghost predicate Represents(f: Fields, cs: seq<Chunk>) {
    && RingHolds(f.slots, f.head, cs)
    && f.count == |cs|
    && f.tail == (if f.count == |f.slots| then f.head else Slot(|f.slots|, f.head, f.count))
    && f.size == TotalCost(cs)
    && Increasing(cs)
    && f.index == IndexOf(cs, |f.slots|, f.head)
  }

  function EvictFields(f: Fields, oldest: Chunk): Fields
    requires f.head < |f.slots| && f.count > 0
  {
    Fields(f.slots[f.head := None], Slot(|f.slots|, f.head, 1), f.tail, f.count - 1,
           f.size - Cost(oldest), f.index - {oldest.sequence})
  }

  function StoreFields(f: Fields, c: Chunk): Fields
    requires f.tail < |f.slots|
  {
    Fields(f.slots[f.tail := Some(c)], f.head, Slot(|f.slots|, f.tail, 1), f.count + 1,
           f.size + Cost(c), f.index[c.sequence := f.tail])
  }

  lemma EvictionRepresents(f: Fields, cs: seq<Chunk>)
    requires Represents(f, cs) && |cs| > 0
    ensures f.slots[f.head] == Some(cs[0])
    ensures Represents(EvictFields(f, cs[0]), cs[1..])
  {
    IndexAfterEviction(cs, |f.slots|, f.head);
    RingAfterEviction(f.slots, f.head, cs);
    IncreasingTail(cs);
    assert Slot(|f.slots|, f.head, 0) == f.head;
  }

  lemma StoreRepresents(f: Fields, cs: seq<Chunk>, c: Chunk)
    requires Represents(f, cs) && |cs| < |f.slots| && (|cs| > 0 ==> cs[|cs| - 1].sequence < c.sequence)
    ensures f.tail < |f.slots| && Represents(StoreFields(f, c), cs + [c])
  {
    IndexAfterStore(cs, |f.slots|, f.head, c);
    TotalCostConcat(cs, [c]);
    TotalCostOne(c);
    RingAfterStore(f.slots, f.head, cs, c);
    IncreasingSnoc(cs, c);
  }

  class CircularBuffer {
    var chunks: array<Option<Chunk>>
    var head: nat
    var tail: nat
    var count: nat
    var currentSize: int
    var sequenceCounter: nat
    var sequenceIndex: map<int, nat>
    const maxSize: nat
    const capacity: nat
    ghost var contents: seq<Chunk>   // what the ring holds, oldest first

    ghost function View(): Fields
      reads `chunks, `head, `tail, `count, `currentSize, `sequenceIndex, chunks
    {
      Fields(chunks[..], head, tail, count, currentSize, sequenceIndex)
    }

    ghost predicate Valid()
      reads `chunks, `head, `tail, `count, `currentSize, `sequenceIndex, `sequenceCounter, `contents, chunks
    {
      && chunks.Length == capacity && Represents(View(), contents)
      && (contents != [] ==> contents[|contents| - 1].sequence <= sequenceCounter)
    }

    constructor (maxSizeBytes: nat, initialCapacity: nat)
      requires initialCapacity > 0
      ensures Valid() && contents == [] && sequenceCounter == 0
      ensures maxSize == maxSizeBytes && capacity == initialCapacity && fresh(chunks)
    {
      maxSize, capacity := maxSizeBytes, initialCapacity;
      chunks := new Option<Chunk>[initialCapacity](_ => None);
      head, tail, count, currentSize, sequenceCounter := 0, 0, 0, 0, 0;
      sequenceIndex := map[];
      contents := [];
    }

    method Append(data: Payload, kind: Kind) returns (chunk: Chunk)
      requires Valid()
      modifies this, chunks
      ensures Valid() && chunks == old(chunks)
      ensures chunk == Chunk(old(sequenceCounter) + 1, data, kind) && sequenceCounter == old(sequenceCounter) + 1
      ensures contents == Store(old(contents), chunk, maxSize, capacity)
    {
      sequenceCounter := sequenceCounter + 1;
      chunk := Chunk(sequenceCounter, data, kind);
      var chunkSize := |data| + CHUNK_OVERHEAD_ESTIMATE;
      if chunkSize > maxSize {
        return;
      }
      RoomForIsTrim(contents, chunk, maxSize, capacity);
      Place(chunk, chunkSize);
    }

    method Place(chunk: Chunk, chunkSize: nat)
      requires Valid() && chunk.sequence == sequenceCounter
      requires |RoomFor(contents, chunkSize, maxSize, capacity)| < capacity
      requires SameLast(RoomFor(contents, chunkSize, maxSize, capacity), contents)
      requires contents != [] ==> contents[|contents| - 1].sequence < chunk.sequence
      modifies this`head, this`tail, this`count, this`currentSize, this`sequenceIndex, this`contents, chunks
      ensures Valid() && contents == RoomFor(old(contents), chunkSize, maxSize, capacity) + [chunk]
    {
      MakeRoom(chunkSize);
      StoreNewest(chunk);
    }

    /** Evict the oldest chunks until the new one fits, first by size, then by slots.  When
        every slot is taken the evicted one is also the tail, so the new chunk lands in it
        whether or not it is emptied first. */
    method MakeRoom(chunkSize: nat)
      requires Valid()
      modifies this`head, this`count, this`currentSize, this`sequenceIndex, this`contents, chunks
      ensures Valid() && contents == RoomFor(old(contents), chunkSize, maxSize, capacity)
    {
      while currentSize + chunkSize > maxSize && count > 0
        invariant Valid()
        invariant FitBySize(contents, chunkSize, maxSize) == FitBySize(old(contents), chunkSize, maxSize)
        decreases count
      {
        EvictOldest();
      }
      if count == capacity {
        EvictOldest();
      }
    }

    method At(i: nat) returns (chunk: Chunk)
      requires RingHolds(chunks[..], head, contents) && i < |contents| && capacity == chunks.Length
      ensures chunk == contents[i]
    {
      var idx := Wrap(head + i, capacity);
      assert chunks[..][Slot(capacity, head, i)] == Some(contents[i]);
      chunk := chunks[idx].value;
    }

    method EvictOldest()
      requires Valid() && count > 0
      modifies this`head, this`count, this`currentSize, this`sequenceIndex, this`contents, chunks
      ensures Valid() && contents == old(contents)[1..]
    {
      EvictionRepresents(View(), contents);
      TakeOldest(contents[0]);
      contents := contents[1..];
    }

    method TakeOldest(ghost expected: Chunk)
      requires head < chunks.Length == capacity && count > 0 && chunks[..][head] == Some(expected)
      modifies this`head, this`count, this`currentSize, this`sequenceIndex, chunks
      ensures View() == EvictFields(old(View()), expected)
    {
      ghost var slots := chunks[..];
      var oldest := chunks[head].value;
      currentSize := currentSize - (|oldest.data| + CHUNK_OVERHEAD_ESTIMATE);
      sequenceIndex := sequenceIndex - {oldest.sequence};
      chunks[head] := None;
      assert chunks[..] == slots[head := None];
      head := Wrap(head + 1, capacity);
      count := count - 1;
    }

    method StoreNewest(chunk: Chunk)
      requires Valid() && count < capacity
      requires chunk.sequence == sequenceCounter
      requires contents != [] ==> contents[|contents| - 1].sequence < chunk.sequence
      modifies this`tail, this`count, this`currentSize, this`sequenceIndex, this`contents, chunks
      ensures Valid() && contents == old(contents) + [chunk]
    {
      StoreRepresents(View(), contents, chunk);
      PutNewest(chunk);
      contents := contents + [chunk];
    }

    method PutNewest(chunk: Chunk)
      requires tail < chunks.Length == capacity
      modifies this`tail, this`count, this`currentSize, this`sequenceIndex, chunks
      ensures View() == StoreFields(old(View()), chunk)
    {
      ghost var slots := chunks[..];
      chunks[tail] := Some(chunk);
      assert chunks[..] == slots[tail := Some(chunk)];
      sequenceIndex := sequenceIndex[chunk.sequence := tail];
      tail := Wrap(tail + 1, capacity);
      count := count + 1;
      currentSize := currentSize + (|chunk.data| + CHUNK_OVERHEAD_ESTIMATE);
    }

    /** Everything strictly after what the client has, by index or by scan. */
    method ReplayAfter(sequence: int) returns (result: seq<Chunk>)
      requires Valid()
      ensures result == Newer(contents, sequence)
    {
      var startOffset := FirstAfter(sequence);
      result := CopyFrom(startOffset);
    }

    method CopyFrom(startOffset: nat) returns (result: seq<Chunk>)
      requires capacity == chunks.Length && count == |contents| && RingHolds(chunks[..], head, contents)
      requires startOffset <= count
      ensures result == contents[startOffset..]
    {
      result := [];
      for i := startOffset to count
        invariant result == contents[startOffset..i]
      {
        var chunk := At(i);
        result := result + [chunk];
      }
    }

    /** Where the chunks newer than this sequence start. */
    method FirstAfter(sequence: int) returns (startOffset: nat)
      requires Valid()
      ensures startOffset <= count && Newer(contents, sequence) == contents[startOffset..]
    {
      if count == 0 {
        return 0;
      }
      if sequence in sequenceIndex {
        var arrayIdx := sequenceIndex[sequence];
        ghost var at := IndexHit(contents, capacity, head, sequence);
        startOffset := Wrap(arrayIdx - head + capacity, capacity);
        startOffset := startOffset + 1;
        NewerAfterHit(contents, sequence, at);
      } else {
        IndexMiss(contents, capacity, head, sequence);
        startOffset := Scan(sequence);
      }
    }

    /** The slow path: the sequence was evicted or never stored. */
    method Scan(sequence: int) returns (startOffset: nat)
      requires Valid() && forall i | 0 <= i < |contents| :: contents[i].sequence != sequence
      ensures startOffset <= count && Newer(contents, sequence) == contents[startOffset..]
    {
      startOffset := 0;
      while startOffset < count
        invariant startOffset <= count
        invariant forall j | 0 <= j < startOffset :: contents[j].sequence < sequence
      {
        var chunk := At(startOffset);
        if chunk.sequence > sequence {
          break;
        }
        startOffset := startOffset + 1;
      }
      NewerAfterScan(contents, sequence, startOffset);
    }

    method Clear()
      requires Valid()
      modifies this
      ensures Valid() && contents == [] && sequenceCounter == old(sequenceCounter)
      ensures fresh(chunks)
    {
      chunks := new Option<Chunk>[capacity](_ => None);
      head, tail, count, currentSize := 0, 0, 0, 0;
      sequenceIndex := map[];
      contents := [];
    }
  }

  method Wrap(x: nat, m: nat) returns (r: nat)
    requires x < 2 * m
    ensures r == if x < m then x else x - m
  {
    r := x % m;
  }
}
