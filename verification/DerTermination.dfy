/** When the search for a nonce ends, and when it goes on for ever. */
module DerTermination {
  import opened DerSearch

  /** A cursor and the end of the frame it moves in. */
  datatype Place = Place(at: int, end: int)

  function FindFrom(read: Reader, p: Place, bound: nat): Search { Find(read, p.at, p.end, bound) }

  predicate Reads(read: Reader, p: Place) { p.at < p.end && read(p.at).Ok? }

  function Inside(read: Reader, p: Place): Place
    requires Reads(read, p)
  {
    Place(read(p.at).value.valueStart, read(p.at).value.valueEnd)
  }

  function Behind(read: Reader, p: Place): Place
    requires Reads(read, p)
  {
    Place(read(p.at).value.valueEnd, p.end)
  }

  /** The search gets from p to q in one step: into a constructed element, or past an
      element that has been looked through in vain. */
  ghost predicate Leads(read: Reader, p: Place, q: Place) {
    && Reads(read, p) && Here(read(p.at).value) == Nothing
    && if IsConstructed(read(p.at).value.tag)
       then q == Inside(read, p)
            || (q == Behind(read, p) && exists b: nat :: FindFrom(read, Inside(read, p), b) == Nothing)
       else q == Behind(read, p)
  }

  ghost predicate Path(read: Reader, ps: seq<Place>) {
    forall i | 0 < i < |ps| :: Leads(read, ps[i - 1], ps[i])
  }

  ghost predicate PathFrom(read: Reader, start: int, end: int, ps: seq<Place>) {
    ps != [] && ps[0] == Place(start, end) && Path(read, ps)
  }

  predicate Repeats(ps: seq<Place>) { exists i, j | 0 <= i < j < |ps| :: ps[i] == ps[j] }

  /** Some frame is entered again from itself, with its cursor where it was. */
  ghost predicate ComesBack(read: Reader, start: int, end: int) {
    exists ps :: PathFrom(read, start, end, ps) && Repeats(ps)
  }

  // ----- coming back is never ending -----

  /** More room does not change a finished search. */
  lemma {:induction false} Settled(read: Reader, p: Place, less: nat, more: nat)
    requires less <= more && FindFrom(read, p, less) != Unfinished
    ensures FindFrom(read, p, more) == FindFrom(read, p, less)
    decreases less
  {
    if Reads(read, p) {
      if IsConstructed(read(p.at).value.tag) {
        Settled(read, Inside(read, p), less - 1, more - 1);
        if FindFrom(read, Inside(read, p), less - 1) == Nothing {
          Settled(read, Behind(read, p), less - 1, more - 1);
        }
      } else if Here(read(p.at).value) == Nothing {
        Settled(read, Behind(read, p), less - 1, more - 1);
      }
    }
  }

  lemma SameWhenSettled(read: Reader, p: Place, a: nat, b: nat)
    requires FindFrom(read, p, a) != Unfinished && FindFrom(read, p, b) != Unfinished
    ensures FindFrom(read, p, a) == FindFrom(read, p, b)
  {
    if a <= b {
      Settled(read, p, a, b);
    } else {
      Settled(read, p, b, a);
    }
  }

  /** A finished search has finished the next step with less room. */
  lemma StepFinishes(read: Reader, p: Place, q: Place, bound: nat)
    requires Leads(read, p, q) && FindFrom(read, p, bound) != Unfinished
    ensures bound > 0 && FindFrom(read, q, bound - 1) != Unfinished
  {
    if IsConstructed(read(p.at).value.tag) && q != Inside(read, p) {
      var b: nat :| FindFrom(read, Inside(read, p), b) == Nothing;
      SameWhenSettled(read, Inside(read, p), b, bound - 1);
    }
  }

  lemma {:induction false} PathFinishes(read: Reader, ps: seq<Place>, i: nat, bound: nat)
    requires Path(read, ps) && i < |ps| && FindFrom(read, ps[0], bound) != Unfinished
    ensures i <= bound && FindFrom(read, ps[i], bound - i) != Unfinished
    decreases i
  {
    if i > 0 {
      PathFinishes(read, ps, i - 1, bound);
      StepFinishes(read, ps[i - 1], ps[i], bound - (i - 1));
    }
  }

  lemma {:induction false} CycleNeverEnds(read: Reader, ps: seq<Place>, bound: nat)
    requires Path(read, ps) && |ps| >= 2 && ps[0] == ps[|ps| - 1]
    ensures FindFrom(read, ps[0], bound) == Unfinished
    decreases bound
  {
    if FindFrom(read, ps[0], bound) != Unfinished {
      PathFinishes(read, ps, |ps| - 1, bound);
      CycleNeverEnds(read, ps, bound - (|ps| - 1));
    }
  }

  lemma ComesBackNeverEnds(read: Reader, start: int, end: int, bound: nat)
    requires ComesBack(read, start, end)
    ensures Find(read, start, end, bound) == Unfinished
  {
    var ps :| PathFrom(read, start, end, ps) && Repeats(ps);
    var i, j :| 0 <= i < j < |ps| && ps[i] == ps[j];
    if Find(read, start, end, bound) != Unfinished {
      PathFinishes(read, ps, i, bound);
      CycleNeverEnds(read, ps[i..j + 1], bound - i);
    }
  }

  // ----- never ending is coming back -----

  /** A search that runs out of room has gone as many steps. */
  lemma {:induction false} UnfinishedPath(read: Reader, p: Place, bound: nat) returns (ps: seq<Place>)
    requires FindFrom(read, p, bound) == Unfinished
    ensures PathFrom(read, p.at, p.end, ps) && |ps| == bound + 1
    decreases bound
  {
    if bound == 0 {
      return [p];
    }
    var q := Behind(read, p);
    if IsConstructed(read(p.at).value.tag) && FindFrom(read, Inside(read, p), bound - 1) == Unfinished {
      q := Inside(read, p);
    }
    var rest := UnfinishedPath(read, q, bound - 1);
    return [p] + rest;
  }

  /** Elements are read only inside a buffer of this size. */
  ghost predicate Within(read: Reader, size: nat) {
    forall at :: read(at).Ok? ==> 0 <= at < size
  }

  /** The places of a search with their cursor at one offset: the frame ends where the
      whole search does or where some element does. */
  function PlacesAt(read: Reader, size: nat, end: int, at: int): (ps: set<Place>)
    ensures |ps| <= size + 1 && Place(at, end) in ps
    ensures forall c | 0 <= c < size && read(c).Ok? :: Place(at, read(c).value.valueEnd) in ps
  {
    if size == 0 then {Place(at, end)}
    else
      PlacesAt(read, size - 1, end, at)
      + if read(size - 1).Ok? then {Place(at, read(size - 1).value.valueEnd)} else {}
  }

  /** Those with their cursor at one of the first offsets. */
  function Places(read: Reader, size: nat, end: int, offsets: nat): (ps: set<Place>)
    ensures |ps| <= Times(offsets, size + 1)
    ensures forall at | 0 <= at < offsets :: PlacesAt(read, size, end, at) <= ps
  {
    if offsets == 0 then {}
    else Places(read, size, end, offsets - 1) + PlacesAt(read, size, end, offsets - 1)
  }

  function Times(rows: nat, n: nat): nat {
    if rows == 0 then 0 else Times(rows - 1, n) + n
  }

  lemma {:induction false} TimesIsProduct(rows: nat, n: nat)
    ensures Times(rows, n) == rows * n
    decreases rows
  {
    if rows > 0 {
      TimesIsProduct(rows - 1, n);
      assert rows * n == (rows - 1) * n + n;
    }
  }

  /** More steps than places: one comes twice. */
  lemma {:induction false} Pigeonhole(ps: seq<Place>, places: set<Place>)
    requires (forall p <- ps :: p in places) && |ps| > |places|
    ensures Repeats(ps)
    decreases |ps|
  {
    var k := |ps| - 1;
    var last := ps[k];
    if last in ps[..k] {
      var i :| 0 <= i < k && ps[..k][i] == last;
      assert ps[i] == ps[k];
    } else {
      assert forall p <- ps[..k] :: p in ps && p != last;
      Pigeonhole(ps[..k], places - {last});
      var i, j :| 0 <= i < j < k && ps[..k][i] == ps[..k][j];
      assert ps[i] == ps[j];
    }
  }

  lemma {:induction false} PathStaysWithin(read: Reader, size: nat, start: int, end: int, ps: seq<Place>, i: nat)
    requires Within(read, size) && PathFrom(read, start, end, ps) && i < |ps| - 1
    ensures ps[i] in Places(read, size, end, size)
    ensures ps[i].end == end || exists c | 0 <= c < size && read(c).Ok? :: ps[i].end == read(c).value.valueEnd
    decreases i
  {
    assert Leads(read, ps[i], ps[i + 1]);
    if i > 0 {
      PathStaysWithin(read, size, start, end, ps, i - 1);
      assert Leads(read, ps[i - 1], ps[i]);
    }
    assert PlacesAt(read, size, end, ps[i].at) <= Places(read, size, end, size);
    assert ps[i] == Place(ps[i].at, ps[i].end);
  }

  lemma LongPathRepeats(read: Reader, size: nat, start: int, end: int, ps: seq<Place>)
    requires Within(read, size) && PathFrom(read, start, end, ps) && |ps| - 1 > Times(size, size + 1)
    ensures Repeats(ps)
  {
    var places := Places(read, size, end, size);
    var entered := ps[..|ps| - 1];
    forall p | p in entered
      ensures p in places
    {
      var i :| 0 <= i < |entered| && entered[i] == p;
      PathStaysWithin(read, size, start, end, ps, i);
    }
    Pigeonhole(entered, places);
    var i, j :| 0 <= i < j < |entered| && entered[i] == entered[j];
    assert ps[i] == ps[j];
  }

  lemma UnfinishedComesBack(read: Reader, size: nat, start: int, end: int)
    requires Within(read, size) && Find(read, start, end, Enough(size)) == Unfinished
    ensures ComesBack(read, start, end)
  {
    var ps := UnfinishedPath(read, Place(start, end), Enough(size));
    TimesIsProduct(size, size + 1);
    LongPathRepeats(read, size, start, end, ps);
  }

  lemma ReadsWithin(buf: Bytes)
    ensures Within(ReaderOf(buf), |buf|)
  {
  }

  ghost predicate NeverEnds(read: Reader, start: int, end: int) {
    forall bound: nat :: Find(read, start, end, bound) == Unfinished
  }

  lemma NeverEndsAt(read: Reader, start: int, end: int, bound: nat)
    requires NeverEnds(read, start, end)
    ensures Find(read, start, end, bound) == Unfinished
  {
  }

  lemma ReaderEndsExactly(read: Reader, size: nat, start: int, end: int)
    requires Within(read, size)
    ensures NeverEnds(read, start, end) <==> ComesBack(read, start, end)
    ensures Find(read, start, end, Enough(size)) == Unfinished <==> ComesBack(read, start, end)
  {
    if ComesBack(read, start, end) {
      forall bound: nat
        ensures Find(read, start, end, bound) == Unfinished
      {
        ComesBackNeverEnds(read, start, end, bound);
      }
    } else {
      if NeverEnds(read, start, end) {
        NeverEndsAt(read, start, end, Enough(size));
      }
      if Find(read, start, end, Enough(size)) == Unfinished {
        UnfinishedComesBack(read, size, start, end);
      }
    }
  }

  /** The search goes on for ever exactly when some frame is entered again from itself,
      and the bound of the model is reached exactly then. */
  lemma EndsExactly(buf: Bytes, start: int, end: int)
    ensures NeverEnds(ReaderOf(buf), start, end) <==> ComesBack(ReaderOf(buf), start, end)
    ensures Find(ReaderOf(buf), start, end, Enough(|buf|)) == Unfinished <==> ComesBack(ReaderOf(buf), start, end)
  {
    ReadsWithin(buf);
    ReaderEndsExactly(ReaderOf(buf), |buf|, start, end);
  }

  /** So it is for a whole certificate: the nonce search fails to end exactly when the
      extension is read and the search of its octets comes back. */
  lemma ExtractEndsExactly(cert: Bytes)
    ensures Extract(cert) == Unfinished
       <==> ExtensionValue(cert).Ok?
            && ComesBack(ReaderOf(ExtensionValue(cert).value), 0, |ExtensionValue(cert).value|)
    ensures ExtensionValue(cert).Ok? ==>
              var value := ExtensionValue(cert).value;
              (NeverEnds(ReaderOf(value), 0, |value|) <==> ComesBack(ReaderOf(value), 0, |value|))
  {
    if ExtensionValue(cert).Ok? {
      EndsExactly(ExtensionValue(cert).value, 0, |ExtensionValue(cert).value|);
    }
  }

  // ----- the search itself, without a bound in its contract -----

  /** The answer of a search that ends. */
  ghost predicate Returns(read: Reader, start: int, end: int, search: Search) {
    search != Unfinished && exists bound: nat :: Find(read, start, end, bound) == search
  }

  /** What the cursor loop returns; Unfinished stands for never returning. */
  method FindNonceOctet(buf: Bytes, start: int, end: int) returns (search: Search)
    ensures search == Find(ReaderOf(buf), start, end, Enough(|buf|))
    ensures if search == Unfinished then NeverEnds(ReaderOf(buf), start, end)
            else Returns(ReaderOf(buf), start, end, search)
  {
    EndsExactly(buf, start, end);
    search := FindWithin(ReaderOf(buf), start, end, Enough(|buf|));
  }

  method ExtractNonceFromCert(cert: Bytes) returns (search: Search)
    ensures search == Extract(cert)
    ensures search == Unfinished
       <==> ExtensionValue(cert).Ok?
            && NeverEnds(ReaderOf(ExtensionValue(cert).value), 0, |ExtensionValue(cert).value|)
  {
    ExtractEndsExactly(cert);
    var oidIdx := IndexOf(cert, APPLE_NONCE_OID, 0);
    if oidIdx == -1 {
      return Broken(OidNotFound);
    }
    var pos: int := oidIdx + |APPLE_NONCE_OID|;
    if pos < |cert| && cert[pos] == BOOLEAN {
      var critical := ReadTagged(cert, pos, BOOLEAN);
      if critical.Failed? {
        return Broken(critical.error);
      }
      pos := critical.value.valueEnd;
    }
    var ext := ReadTagged(cert, pos, OCTET_STRING);
    if ext.Failed? {
      return Broken(ext.error);
    }
    search := FindNonceOctet(ext.value.value, 0, |ext.value.value|);
    if search == Nothing {
      search := Broken(NonceNotFound);
    }
  }

  // ----- elements that do not lead back -----

  /** No element the search reads ends inside the buffer at or before its own start. */
  ghost predicate Onward(read: Reader, start: int, end: int) {
    forall ps | PathFrom(read, start, end, ps) :: EndsAhead(read, ps[|ps| - 1])
  }

  predicate EndsAhead(read: Reader, p: Place) {
    Reads(read, p) ==> read(p.at).value.valueEnd > p.at || read(p.at).value.valueEnd < 0
  }

  /** Values start after their elements. */
  ghost predicate HeadersAhead(read: Reader) {
    forall at :: read(at).Ok? ==> read(at).value.valueStart > at
  }

  lemma {:induction false} OnwardAdvances(read: Reader, size: nat, start: int, end: int, ps: seq<Place>, i: nat)
    requires Within(read, size) && HeadersAhead(read) && Onward(read, start, end)
    requires PathFrom(read, start, end, ps) && i < |ps| - 1
    ensures i <= ps[i].at < size
    decreases i
  {
    assert Leads(read, ps[i], ps[i + 1]);
    if i > 0 {
      OnwardAdvances(read, size, start, end, ps, i - 1);
      assert Leads(read, ps[i - 1], ps[i]);
      assert PathFrom(read, start, end, ps[..i]) && ps[..i][i - 1] == ps[i - 1];
      assert EndsAhead(read, ps[i - 1]);
    }
  }

  /** If no element leads back, the search ends within the length of the buffer. */
  lemma SearchEnds(buf: Bytes, start: int, end: int, bound: nat)
    requires Onward(ReaderOf(buf), start, end) && bound > |buf|
    ensures Find(ReaderOf(buf), start, end, bound) != Unfinished
  {
    if Find(ReaderOf(buf), start, end, bound) == Unfinished {
      var ps := UnfinishedPath(ReaderOf(buf), Place(start, end), bound);
      ReadsWithin(buf);
      OnwardAdvances(ReaderOf(buf), |buf|, start, end, ps, |buf|);
    }
  }

  // ----- an input on which it comes back -----

  /** An element whose length is minus its own header: the cursor comes back to it. */
  const LOOP: Bytes := [0x04, 0x84, 0xff, 0xff, 0xff, 0xfa]

  lemma LoopReads()
    ensures ReadTlv(LOOP, 0) == Ok(Tlv(OCTET_STRING, 6, 0, []))
  {
    var bytes := LOOP[2..6];
    assert bytes == [0xff, 0xff, 0xff, 0xfa];
    assert bytes[..3] == [0xff, 0xff, 0xff] && bytes[..3][..2] == [0xff, 0xff] && bytes[..3][..2][..1] == [0xff];
    assert [0xff][..0] == [];
    assert Accumulate([0xff]) == 0xff;
    assert Accumulate([0xff, 0xff]) == 0xffff;
    assert Accumulate([0xff, 0xff, 0xff]) == 0xff_ffff;
    assert Accumulate(bytes) == -6;
  }

  lemma LoopComesBack()
    ensures ComesBack(ReaderOf(LOOP), 0, 6)
  {
    LoopReads();
    var read, p := ReaderOf(LOOP), Place(0, 6);
    assert read(0) == ReadTlv(LOOP, 0);
    assert Leads(read, p, p);
    var ps := [p, p];
    assert ps[0] == ps[1];
    assert PathFrom(read, 0, 6, ps) && Repeats(ps);
  }

  /** A certificate with such an extension. */
  lemma LoopCertificate() returns (cert: Bytes)
    ensures cert == APPLE_NONCE_OID + [OCTET_STRING, 6] + LOOP && ExtensionValue(cert) == Ok(LOOP)
  {
    cert := APPLE_NONCE_OID + [OCTET_STRING, 6] + LOOP;
    LoopExtension(cert);
  }

  lemma LoopExtension(cert: Bytes)
    requires cert == APPLE_NONCE_OID + [OCTET_STRING, 6] + LOOP
    ensures ExtensionValue(cert) == Ok(LOOP)
  {
    assert cert[0..0 + |APPLE_NONCE_OID|] == APPLE_NONCE_OID;
    assert cert[|APPLE_NONCE_OID|..] == [OCTET_STRING] + [6] + LOOP;
    TaggedReads(cert, |APPLE_NONCE_OID|, OCTET_STRING, [6], LOOP);
    ValueAt(cert, 0, |APPLE_NONCE_OID|);
  }

  /** No bound is enough for it, and no answer comes. */
  lemma LoopNeverEnds(bound: nat) returns (cert: Bytes)
    ensures cert == APPLE_NONCE_OID + [OCTET_STRING, 6] + LOOP
    ensures Find(ReaderOf(LOOP), 0, 6, bound) == Unfinished && Extract(cert) == Unfinished
  {
    LoopComesBack();
    ComesBackNeverEnds(ReaderOf(LOOP), 0, 6, bound);
    cert := LoopCertificate();
    ExtractEndsExactly(cert);
  }
}
