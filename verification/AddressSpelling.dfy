/** Every spelling of an IPv6 address parses to its groups, section 2.2 of RFC 4291. */
module AddressSpelling {
  import opened Wrappers
  import opened PrefixArithmetic
  import opened AddressText
  import opened AddressAgreement

  /** Groups written out in hex, at most one gap between them, at most one dotted tail. */
  datatype Spelling = Spelling(head: seq<string>, gap: bool, after: seq<string>, dotted: Option<seq<string>>)

  function Join(parts: seq<string>, c: char): string {
    if parts == [] then ""
    else if |parts| == 1 then parts[0]
    else parts[0] + [c] + Join(parts[1..], c)
  }

  /** The parts after the gap, or all of them when there is none: hex, then the tail. */
  function Last(sp: Spelling): seq<string> {
    sp.after + if sp.dotted.Some? then [Join(sp.dotted.value, '.')] else []
  }

  function Render(sp: Spelling): string {
    if sp.gap then Join(sp.head, ':') + "::" + Join(Last(sp), ':') else Join(Last(sp), ':')
  }

  predicate Pieces(ps: seq<string>) { forall i | 0 <= i < |ps| :: Piece(ps[i], true) }

  function Values(ps: seq<string>): (vs: seq<nat>)
    requires Pieces(ps)
    ensures |vs| == |ps|
  {
    seq(|ps|, i requires 0 <= i < |ps| => Number(ps[i], 16))
  }

  predicate Quad(ds: seq<string>) {
    |ds| == 4 && forall i | 0 <= i < 4 :: Octet(ds[i])
  }

  function QuadValues(ds: seq<string>): (vs: seq<nat>)
    requires Quad(ds)
    ensures |vs| == 4
  {
    OctetNumbers(ds)
  }

  function OctetNumbers(ds: seq<string>): (vs: seq<nat>)
    requires forall i | 0 <= i < |ds| :: Octet(ds[i])
    ensures |vs| == |ds|
  {
    seq(|ds|, i requires 0 <= i < |ds| => assert Octet(ds[i]); Number(ds[i], 10))
  }

  /** The groups written out: a dotted tail counts for two. */
  function Written(sp: Spelling): nat {
    |sp.head| + |sp.after| + if sp.dotted.Some? then 2 else 0
  }

  /** A gap stands for at least one group; without it all eight are there. */
  predicate Valid(sp: Spelling) {
    WellFormed(sp) && if sp.gap then Written(sp) <= 7 else Written(sp) == 8
  }

  predicate WellFormed(sp: Spelling) {
    && Pieces(sp.head) && Pieces(sp.after)
    && (sp.dotted.Some? ==> Quad(sp.dotted.value))
    && (!sp.gap ==> sp.head == [])
  }

  function TailValues(sp: Spelling): seq<nat>
    requires WellFormed(sp)
  {
    if sp.dotted.Some? then Pair(QuadValues(sp.dotted.value)) else []
  }

  function GroupsOf(sp: Spelling): (gs: seq<nat>)
    requires WellFormed(sp) && Written(sp) <= 8
  {
    Values(sp.head) + (Zeros(8 - Written(sp)) + (Values(sp.after) + TailValues(sp)))
  }

  // ----- splitting what was joined -----

  predicate Without(part: string, c: char) { forall i | 0 <= i < |part| :: part[i] != c }

  predicate AllWithout(parts: seq<string>, c: char) { forall i | 0 <= i < |parts| :: Without(parts[i], c) }

  lemma {:induction false} SplitOne(part: string, c: char)
    requires Without(part, c)
    ensures Split(part, c) == [part]
    decreases |part|
  {
    if part != "" {
      SplitOne(part[1..], c);
      assert part == [part[0]] + part[1..];
    }
  }

  lemma {:induction false} SplitAt(part: string, c: char, rest: string)
    requires Without(part, c)
    ensures Split(part + [c] + rest, c) == [part] + Split(rest, c)
    decreases |part|
  {
    var text := part + [c] + rest;
    if part == "" {
      assert text[1..] == rest;
    } else {
      SplitAt(part[1..], c, rest);
      assert text[1..] == part[1..] + [c] + rest;
      assert [part[0]] + part[1..] == part;
    }
  }

  lemma {:induction false} SplitJoin(parts: seq<string>, c: char)
    requires parts != [] && AllWithout(parts, c)
    ensures Split(Join(parts, c), c) == parts
    decreases |parts|
  {
    if |parts| == 1 {
      SplitOne(parts[0], c);
    } else {
      SplitJoin(parts[1..], c);
      SplitAt(parts[0], c, Join(parts[1..], c));
      assert parts == [parts[0]] + parts[1..];
    }
  }

  /** No two colons side by side, and none at either end. */
  predicate Tight(text: string) {
    && (forall i | 0 <= i < |text| - 1 :: !(text[i] == ':' && text[i + 1] == ':'))
    && (text != "" ==> text[0] != ':' && text[|text| - 1] != ':')
  }

  lemma {:induction false} JoinTight(parts: seq<string>)
    requires AllWithout(parts, ':') && forall i | 0 <= i < |parts| :: parts[i] != ""
    ensures Tight(Join(parts, ':')) && (parts != [] ==> Join(parts, ':') != "")
    decreases |parts|
  {
    if |parts| > 1 {
      JoinTight(parts[1..]);
      var rest, text := Join(parts[1..], ':'), Join(parts, ':');
      assert text[|parts[0]|] == ':';
      assert forall i | 0 <= i < |parts[0]| :: text[i] == parts[0][i];
      assert forall i | 0 <= i < |rest| :: text[|parts[0]| + 1 + i] == rest[i];
    }
  }

  lemma {:induction false} SplitDoubleOne(text: string)
    requires forall i | 0 <= i < |text| - 1 :: !(text[i] == ':' && text[i + 1] == ':')
    ensures SplitDouble(text) == [text]
    decreases |text|
  {
    if |text| >= 2 {
      assert !(text[0] == ':' && text[0 + 1] == ':');
      SplitDoubleOne(text[1..]);
      assert text == [text[0]] + text[1..];
    }
  }

  lemma {:induction false} SplitDoubleAt(a: string, b: string)
    requires forall i | 0 <= i < |a| - 1 :: !(a[i] == ':' && a[i + 1] == ':')
    requires a != "" ==> a[|a| - 1] != ':'
    ensures SplitDouble(a + "::" + b) == [a] + SplitDouble(b)
    decreases |a|
  {
    var text := a + "::" + b;
    if a == "" {
      assert text[2..] == b;
    } else {
      assert text[0] == a[0] && text[1..] == a[1..] + "::" + b;
      assert !(text[0] == ':' && text[1] == ':') by {
        if |a| > 1 {
          assert !(a[0] == ':' && a[0 + 1] == ':');
          assert text[1] == a[1];
        }
      }
      SplitDoubleAt(a[1..], b);
      assert [a[0]] + a[1..] == a;
    }
  }

  // ----- pieces and octets -----

  lemma {:induction false} PiecesParse(ps: seq<string>)
    requires Pieces(ps)
    ensures PieceValues(ps, true) == Some(Values(ps))
    decreases |ps|
  {
    if ps != [] {
      PiecesParse(ps[1..]);
      assert Values(ps) == [Number(ps[0], 16)] + Values(ps[1..]);
    }
  }

  /** Hex pieces have no punctuation in them. */
  lemma PieceChars(piece: string, c: char)
    requires Piece(piece, true) && (c == ':' || c == '.' || c == '%')
    ensures Without(piece, c)
  {
  }

  lemma PiecesChars(ps: seq<string>, c: char)
    requires Pieces(ps) && (c == ':' || c == '.' || c == '%')
    ensures AllWithout(ps, c) && forall i | 0 <= i < |ps| :: ps[i] != ""
  {
    forall i | 0 <= i < |ps|
      ensures Without(ps[i], c)
    {
      PieceChars(ps[i], c);
    }
  }

  lemma JoinedPiecesParse(ps: seq<string>)
    requires Pieces(ps)
    ensures ToGroups(Join(ps, ':'), true) == Some(Values(ps))
  {
    PiecesChars(ps, ':');
    if ps != [] {
      JoinTight(ps);
      SplitJoin(ps, ':');
      PiecesParse(ps);
    }
  }

  lemma QuadChars(ds: seq<string>, c: char)
    requires Quad(ds) && (c == ':' || c == '.' || c == '%')
    ensures AllWithout(ds, c)
  {
    forall i | 0 <= i < 4
      ensures Without(ds[i], c)
    {
      OctetChars(ds[i], c);
    }
  }

  lemma OctetChars(part: string, c: char)
    requires Octet(part) && (c == ':' || c == '.' || c == '%')
    ensures Without(part, c)
  {
  }

  lemma {:induction false} OctetsParse(ds: seq<string>)
    requires forall i | 0 <= i < |ds| :: Octet(ds[i])
    ensures Octets(ds) == Some(OctetNumbers(ds))
    decreases |ds|
  {
    if ds != [] {
      OctetsParse(ds[1..]);
      assert OctetNumbers(ds) == [Number(ds[0], 10)] + OctetNumbers(ds[1..]);
    }
  }

  lemma QuadParses(ds: seq<string>)
    requires Quad(ds)
    ensures ParseIPv4(Join(ds, '.')) == Some(QuadValues(ds))
    ensures Without(Join(ds, '.'), ':') && Without(Join(ds, '.'), '%') && '.' in Join(ds, '.')
  {
    QuadChars(ds, '.');
    SplitJoin(ds, '.');
    OctetsParse(ds);
    QuadChars(ds, ':');
    QuadChars(ds, '%');
    JoinWithout(ds, '.', ':');
    JoinWithout(ds, '.', '%');
    assert Join(ds, '.')[|ds[0]|] == '.';
  }

  lemma {:induction false} JoinWithout(parts: seq<string>, sep: char, c: char)
    requires AllWithout(parts, c) && sep != c
    ensures Without(Join(parts, sep), c)
    decreases |parts|
  {
    if |parts| > 1 {
      JoinWithout(parts[1..], sep, c);
    }
  }

  lemma {:induction false} JoinSnoc(parts: seq<string>, part: string, sep: char)
    requires parts != []
    ensures Join(parts + [part], sep) == Join(parts, sep) + [sep] + part
    decreases |parts|
  {
    assert (parts + [part])[1..] == parts[1..] + [part];
    if |parts| > 1 {
      JoinSnoc(parts[1..], part, sep);
      assert parts[0] + [sep] + (Join(parts[1..], sep) + [sep] + part)
          == (parts[0] + [sep] + Join(parts[1..], sep)) + [sep] + part;
    }
  }

  // ----- the tail -----

  /** The pieces after the gap, with a 0 for the dotted tail. */
  function LastPieces(sp: Spelling): seq<string> {
    sp.after + if sp.dotted.Some? then ["0"] else []
  }

  function Body(sp: Spelling): string {
    if sp.gap then Join(sp.head, ':') + "::" + Join(LastPieces(sp), ':') else Join(LastPieces(sp), ':')
  }

  /** All the text before the dotted tail. */
  function Prefix(sp: Spelling): string {
    (if sp.gap then Join(sp.head, ':') + "::" else "") + (if sp.after == [] then "" else Join(sp.after, ':') + ":")
  }

  lemma {:induction false} LastColonAt(a: string, b: string)
    requires Without(b, ':') && (a != "" ==> a[|a| - 1] == ':')
    ensures AfterLastColon(a + b) == |a|
    decreases |b|
  {
    if b == "" {
      assert a + b == a;
    } else {
      assert (a + b)[..|a + b| - 1] == a + b[..|b| - 1];
      LastColonAt(a, b[..|b| - 1]);
    }
  }

  lemma DottedRender(sp: Spelling, part: string)
    requires WellFormed(sp)
    ensures var joined := Join(sp.after + [part], ':');
            (if sp.gap then Join(sp.head, ':') + "::" + joined else joined) == Prefix(sp) + part
  {
    if sp.after == [] {
      assert sp.after + [part] == [part];
    } else {
      JoinSnoc(sp.after, part, ':');
    }
  }

  lemma RenderWithout(sp: Spelling, c: char)
    requires WellFormed(sp) && (c == '%' || (c == '.' && sp.dotted.None?))
    ensures Without(Render(sp), c)
  {
    PiecesChars(sp.head, c);
    PiecesChars(sp.after, c);
    JoinWithout(sp.head, ':', c);
    if sp.dotted.Some? {
      QuadParses(sp.dotted.value);
    }
    JoinWithout(Last(sp), ':', c);
  }

  lemma TailTaken(sp: Spelling)
    requires WellFormed(sp) && (!sp.gap ==> Written(sp) == 8)
    ensures TakeTail(Render(sp)) == Some((Body(sp), TailValues(sp)))
  {
    var text := Render(sp);
    if sp.dotted.Some? {
      var quad := Join(sp.dotted.value, '.');
      DottedRender(sp, quad);
      DottedRender(sp, "0");
      QuadParses(sp.dotted.value);
      LastColonAt(Prefix(sp), quad);
      assert text[|Prefix(sp)|..] == quad && text[..|Prefix(sp)|] == Prefix(sp);
    } else {
      RenderWithout(sp, '.');
      assert sp.after + [] == sp.after;
    }
  }

  // ----- a spelling parses -----

  lemma ZeroPiece()
    ensures Piece("0", true) && Number("0", 16) == 0
  {
  }

  lemma LastParses(sp: Spelling)
    requires WellFormed(sp)
    ensures Pieces(LastPieces(sp))
    ensures ToGroups(Join(LastPieces(sp), ':'), true).Some?
    ensures WithTail(ToGroups(Join(LastPieces(sp), ':'), true).value, TailValues(sp))
         == Values(sp.after) + TailValues(sp)
  {
    ZeroPiece();
    JoinedPiecesParse(LastPieces(sp));
    if sp.dotted.Some? {
      assert DropLast(Values(LastPieces(sp))) == Values(sp.after);
    } else {
      assert sp.after + [] == sp.after && Values(sp.after) + [] == Values(sp.after);
    }
  }

  lemma BodyHalves(sp: Spelling)
    requires WellFormed(sp)
    ensures SplitDouble(Body(sp))
         == if sp.gap then [Join(sp.head, ':'), Join(LastPieces(sp), ':')] else [Join(LastPieces(sp), ':')]
  {
    LastParses(sp);
    PiecesChars(LastPieces(sp), ':');
    PiecesChars(sp.head, ':');
    JoinTight(LastPieces(sp));
    JoinTight(sp.head);
    SplitDoubleOne(Join(LastPieces(sp), ':'));
    if sp.gap {
      SplitDoubleAt(Join(sp.head, ':'), Join(LastPieces(sp), ':'));
    }
  }

  lemma BodyAssembles(sp: Spelling)
    requires WellFormed(sp) && (if sp.gap then Written(sp) <= 8 else Written(sp) == 8)
    ensures AssembleLoose(SplitDouble(Body(sp)), TailValues(sp)) == Some(GroupsOf(sp))
    ensures EightInHalves(SplitDouble(Body(sp)), TailValues(sp)) <==> sp.gap && Written(sp) == 8
  {
    BodyHalves(sp);
    LastParses(sp);
    JoinedPiecesParse(sp.head);
    var rest := ToGroups(Join(LastPieces(sp), ':'), true).value;
    if sp.gap {
      assert sp.dotted.Some? ==> DropLast(rest) + TailValues(sp) == Values(sp.after) + TailValues(sp);
      assert sp.dotted.None? ==> rest == Values(sp.after) + TailValues(sp);
    } else {
      assert Values(sp.head) == [] && Zeros(0) == [];
      assert [] + ([] + (Values(sp.after) + TailValues(sp))) == Values(sp.after) + TailValues(sp);
    }
  }

  predicate IsZone(zone: string) { zone == "" || zone[0] == '%' }

  lemma ZoneDropped(sp: Spelling, zone: string)
    requires WellFormed(sp) && IsZone(zone)
    ensures BeforeZone(Render(sp) + zone) == Render(sp)
  {
    RenderWithout(sp, '%');
    if zone == "" {
      SplitOne(Render(sp), '%');
      assert Render(sp) + zone == Render(sp);
    } else {
      SplitAt(Render(sp), '%', zone[1..]);
      assert Render(sp) + zone == Render(sp) + ['%'] + zone[1..];
    }
  }

  lemma HasColon(sp: Spelling)
    requires WellFormed(sp) && (!sp.gap ==> Written(sp) == 8)
    ensures ':' in Render(sp)
  {
    if sp.gap {
      assert Render(sp)[|Join(sp.head, ':')|] == ':';
    } else {
      assert Render(sp)[|sp.after[0]|] == ':';
    }
  }

  /** Any spelling, with any zone, parses to its groups; the one thing the trusting parser
      lets through that the other does not is a gap that stands for nothing. */
  lemma SpellingParses(sp: Spelling, zone: string, value: string)
    requires WellFormed(sp) && (if sp.gap then Written(sp) <= 8 else Written(sp) == 8)
    requires IsZone(zone) && Trim(value) == Render(sp) + zone
    ensures ParseIPv6(Render(sp) + zone) == Some(GroupsOf(sp))
    ensures ParseIPv6Groups(value) == if sp.gap && Written(sp) == 8 then None else Some(GroupsOf(sp))
  {
    ZoneDropped(sp, zone);
    HasColon(sp);
    TailTaken(sp);
    BodyAssembles(sp);
    ParsersAgree(value);
  }
}
