/** Nothing but a spelling of an address parses: the parsers accept exactly the spellings. */
module AddressCompleteness {
  import opened Wrappers
  import opened PrefixArithmetic
  import opened AddressText
  import opened AddressAgreement
  import opened AddressSpelling

  // ----- joining what was split -----

  lemma {:induction false} JoinCons(c: char, parts: seq<string>, sep: char)
    requires parts != []
    ensures Join([[c] + parts[0]] + parts[1..], sep) == [c] + Join(parts, sep)
  {
    var longer := [[c] + parts[0]] + parts[1..];
    assert longer[1..] == parts[1..];
    if |parts| > 1 {
      assert [c] + parts[0] + [sep] + Join(parts[1..], sep) == [c] + (parts[0] + [sep] + Join(parts[1..], sep));
    }
  }

  lemma {:induction false} JoinSplit(text: string, c: char)
    ensures Join(Split(text, c), c) == text
    decreases |text|
  {
    if text != "" {
      JoinSplit(text[1..], c);
      var rest := Split(text[1..], c);
      if text[0] == c {
        assert ([""] + rest)[1..] == rest;
        assert "" + [c] + Join(rest, c) == text;
      } else {
        JoinCons(text[0], rest, c);
      }
    }
  }

  predicate Rejoins(parts: seq<string>, text: string) {
    && (|parts| == 1 ==> parts[0] == text)
    && (|parts| == 2 ==> parts[0] + "::" + parts[1] == text)
  }

  lemma {:induction false} SplitDoubleJoin(text: string)
    ensures Rejoins(SplitDouble(text), text)
    decreases |text|
  {
    if |text| >= 2 {
      if text[0] == ':' && text[1] == ':' {
        SplitDoubleJoin(text[2..]);
        assert text == "" + "::" + text[2..];
      } else {
        SplitDoubleJoin(text[1..]);
        RejoinsCons(text[0], SplitDouble(text[1..]), text[1..]);
        assert text == [text[0]] + text[1..];
      }
    }
  }

  lemma RejoinsCons(c: char, parts: seq<string>, text: string)
    requires parts != [] && Rejoins(parts, text)
    ensures Rejoins([[c] + parts[0]] + parts[1..], [c] + text)
  {
    if |parts| == 2 {
      assert [c] + (parts[0] + "::" + parts[1]) == ([c] + parts[0]) + "::" + parts[1];
    }
  }

  /** The first part, and what follows it. */
  lemma {:induction false} SplitFirst(text: string, c: char) returns (rest: string)
    ensures text == Split(text, c)[0] + rest && (rest == "" || rest[0] == c)
    decreases |text|
  {
    if text == "" || text[0] == c {
      rest := text;
    } else {
      rest := SplitFirst(text[1..], c);
      var first := Split(text[1..], c)[0];
      assert text == [text[0]] + (first + rest) == ([text[0]] + first) + rest;
    }
  }

  lemma {:induction false} SplitLast(a: string, b: string, c: char)
    requires Without(b, c)
    ensures Split(a + [c] + b, c) == Split(a, c) + [b]
    decreases |a|
  {
    var text := a + [c] + b;
    if a == "" {
      assert text[1..] == b;
      SplitOne(b, c);
    } else {
      assert text[1..] == a[1..] + [c] + b;
      SplitLast(a[1..], b, c);
      if a[0] != c {
        var rest := Split(a[1..], c);
        assert [[a[0]] + rest[0]] + (rest + [b])[1..] == ([[a[0]] + rest[0]] + rest[1..]) + [b];
      } else {
        assert [""] + (Split(a[1..], c) + [b]) == ([""] + Split(a[1..], c)) + [b];
      }
    }
  }

  // ----- pieces and octets -----

  lemma {:induction false} ParsedPieces(ps: seq<string>)
    requires PieceValues(ps, true).Some?
    ensures Pieces(ps)
    decreases |ps|
  {
    if ps != [] {
      ParsedPieces(ps[1..]);
      assert forall i | 1 <= i < |ps| :: ps[1..][i - 1] == ps[i];
    }
  }

  lemma ParsedHalf(half: string) returns (ps: seq<string>)
    requires ToGroups(half, true).Some?
    ensures Pieces(ps) && Join(ps, ':') == half && |ToGroups(half, true).value| == |ps|
    ensures half != "" ==> ps == Split(half, ':')
  {
    if half == "" {
      ps := [];
    } else {
      ps := Split(half, ':');
      JoinSplit(half, ':');
      ParsedPieces(ps);
      PiecesParse(ps);
    }
  }

  lemma {:induction false} ParsedOctets(ds: seq<string>)
    requires Octets(ds).Some?
    ensures forall i | 0 <= i < |ds| :: Octet(ds[i])
    decreases |ds|
  {
    if ds != [] {
      ParsedOctets(ds[1..]);
      assert forall i | 1 <= i < |ds| :: ds[1..][i - 1] == ds[i];
    }
  }

  lemma ParsedQuad(text: string) returns (ds: seq<string>)
    requires ParseIPv4(text).Some?
    ensures Quad(ds) && Join(ds, '.') == text
  {
    ds := Split(text, '.');
    ParsedOctets(ds);
    JoinSplit(text, '.');
  }

  lemma {:induction false} LastColonBefore(text: string)
    ensures var at := AfterLastColon(text);
            && (at > 0 ==> text[at - 1] == ':') && (':' in text ==> at > 0)
    decreases |text|
  {
    if text != "" && text[|text| - 1] != ':' {
      var shorter := text[..|text| - 1];
      LastColonBefore(shorter);
      if ':' in text {
        var i :| 0 <= i < |text| && text[i] == ':';
        assert shorter[i] == ':';
      }
    }
  }

  /** The half that ends in the 0 for a dotted tail: the pieces before it, rejoined. */
  lemma DottedHalf(half: string, before: string, ps: seq<string>, part: string)
    requires half == before + "0" && (before == "" || before[|before| - 1] == ':') && ps == Split(half, ':')
    ensures Join(ps[..|ps| - 1] + [part], ':') == before + part
  {
    if before == "" {
      SplitOne(half, ':');
      assert ps[..|ps| - 1] + [part] == [part];
    } else {
      var lead := before[..|before| - 1];
      assert half == lead + [':'] + "0";
      SplitLast(lead, "0", ':');
      assert ps[..|ps| - 1] == Split(lead, ':');
      JoinSplit(lead, ':');
      JoinSnoc(Split(lead, ':'), part, ':');
      assert before == lead + [':'];
    }
  }

  // ----- a text that parses is a spelling -----

  predicate Counts(sp: Spelling) {
    WellFormed(sp) && if sp.gap then Written(sp) <= 8 else Written(sp) == 8
  }

  lemma PlainSpelling(text: string) returns (sp: Spelling)
    requires ':' in text && AssembleLoose(SplitDouble(text), []).Some?
    ensures Counts(sp) && Render(sp) == text
  {
    var halves := SplitDouble(text);
    SplitDoubleJoin(text);
    var first := ParsedHalf(halves[0]);
    if |halves| == 1 {
      sp := Spelling([], false, first, None);
      assert Last(sp) == first;
    } else {
      var second := ParsedHalf(halves[1]);
      sp := Spelling(first, true, second, None);
      assert Last(sp) == second;
    }
  }

  /** a + b ends in the added 0, so b does. */
  lemma SameEnd(before: string, a: string, b: string) returns (rest: string)
    requires before + "0" == a + b && a != "" && a[|a| - 1] == ':'
    ensures b == rest + "0" && before == a + rest
  {
    var whole := before + "0";
    assert whole[|whole| - 1] == '0';
    rest := b[..|b| - 1];
    assert whole[..|whole| - 1] == before;
  }

  lemma DottedFull(before: string, quad: string, ds: seq<string>) returns (sp: Spelling)
    requires before != "" && before[|before| - 1] == ':' && Quad(ds) && Join(ds, '.') == quad
    requires ToGroups(before + "0", true).Some? && |ToGroups(before + "0", true).value| == 7
    ensures Counts(sp) && Render(sp) == before + quad
  {
    var pieces := ParsedHalf(before + "0");
    DottedHalf(before + "0", before, pieces, quad);
    sp := Spelling([], false, pieces[..6], Some(ds));
  }

  lemma DottedGap(before: string, quad: string, ds: seq<string>, first: string, second: string) returns (sp: Spelling)
    requires before != "" && before[|before| - 1] == ':' && Quad(ds) && Join(ds, '.') == quad
    requires before + "0" == first + "::" + second
    requires ToGroups(first, true).Some? && ToGroups(second, true).Some?
    requires |ToGroups(first, true).value| + |ToGroups(second, true).value| <= 7
    ensures Counts(sp) && Render(sp) == before + quad
  {
    var head := ParsedHalf(first);
    var pieces := ParsedHalf(second);
    var rest := SameEnd(before, first + "::", second);
    DottedHalf(second, rest, pieces, quad);
    sp := Spelling(head, true, pieces[..|pieces| - 1], Some(ds));
    assert first + "::" + (rest + quad) == before + quad;
  }

  lemma DottedSpelling(before: string, quad: string) returns (sp: Spelling)
    requires before != "" && before[|before| - 1] == ':' && ParseIPv4(quad).Some?
    requires AssembleLoose(SplitDouble(before + "0"), Pair(ParseIPv4(quad).value)).Some?
    ensures Counts(sp) && Render(sp) == before + quad
  {
    var ds := ParsedQuad(quad);
    var halves := SplitDouble(before + "0");
    SplitDoubleJoin(before + "0");
    if |halves| == 1 {
      sp := DottedFull(before, quad, ds);
    } else {
      EndsInZero(before, halves[0], halves[1]);
      sp := DottedGap(before, quad, ds, halves[0], halves[1]);
    }
  }

  lemma EndsInZero(before: string, first: string, second: string)
    requires before + "0" == first + "::" + second
    ensures second != "" && (ToGroups(second, true).Some? ==> |ToGroups(second, true).value| >= 1)
  {
    var rest := SameEnd(before, first + "::", second);
    if ToGroups(second, true).Some? {
      var pieces := ParsedHalf(second);
    }
  }

  /** What the trusting parser accepts is a spelling of its result, with a zone after it. */
  lemma ParsedIsSpelling(value: string) returns (sp: Spelling, zone: string)
    requires ParseIPv6(value).Some?
    ensures Counts(sp) && IsZone(zone) && value == Render(sp) + zone
    ensures ParseIPv6(value) == Some(GroupsOf(sp))
  {
    var text := BeforeZone(value);
    zone := SplitFirst(value, '%');
    var at := AfterLastColon(text);
    LastColonBefore(text);
    if '.' in text[at..] {
      sp := DottedSpelling(text[..at], text[at..]);
      assert text[..at] + text[at..] == text;
    } else {
      sp := PlainSpelling(text);
    }
    ZoneDropped(sp, zone);
    TailTaken(sp);
    BodyAssembles(sp);
  }

  ghost predicate Spells(sp: Spelling, zone: string, text: string, groups: seq<nat>) {
    Valid(sp) && IsZone(zone) && text == Render(sp) + zone && GroupsOf(sp) == groups
  }

  /** The strict parser accepts exactly the valid spellings, each as its own groups. */
  lemma AcceptsExactlySpellings(value: string, groups: seq<nat>)
    ensures ParseIPv6Groups(value) == Some(groups) <==> exists sp, zone :: Spells(sp, zone, Trim(value), groups)
  {
    if ParseIPv6Groups(value) == Some(groups) {
      ParsersAgree(value);
      var sp, zone := ParsedIsSpelling(Trim(value));
      SpellingParses(sp, zone, value);
      assert Spells(sp, zone, Trim(value), groups);
    }
    if sp, zone :| Spells(sp, zone, Trim(value), groups) {
      SpellingParses(sp, zone, value);
    }
  }
}
