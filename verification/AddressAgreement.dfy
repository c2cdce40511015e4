/** The two IPv6 parsers agree, but for eight groups beside a gap. */
module AddressAgreement {
  import opened AddressText

  function LowerAll(parts: seq<string>): (low: seq<string>)
    ensures |low| == |parts|
  {
    seq(|parts|, i requires 0 <= i < |parts| => Lower(parts[i]))
  }

  /** Letters only change within themselves. */
  lemma LowerKeeps(c: char, d: char)
    requires !('a' <= d <= 'z') && !('A' <= d <= 'Z')
    ensures LowerChar(c) == d <==> c == d
    ensures IsHex(LowerChar(c), false) <==> IsHex(c, true)
    ensures IsDigit(LowerChar(c)) <==> IsDigit(c)
    ensures IsHex(c, true) ==> IsHex(LowerChar(c), true) && DigitValue(LowerChar(c)) == DigitValue(c)
  {
  }

  lemma {:induction false} SplitLower(text: string, c: char)
    requires !('a' <= c <= 'z') && !('A' <= c <= 'Z')
    ensures Split(Lower(text), c) == LowerAll(Split(text, c))
    decreases |text|
  {
    if text != "" {
      LowerKeeps(text[0], c);
      SplitLower(text[1..], c);
      assert Lower(text)[1..] == Lower(text[1..]);
      var rest := Split(text[1..], c);
      assert Lower([text[0]] + rest[0]) == [LowerChar(text[0])] + Lower(rest[0]);
    }
  }

  lemma {:induction false} SplitDoubleLower(text: string)
    ensures SplitDouble(Lower(text)) == LowerAll(SplitDouble(text))
    decreases |text|
  {
    if |text| >= 2 {
      LowerKeeps(text[0], ':');
      LowerKeeps(text[1], ':');
      assert Lower(text)[1..] == Lower(text[1..]) && Lower(text)[2..] == Lower(text[2..]);
      if text[0] == ':' && text[1] == ':' {
        SplitDoubleLower(text[2..]);
      } else {
        SplitDoubleLower(text[1..]);
        LowerHead(text[0], SplitDouble(text[1..]));
      }
    }
  }

  lemma LowerHead(c: char, parts: seq<string>)
    requires parts != []
    ensures LowerAll([[c] + parts[0]] + parts[1..]) == [[LowerChar(c)] + LowerAll(parts)[0]] + LowerAll(parts)[1..]
  {
    assert Lower([c] + parts[0]) == [LowerChar(c)] + Lower(parts[0]);
  }

  lemma {:induction false} LastColonLower(text: string)
    ensures AfterLastColon(Lower(text)) == AfterLastColon(text)
    decreases |text|
  {
    if text != "" {
      LowerKeeps(text[|text| - 1], ':');
      LastColonLower(text[..|text| - 1]);
      assert Lower(text)[..|text| - 1] == Lower(text[..|text| - 1]);
    }
  }

  lemma ContainsLower(text: string, c: char)
    requires !('a' <= c <= 'z') && !('A' <= c <= 'Z')
    ensures c in Lower(text) <==> c in text
  {
    if c in text {
      var i :| 0 <= i < |text| && text[i] == c;
      assert Lower(text)[i] == c;
    }
    if c in Lower(text) {
      var i :| 0 <= i < |text| && Lower(text)[i] == c;
      LowerKeeps(text[i], c);
    }
  }

  lemma HexLower(text: string)
    ensures AllHex(Lower(text), false) <==> AllHex(text, true)
    ensures AllHex(Lower(text), true) <==> AllHex(text, true)
    ensures AllDigits(Lower(text)) <==> AllDigits(text)
  {
    forall i | 0 <= i < |text|
      ensures IsHex(Lower(text)[i], false) <==> IsHex(text[i], true)
      ensures IsHex(Lower(text)[i], true) <==> IsHex(text[i], true)
      ensures IsDigit(Lower(text)[i]) <==> IsDigit(text[i])
    {
      LowerKeeps(text[i], ':');
    }
  }

  lemma {:induction false} NumberLower(text: string, base: nat)
    requires AllHex(text, true) && AllHex(Lower(text), true)
    ensures Number(Lower(text), base) == Number(text, base)
    decreases |text|
  {
    if text != "" {
      HexLower(text[..|text| - 1]);
      NumberLower(text[..|text| - 1], base);
      LowerKeeps(text[|text| - 1], ':');
      assert Lower(text)[..|text| - 1] == Lower(text[..|text| - 1]);
    }
  }

  lemma {:induction false} OctetsLower(parts: seq<string>)
    ensures Octets(LowerAll(parts)) == Octets(parts)
    decreases |parts|
  {
    if parts != [] {
      OctetsLower(parts[1..]);
      assert LowerAll(parts)[1..] == LowerAll(parts[1..]);
      HexLower(parts[0]);
      if AllHex(parts[0], true) {
        NumberLower(parts[0], 10);
      }
    }
  }

  lemma {:induction false} PiecesLower(pieces: seq<string>)
    ensures PieceValues(LowerAll(pieces), false) == PieceValues(pieces, true)
    decreases |pieces|
  {
    if pieces != [] {
      PiecesLower(pieces[1..]);
      assert LowerAll(pieces)[1..] == LowerAll(pieces[1..]);
      HexLower(pieces[0]);
      if AllHex(pieces[0], true) {
        NumberLower(pieces[0], 16);
      }
    }
  }

  lemma ToGroupsLower(part: string)
    ensures ToGroups(Lower(part), false) == ToGroups(part, true)
  {
    SplitLower(part, ':');
    PiecesLower(Split(part, ':'));
  }

  lemma TakeTailLower(text: string)
    ensures TakeTail(Lower(text)).Some? <==> TakeTail(text).Some?
    ensures TakeTail(text).Some? ==>
              && TakeTail(Lower(text)).value.0 == Lower(TakeTail(text).value.0)
              && TakeTail(Lower(text)).value.1 == TakeTail(text).value.1
  {
    var at := AfterLastColon(text);
    LastColonLower(text);
    assert Lower(text)[at..] == Lower(text[at..]);
    ContainsLower(text[at..], '.');
    SplitLower(text[at..], '.');
    OctetsLower(Split(text[at..], '.'));
    assert Lower(text)[..at] + "0" == Lower(text[..at] + "0");
  }

  /** "::" with eight groups written out beside it. */
  predicate EightBesideGap(value: string) {
    var text := BeforeZone(value);
    ':' in text && TakeTail(text).Some? && EightInHalves(SplitDouble(TakeTail(text).value.0), TakeTail(text).value.1)
  }

  predicate EightInHalves(halves: seq<string>, tail: seq<nat>) {
    && |halves| == 2 && ToGroups(halves[0], true).Some? && ToGroups(halves[1], true).Some?
    && |ToGroups(halves[0], true).value| + |WithTail(ToGroups(halves[1], true).value, tail)| == 8
  }

  lemma HalvesAgree(halves: seq<string>, tail: seq<nat>)
    requires |halves| >= 1
    ensures var strict, loose := AssembleStrict(LowerAll(halves), tail), AssembleLoose(halves, tail);
            && (strict.Some? ==> loose == strict)
            && (loose != strict <==> EightInHalves(halves, tail))
  {
    ToGroupsLower(halves[0]);
    if |halves| == 2 {
      ToGroupsLower(halves[1]);
    }
  }

  /** The parsers agree on every string, trimmed for the one that does not trim, except
      that only the second accepts eight groups beside a gap. */
  lemma ParsersAgree(value: string)
    ensures ParseIPv6Groups(value).Some? ==> ParseIPv6(Trim(value)) == ParseIPv6Groups(value)
    ensures ParseIPv6(Trim(value)) != ParseIPv6Groups(value) <==> EightBesideGap(Trim(value))
  {
    var text := BeforeZone(Trim(value));
    SplitLower(Trim(value), '%');
    assert BeforeZone(Lower(Trim(value))) == Lower(text);
    ContainsLower(text, ':');
    TakeTailLower(text);
    if TakeTail(text).Some? {
      var (body, tail) := TakeTail(text).value;
      SplitDoubleLower(body);
      HalvesAgree(SplitDouble(body), tail);
    }
  }
}
