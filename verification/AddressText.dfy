/** Addresses as text: the two IPv6 parsers, the IPv4 parser, and their string helpers. */
module AddressText {
  import opened Wrappers
  import opened PrefixArithmetic

  // ----- strings -----

  /** The parts between the c's; always at least one. */
  function Split(text: string, c: char): (parts: seq<string>)
    ensures |parts| >= 1
  {
    if text == "" then [""]
    else if text[0] == c then [""] + Split(text[1..], c)
    else
      var rest := Split(text[1..], c);
      [[text[0]] + rest[0]] + rest[1..]
  }

  /** The parts between the double colons, found from the left. */
  function SplitDouble(text: string): (parts: seq<string>)
    ensures |parts| >= 1
  {
    if |text| < 2 then [text]
    else if text[0] == ':' && text[1] == ':' then [""] + SplitDouble(text[2..])
    else
      var rest := SplitDouble(text[1..]);
      [[text[0]] + rest[0]] + rest[1..]
  }

  /** The index after the last colon, or 0. */
  function AfterLastColon(text: string): (i: nat)
    ensures i <= |text|
  {
    if text == "" then 0
    else if text[|text| - 1] == ':' then |text|
    else AfterLastColon(text[..|text| - 1])
  }

  function LowerChar(c: char): char {
    if 'A' <= c <= 'Z' then (c as int + 32) as char else c
  }

  function Lower(text: string): (low: string)
    ensures |low| == |text|
  {
    seq(|text|, i requires 0 <= i < |text| => LowerChar(text[i]))
  }

  predicate IsSpace(c: char) {
    c == ' ' || '\t' <= c <= '\r'
  }

  function Trim(text: string): string {
    if text != "" && IsSpace(text[0]) then Trim(text[1..])
    else if text != "" && IsSpace(text[|text| - 1]) then Trim(text[..|text| - 1])
    else text
  }

  function BeforeZone(text: string): string { Split(text, '%')[0] }

  function DropLast(gs: seq<nat>): seq<nat> {
    if gs == [] then [] else gs[..|gs| - 1]
  }

  // ----- numbers -----

  predicate IsDigit(c: char) { '0' <= c <= '9' }

  predicate IsHex(c: char, anyCase: bool) {
    IsDigit(c) || 'a' <= c <= 'f' || (anyCase && 'A' <= c <= 'F')
  }

  function DigitValue(c: char): nat
    requires IsHex(c, true)
  {
    if IsDigit(c) then c as int - 48 else if c <= 'F' then c as int - 55 else c as int - 87
  }

  predicate AllDigits(text: string) { forall i | 0 <= i < |text| :: IsDigit(text[i]) }

  predicate AllHex(text: string, anyCase: bool) { forall i | 0 <= i < |text| :: IsHex(text[i], anyCase) }

  function Number(text: string, base: nat): nat
    requires AllHex(text, true)
  {
    if text == "" then 0 else Number(text[..|text| - 1], base) * base + DigitValue(text[|text| - 1])
  }

  // ----- IPv4 -----

  predicate Octet(part: string) {
    1 <= |part| <= 3 && AllDigits(part) && AllHex(part, true) && Number(part, 10) <= 255
  }

  function Octets(parts: seq<string>): Option<seq<nat>> {
    if parts == [] then Some([])
    else if !Octet(parts[0]) then None
    else match Octets(parts[1..])
      case None => None
      case Some(rest) => Some([Number(parts[0], 10)] + rest)
  }

  function ParseIPv4(value: string): (octets: Option<seq<nat>>)
    ensures octets.Some? ==> |octets.value| == 4
  {
    var parts := Split(value, '.');
    if |parts| != 4 then None else OctetsLength(parts); Octets(parts)
  }

  lemma {:induction false} OctetsLength(parts: seq<string>)
    ensures Octets(parts).Some? ==> |Octets(parts).value| == |parts|
    decreases |parts|
  {
    if parts != [] {
      OctetsLength(parts[1..]);
    }
  }

  // ----- IPv6 -----

  predicate Piece(piece: string, anyCase: bool) {
    1 <= |piece| <= 4 && AllHex(piece, anyCase)
  }

  function PieceValues(pieces: seq<string>, anyCase: bool): Option<seq<nat>> {
    if pieces == [] then Some([])
    else if !Piece(pieces[0], anyCase) then None
    else match PieceValues(pieces[1..], anyCase)
      case None => None
      case Some(rest) => Some([Number(pieces[0], 16)] + rest)
  }

  function ToGroups(part: string, anyCase: bool): Option<seq<nat>> {
    if part == "" then Some([]) else PieceValues(Split(part, ':'), anyCase)
  }

  /** The text with a dotted tail replaced by one group, and the two groups of that tail. */
  function TakeTail(text: string): Option<(string, seq<nat>)> {
    var at := AfterLastColon(text);
    if '.' in text[at..] then
      match ParseIPv4(text[at..])
      case None => None
      case Some(octets) => Some((text[..at] + "0", Pair(octets)))
    else Some((text, []))
  }

  function Zeros(n: nat): (zs: seq<nat>)
    ensures |zs| == n
  {
    seq(n, _ => 0)
  }

  /** The last group stands for the tail, when there is one. */
  function WithTail(gs: seq<nat>, tail: seq<nat>): seq<nat> {
    if |tail| > 0 then DropLast(gs) + tail else gs
  }

  /** The parser of wsproxy-utils: lower case first, eight groups beside a gap refused. */
  function ParseIPv6Groups(value: string): Option<seq<nat>> {
    var text := BeforeZone(Lower(Trim(value)));
    if ':' !in text || TakeTail(text).None? then None
    else
      var (body, tail) := TakeTail(text).value;
      AssembleStrict(SplitDouble(body), tail)
  }

  function AssembleStrict(halves: seq<string>, tail: seq<nat>): Option<seq<nat>>
    requires |halves| >= 1
  {
    if |halves| > 2 || ToGroups(halves[0], false).None? then None
    else
      var head := ToGroups(halves[0], false).value;
      if |halves| == 1 then
        var all := WithTail(head, tail);
        if |all| == 8 then Some(all) else None
      else if ToGroups(halves[1], false).None? then None
      else
        var after := WithTail(ToGroups(halves[1], false).value, tail);
        if |head| + |after| >= 8 then None else Some(head + (Zeros(8 - |head| - |after|) + after))
  }

  /** The parser of target-policy: either case, eight groups beside a gap let through. */
  function ParseIPv6(value: string): Option<seq<nat>> {
    var text := BeforeZone(value);
    if ':' !in text || TakeTail(text).None? then None
    else
      var (body, tail) := TakeTail(text).value;
      AssembleLoose(SplitDouble(body), tail)
  }

  function AssembleLoose(halves: seq<string>, tail: seq<nat>): Option<seq<nat>>
    requires |halves| >= 1
  {
    if |halves| > 2 || ToGroups(halves[0], true).None? then None
    else
      var head := ToGroups(halves[0], true).value;
      if |halves| == 1 then
        var all := WithTail(head, tail);
        if |all| == 8 then Some(all) else None
      else if ToGroups(halves[1], true).None? then None
      else
        var rest := ToGroups(halves[1], true).value;
        var explicit := if |tail| > 0 then head + (DropLast(rest) + tail) else head + rest;
        if |explicit| > 8 then None
        else Some(head + (Zeros(8 - |explicit|) + WithTail(rest, tail)))
  }

  // ----- the parsing loops -----

  method ParseIPv4Text(value: string) returns (octets: Option<seq<nat>>)
    ensures octets == ParseIPv4(value)
  {
    var parts := Split(value, '.');
    if |parts| != 4 {
      return None;
    }
    var got: seq<nat> := [];
    assert parts[0..] == parts;
    for i := 0 to 4
      invariant Octets(parts).Some? <==> Octets(parts[i..]).Some?
      invariant Octets(parts).Some? ==> Octets(parts).value == got + Octets(parts[i..]).value
    {
      assert parts[i..][1..] == parts[i + 1..];
      if !(1 <= |parts[i]| <= 3 && AllDigits(parts[i])) {
        return None;
      }
      var octet := Number(parts[i], 10);
      if octet > 255 {
        return None;
      }
      got := got + [octet];
    }
    assert parts[4..] == [] && got + [] == got;
    return Some(got);
  }

  method ToGroupsText(part: string, anyCase: bool) returns (groups: Option<seq<nat>>)
    ensures groups == ToGroups(part, anyCase)
  {
    if part == "" {
      return Some([]);
    }
    var pieces := Split(part, ':');
    var got: seq<nat> := [];
    assert pieces[0..] == pieces;
    for i := 0 to |pieces|
      invariant PieceValues(pieces, anyCase).Some? <==> PieceValues(pieces[i..], anyCase).Some?
      invariant PieceValues(pieces, anyCase).Some? ==>
                  PieceValues(pieces, anyCase).value == got + PieceValues(pieces[i..], anyCase).value
    {
      assert pieces[i..][1..] == pieces[i + 1..];
      if !Piece(pieces[i], anyCase) {
        return None;
      }
      got := got + [Number(pieces[i], 16)];
    }
    assert pieces[|pieces|..] == [] && got + [] == got;
    return Some(got);
  }
}
