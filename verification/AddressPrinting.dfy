/** Every address can be written down: what is printed in decimal octets or in hex groups
    parses back to the same numbers. */
module AddressPrinting {
  import opened Wrappers
  import opened PrefixArithmetic
  import opened AddressText
  import opened AddressSpelling
  import opened AddressPolicy

  function Digit(n: nat): char
    requires n < 16
  {
    if n < 10 then (48 + n) as char else (87 + n) as char
  }

  function Printed(n: nat, base: nat): (text: string)
    requires base == 10 || base == 16
    ensures text != ""
  {
    if n < base then [Digit(n)] else Printed(n / base, base) + [Digit(n % base)]
  }

  lemma DigitReads(n: nat)
    requires n < 16
    ensures IsHex(Digit(n), false) && IsHex(Digit(n), true) && DigitValue(Digit(n)) == n
    ensures !IsSpace(Digit(n)) && LowerChar(Digit(n)) == Digit(n) && (n < 10 ==> IsDigit(Digit(n)))
  {
  }

  lemma NumberSnoc(text: string, n: nat, base: nat)
    requires AllHex(text, true) && n < 16 && (base == 10 || base == 16)
    ensures AllHex(text + [Digit(n)], true) && Number(text + [Digit(n)], base) == Number(text, base) * base + n
  {
    DigitReads(n);
    assert (text + [Digit(n)])[..|text|] == text;
  }

  lemma PlainSnoc(text: string, n: nat)
    requires Plain(text) && AllHex(text, false) && n < 16
    ensures Plain(text + [Digit(n)]) && AllHex(text + [Digit(n)], false)
    ensures n < 10 && AllDigits(text) ==> AllDigits(text + [Digit(n)])
  {
    DigitReads(n);
  }

  lemma {:induction false} PrintedReads(n: nat, base: nat)
    requires base == 10 || base == 16
    ensures AllHex(Printed(n, base), false) && AllHex(Printed(n, base), true) && Number(Printed(n, base), base) == n
    ensures Plain(Printed(n, base)) && (base == 10 ==> AllDigits(Printed(n, base)))
    decreases n
  {
    if n < base {
      NumberSnoc("", n, base);
      PlainSnoc("", n);
      assert Printed(n, base) == "" + [Digit(n)];
    } else {
      PrintedReads(n / base, base);
      NumberSnoc(Printed(n / base, base), n % base, base);
      PlainSnoc(Printed(n / base, base), n % base);
    }
  }

  lemma {:induction false} PrintedLength(n: nat, base: nat, k: nat)
    requires (base == 10 || base == 16) && k > 0 && n < Power(base, k)
    ensures |Printed(n, base)| <= k
    decreases k
  {
    if n >= base {
      PrintedLength(n / base, base, k - 1);
    }
  }

  function Power(base: nat, k: nat): nat {
    if k == 0 then 1 else base * Power(base, k - 1)
  }

  lemma OctetPrinted(n: nat)
    requires n < 256
    ensures Octet(Printed(n, 10)) && Number(Printed(n, 10), 10) == n
  {
    PrintedReads(n, 10);
    assert Power(10, 2) == 100 && Power(10, 3) == 1000;
    PrintedLength(n, 10, 3);
  }

  lemma PiecePrinted(n: nat)
    requires n < 65536
    ensures Piece(Printed(n, 16), true) && Number(Printed(n, 16), 16) == n && Plain(Printed(n, 16))
  {
    PrintedReads(n, 16);
    assert Power(16, 2) == 256 && Power(16, 4) == 65536;
    PrintedLength(n, 16, 4);
  }

  function AllPrinted(ns: seq<nat>, base: nat): (texts: seq<string>)
    requires base == 10 || base == 16
    ensures |texts| == |ns|
  {
    seq(|ns|, i requires 0 <= i < |ns| => Printed(ns[i], base))
  }

  /** Four octets, printed in decimal and joined by dots, parse to themselves. */
  lemma QuadsRoundTrip(octets: seq<nat>)
    requires |octets| == 4 && forall i | 0 <= i < 4 :: octets[i] < 256
    ensures ParseIPv4(Join(AllPrinted(octets, 10), '.')) == Some(octets)
  {
    var ds := AllPrinted(octets, 10);
    forall i | 0 <= i < 4 ensures Octet(ds[i]) && Number(ds[i], 10) == octets[i] {
      OctetPrinted(octets[i]);
    }
    QuadParses(ds);
    assert QuadValues(ds) == octets;
  }

  lemma {:induction false} JoinPlain(parts: seq<string>)
    requires forall i | 0 <= i < |parts| :: Plain(parts[i])
    ensures Plain(Join(parts, ':'))
    decreases |parts|
  {
    if |parts| > 1 {
      JoinPlain(parts[1..]);
    }
  }

  /** Eight groups, printed in hex and joined by colons, parse to themselves, in both parsers. */
  lemma GroupsRoundTrip(groups: seq<nat>)
    requires |groups| == 8 && forall i | 0 <= i < 8 :: groups[i] < 65536
    ensures ParseIPv6Groups(Join(AllPrinted(groups, 16), ':')) == Some(groups)
    ensures ParseIPv6(Join(AllPrinted(groups, 16), ':')) == Some(groups)
  {
    var ps := AllPrinted(groups, 16);
    var sp := Spelling([], false, ps, None);
    forall i | 0 <= i < 8 ensures Piece(ps[i], true) && Number(ps[i], 16) == groups[i] && Plain(ps[i]) {
      PiecePrinted(groups[i]);
    }
    assert Last(sp) == ps && GroupsOf(sp) == groups;
    JoinPlain(ps);
    PlainStays(Join(ps, ':'));
    SpellingParses(sp, "", Join(ps, ':'));
  }
}
