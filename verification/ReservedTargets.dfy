/** Which targets are reserved, as ranges of numbers, for every text. */
module ReservedTargets {
  import opened Wrappers
  import opened PrefixArithmetic
  import opened AddressText
  import opened AddressSpelling
  import opened AddressCompleteness
  import opened AddressPolicy

  // ----- eight groups of sixteen bits -----

  lemma {:induction false} NumberBound(text: string)
    requires AllHex(text, true)
    ensures Number(text, 16) < Pow2(4 * |text|)
    decreases |text|
  {
    if text != "" {
      NumberBound(text[..|text| - 1]);
      FourMore(4 * (|text| - 1));
    }
  }

  lemma FourMore(n: nat)
    ensures Pow2(n + 4) == 16 * Pow2(n)
  {
    assert Pow2(n + 2) == 4 * Pow2(n) && Pow2(n + 4) == 4 * Pow2(n + 2);
  }

  lemma PieceBound(piece: string)
    requires Piece(piece, true)
    ensures Number(piece, 16) < 65536
  {
    NumberBound(piece);
    assert Pow2(4) == 16 && Pow2(8) == 256 && Pow2(12) == 4096 && Pow2(16) == 65536;
  }

  lemma ValuesBound(ps: seq<string>)
    requires Pieces(ps)
    ensures forall i | 0 <= i < |ps| :: Values(ps)[i] < 65536
  {
    forall i | 0 <= i < |ps| ensures Values(ps)[i] < 65536 {
      PieceBound(ps[i]);
    }
  }

  lemma TailBound(sp: Spelling)
    requires WellFormed(sp)
    ensures forall i | 0 <= i < |TailValues(sp)| :: TailValues(sp)[i] < 65536
  {
    if sp.dotted.Some? {
      var vs := QuadValues(sp.dotted.value);
      forall i | 0 <= i < 4 ensures vs[i] < Pow2(8) {
        assert Octet(sp.dotted.value[i]) && Pow2(8) == 256;
      }
      PairValue(vs);
      assert Pow2(16) == 65536;
    }
  }

  lemma SpellingBounds(sp: Spelling)
    requires WellFormed(sp) && Written(sp) <= 8
    ensures forall i | 0 <= i < |GroupsOf(sp)| :: GroupsOf(sp)[i] < 65536
  {
    ValuesBound(sp.head);
    ValuesBound(sp.after);
    TailBound(sp);
  }

  /** Whatever parses is eight numbers of sixteen bits. */
  lemma ParsedBounds(value: string)
    requires ParseIPv6(value).Some?
    ensures |ParseIPv6(value).value| == 8 && forall i | 0 <= i < 8 :: ParseIPv6(value).value[i] < 65536
  {
    var sp, zone := ParsedIsSpelling(value);
    SpellingBounds(sp);
  }

  // ----- IPv4 ranges -----

  /** 0/8, 10/8, 100.64/10, 127/8, 169.254/16, 172.16/12, 192.0.0/24, 192.0.2/24, 192.168/16,
      198.18/15 and everything from 224.0.0.0 up. */
  predicate ReservedQuad(a: nat, b: nat, c: nat) {
    || a == 0 || a == 10 || a == 127 || a >= 224
    || (a == 100 && 64 <= b <= 127)
    || (a == 169 && b == 254)
    || (a == 172 && 16 <= b <= 31)
    || (a == 192 && (b == 168 || (b == 0 && (c == 0 || c == 2))))
    || (a == 198 && 18 <= b <= 19)
  }

  lemma SameTop(x: nat, y: nat, bits: nat)
    requires x < 256 && y < 256 && 0 < bits <= 8
    ensures SameMasked(8, bits, x, y) <==> x / Pow2(8 - bits) == y / Pow2(8 - bits)
  {
    assert Pow2(8) == 256;
    MaskedEqual(8, bits, x, y);
    HighIsDiv(x, 8 - bits);
    HighIsDiv(y, 8 - bits);
  }

  lemma AgreeWhole(a: seq<nat>, b: seq<nat>, prefix: nat)
    requires |a| == |b| > 0 && prefix >= 8 && a[0] < 256 && b[0] < 256
    ensures Agree(8, a, b, prefix) <==> a[0] == b[0] && Agree(8, a[1..], b[1..], prefix - 8)
  {
    SameTop(a[0], b[0], 8);
    assert Pow2(0) == 1;
  }

  lemma AgreePart(a: seq<nat>, b: seq<nat>, prefix: nat)
    requires |a| == |b| > 0 && 0 < prefix <= 8 && a[0] < 256 && b[0] < 256
    ensures Agree(8, a, b, prefix) <==> a[0] / Pow2(8 - prefix) == b[0] / Pow2(8 - prefix)
  {
    SameTop(a[0], b[0], prefix);
  }

  /** The octets share the network's top bits, octet by octet. */
  predicate InRange(o: seq<nat>, n: seq<nat>, prefix: nat)
    requires |o| == |n| == 4 && 0 < prefix <= 24
  {
    if prefix <= 8 then o[0] / Pow2(8 - prefix) == n[0] / Pow2(8 - prefix)
    else if prefix <= 16 then o[0] == n[0] && o[1] / Pow2(16 - prefix) == n[1] / Pow2(16 - prefix)
    else o[0] == n[0] && o[1] == n[1] && o[2] / Pow2(24 - prefix) == n[2] / Pow2(24 - prefix)
  }

  lemma InRest(o: seq<nat>, n: seq<nat>, prefix: nat)
    requires |o| == |n| == 3 && 0 < prefix <= 16
    requires forall i | 0 <= i < 3 :: o[i] < 256 && n[i] < 256
    ensures Agree(8, o, n, prefix)
       <==> if prefix <= 8 then o[0] / Pow2(8 - prefix) == n[0] / Pow2(8 - prefix)
            else o[0] == n[0] && o[1] / Pow2(16 - prefix) == n[1] / Pow2(16 - prefix)
  {
    if prefix <= 8 {
      AgreePart(o, n, prefix);
    } else {
      AgreeWhole(o, n, prefix);
      AgreePart(o[1..], n[1..], prefix - 8);
    }
  }

  lemma InNetwork(o: seq<nat>, n: seq<nat>, prefix: nat)
    requires |o| == |n| == 4 && 0 < prefix <= 24
    requires forall i | 0 <= i < 4 :: o[i] < 256 && n[i] < 256
    ensures InV4Network(o, (n, prefix)) <==> InRange(o, n, prefix)
  {
    if prefix <= 8 {
      AgreePart(o, n, prefix);
    } else {
      AgreeWhole(o, n, prefix);
      InRest(o[1..], n[1..], prefix - 8);
    }
  }

  lemma TableShape(i: nat)
    requires i < |RESERVED_V4|
    ensures |RESERVED_V4[i].0| == 4 && 0 < RESERVED_V4[i].1 <= 24
    ensures forall k | 0 <= k < 4 :: RESERVED_V4[i].0[k] < 256
  {
  }

  predicate InRangeAt(o: seq<nat>, i: nat)
    requires |o| == 4 && i < |RESERVED_V4|
  {
    TableShape(i);
    InRange(o, RESERVED_V4[i].0, RESERVED_V4[i].1)
  }

  lemma QuadInTable(o: seq<nat>)
    requires |o| == 4 && forall i | 0 <= i < 4 :: o[i] < 256
    ensures ReservedV4(o) <==> exists i: nat | i < |RESERVED_V4| :: InRangeAt(o, i)
  {
    forall i: nat | i < |RESERVED_V4| ensures InV4Network(o, RESERVED_V4[i]) <==> InRangeAt(o, i) {
      TableShape(i);
      InNetwork(o, RESERVED_V4[i].0, RESERVED_V4[i].1);
    }
  }

  lemma RangeAt(o: seq<nat>, i: nat)
    requires |o| == 4 && (forall k | 0 <= k < 4 :: o[k] < 256) && i < |RESERVED_V4|
    ensures InRangeAt(o, i) ==> ReservedQuad(o[0], o[1], o[2])
  {
    assert Pow2(0) == 1 && Pow2(1) == 2 && Pow2(4) == 16 && Pow2(6) == 64;
  }

  lemma WhichRange(o: seq<nat>) returns (i: nat)
    requires |o| == 4 && (forall k | 0 <= k < 4 :: o[k] < 256) && ReservedQuad(o[0], o[1], o[2])
    ensures i < |RESERVED_V4| && InRangeAt(o, i)
  {
    assert Pow2(0) == 1 && Pow2(1) == 2 && Pow2(4) == 16 && Pow2(6) == 64;
    i := if o[0] == 0 then 0 else if o[0] == 10 then 1 else if o[0] == 100 then 2 else if o[0] == 127 then 3
         else if o[0] == 169 then 4 else if o[0] == 172 then 5
         else if o[0] == 192 then (if o[1] == 168 then 8 else if o[2] == 0 then 6 else 7)
         else if o[0] == 198 then 9 else if o[0] < 240 then 10 else 11;
  }

  lemma QuadRanges(o: seq<nat>)
    requires |o| == 4 && forall i | 0 <= i < 4 :: o[i] < 256
    ensures ReservedV4(o) <==> ReservedQuad(o[0], o[1], o[2])
  {
    QuadInTable(o);
    if ReservedQuad(o[0], o[1], o[2]) {
      var i := WhichRange(o);
    }
    forall i: nat | i < |RESERVED_V4| && InRangeAt(o, i) ensures ReservedQuad(o[0], o[1], o[2]) {
      RangeAt(o, i);
    }
  }

  // ----- IPv6 ranges -----

  /** A mapped address is as reserved as the IPv4 address in it; any other one is reserved when
      it is ::, ::1, or in fc00::/7, fe80::/10 or ff00::/8. */
  predicate ReservedEight(gs: seq<nat>)
    requires |gs| == 8
  {
    if (forall i | 0 <= i < 5 :: gs[i] == 0) && gs[5] == 65535 then
      ReservedQuad(gs[6] / 256, gs[6] % 256, gs[7] / 256)
    else
      || ((forall i | 0 <= i < 7 :: gs[i] == 0) && gs[7] <= 1)
      || 0xfc00 <= gs[0] <= 0xfdff || 0xfe80 <= gs[0] <= 0xfebf || 0xff00 <= gs[0] <= 0xffff
  }

  lemma EightRanges(gs: seq<nat>)
    requires |gs| == 8 && forall i | 0 <= i < 8 :: gs[i] < 65536
    ensures ReservedGroups(gs) <==> ReservedEight(gs)
  {
    if IsMapped(gs) {
      assert forall i | 0 <= i < 5 :: gs[i] == gs[..5][i];
      QuadRanges(Embedded(gs));
    } else {
      UnmappedRanges(gs);
    }
  }

  lemma UnmappedRanges(gs: seq<nat>)
    requires |gs| == 8 && gs[0] < 65536 && !IsMapped(gs)
    ensures ReservedGroups(gs) <==> ReservedEight(gs)
  {
    LeadingRanges(gs[0]);
    if (forall i | 0 <= i < 5 :: gs[i] == 0) {
      assert gs[..5] == [0, 0, 0, 0, 0];
    }
    if gs[7] <= 1 && forall i | 0 <= i < 7 :: gs[i] == 0 {
      assert gs == [0, 0, 0, 0, 0, 0, 0, 0] || gs == [0, 0, 0, 0, 0, 0, 0, 1];
    }
  }

  // ----- every text -----

  predicate NoLetter(text: string) { forall i | 0 <= i < |text| :: text[i] < 'a' }

  lemma {:induction false} NoLetterJoin(ds: seq<string>)
    requires forall i | 0 <= i < |ds| :: Octet(ds[i])
    ensures NoLetter(Join(ds, '.'))
    decreases |ds|
  {
    if |ds| > 1 {
      NoLetterJoin(ds[1..]);
    }
  }

  lemma LowerQuad(text: string)
    requires ParseIPv4(Lower(text)).Some?
    ensures Lower(text) == text
  {
    var ds := ParsedQuad(Lower(text));
    NoLetterJoin(ds);
    forall i | 0 <= i < |text| ensures LowerChar(text[i]) == text[i] {
      assert Lower(text)[i] < 'a';
    }
  }

  lemma Unparsed(address: string)
    requires ParseIPv4(Trim(address)).None? && ParseIPv6(Trim(address)).None?
    ensures IsReservedAddress(address)
  {
    var text := Lower(Trim(address));
    ParseLower(Trim(address));
    if ParseIPv4(text).Some? {
      LowerQuad(Trim(address));
    }
    if Bare(text) != text {
      assert text == MAPPED_PREFIX + text[7..];
      MappedTextParses(text[7..]);
    }
  }

  /** Every text: a dotted quad and an IPv6 address are reserved exactly when they lie in the
      reserved ranges, however they are spelled, and a text that is neither is reserved. */
  lemma ReservedExactly(address: string)
    ensures ParseIPv6(Trim(address)).Some? ==> |ParseIPv6(Trim(address)).value| == 8
    ensures IsReservedAddress(address)
       <==> match ParseIPv4(Trim(address))
            case Some(o) => ReservedQuad(o[0], o[1], o[2])
            case None =>
              match ParseIPv6(Trim(address))
              case Some(gs) => ReservedEight(gs)
              case None => true
  {
    var text := Trim(address);
    if ParseIPv4(text).Some? {
      DottedNormal(address);
      QuadText(text);
      assert Pow2(8) == 256;
      QuadRanges(ParseIPv4(text).value);
    } else if ParseIPv6(text).Some? {
      SpellingCannotEvade(address);
      ParsedBounds(text);
      EightRanges(ParseIPv6(text).value);
    } else {
      Unparsed(address);
    }
  }
}
