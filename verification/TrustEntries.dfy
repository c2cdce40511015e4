/** What one entry of a trust list matches, with addresses as numbers. */
module TrustEntries {
  import opened Wrappers
  import opened PrefixArithmetic
  import opened AddressText
  import opened AddressAgreement
  import opened AddressSpelling
  import opened AddressCompleteness
  import opened AddressPolicy
  import opened ReservedTargets

  // ----- ranges -----

  /** The prefix is no longer than the address, and its top bits are the same. */
  predicate SameTopBits(width: nat, a: seq<nat>, b: seq<nat>, bits: nat, prefix: nat) {
    prefix <= bits && Value(width, a) / Pow2(bits - prefix) == Value(width, b) / Pow2(bits - prefix)
  }

  /** A range written without a colon holds IPv4 peers, any other one IPv6 peers and, mapped,
      IPv4 ones. */
  predicate InNumbers(peer: string, network: string, prefix: nat) {
    if ':' !in network then
      && ParseIPv4(network).Some? && ParseIPv4(peer).Some?
      && SameTopBits(8, ParseIPv4(peer).value, ParseIPv4(network).value, 32, prefix)
    else
      && ParseIPv6Groups(network).Some?
      && match ParseIPv6Groups(peer)
         case Some(gs) => SameTopBits(16, gs, ParseIPv6Groups(network).value, 128, prefix)
         case None =>
           && ParseIPv4(peer).Some?
           && SameTopBits(16, Mapped(ParseIPv4(peer).value), ParseIPv6Groups(network).value, 128, prefix)
  }

  lemma SixteenBits(value: string)
    ensures ParseIPv6Groups(value).Some? ==>
              |ParseIPv6Groups(value).value| == 8 && Groups(16, ParseIPv6Groups(value).value)
  {
    if ParseIPv6Groups(value).Some? {
      ParsersAgree(value);
      GroupsOfSixteen(Trim(value), ParseIPv6Groups(value).value);
    }
  }

  lemma GroupsOfSixteen(text: string, gs: seq<nat>)
    requires ParseIPv6(text) == Some(gs)
    ensures |gs| == 8 && Groups(16, gs)
  {
    ParsedBounds(text);
    Below65536(gs);
  }

  lemma Below65536(gs: seq<nat>)
    ensures Groups(16, gs) <==> forall i | 0 <= i < |gs| :: gs[i] < 65536
  {
    assert Pow2(8) == 256 && Pow2(12) == 4096 && Pow2(16) == 65536;
  }

  lemma EightBits(value: string)
    ensures ParseIPv4(value).Some? ==> Groups(8, ParseIPv4(value).value)
    ensures ParseIPv4(value).Some? ==>
              |Mapped(ParseIPv4(value).value)| == 8 && Groups(16, Mapped(ParseIPv4(value).value))
  {
    if ParseIPv4(value).Some? {
      OctetBounds(Split(value, '.'));
      PairValue(ParseIPv4(value).value);
      assert Pow2(16) == 65536;
    }
  }

  lemma AgreeIsTopBits(width: nat, a: seq<nat>, b: seq<nat>, bits: nat, prefix: nat)
    requires width > 0 && |a| == |b| && Groups(width, a) && Groups(width, b) && bits == Bits(width, |a|)
    ensures prefix <= bits && Agree(width, a, b, prefix) <==> SameTopBits(width, a, b, bits, prefix)
  {
    if prefix <= bits {
      AgreeIsPrefix(width, a, b, prefix);
    }
  }

  lemma BitsOfAddresses()
    ensures Bits(8, 4) == 32 && Bits(16, 8) == 128
  {
    assert Bits(16, 2) == 32 && Bits(16, 4) == 64 && Bits(16, 6) == 96;
  }

  lemma RangeInNumbers(peer: string, network: string, prefix: nat)
    ensures RangeMatches(peer, network, prefix) <==> InNumbers(peer, network, prefix)
  {
    BitsOfAddresses();
    EightBits(peer);
    EightBits(network);
    SixteenBits(peer);
    SixteenBits(network);
    if ':' !in network {
      if ParseIPv4(network).Some? && ParseIPv4(peer).Some? {
        AgreeIsTopBits(8, ParseIPv4(peer).value, ParseIPv4(network).value, 32, prefix);
      }
    } else if ParseIPv6Groups(network).Some? && PeerGroups(peer).Some? {
      AgreeIsTopBits(16, PeerGroups(peer).value, ParseIPv6Groups(network).value, 128, prefix);
    }
  }

  // ----- entries -----

  /** A network, one slash, and one to three digits. */
  predicate IsRange(entry: string, network: string, digits: string) {
    entry == network + "/" + digits && Without(network, '/') && IsPrefixText(digits)
  }

  lemma RangeSplits(entry: string, network: string, digits: string)
    requires IsRange(entry, network, digits)
    ensures '/' in entry && Split(entry, '/') == [network, digits]
  {
    assert entry[|network|] == '/' && entry == network + ['/'] + digits;
    SplitAt(network, '/', digits);
    SplitOne(digits, '/');
  }

  lemma {:induction false} SplitWithout(text: string, c: char)
    ensures AllWithout(Split(text, c), c)
    decreases |text|
  {
    if text != "" {
      SplitWithout(text[1..], c);
    }
  }

  lemma SplitsAsRange(entry: string)
    requires |Split(entry, '/')| == 2 && IsPrefixText(Split(entry, '/')[1])
    ensures IsRange(entry, Split(entry, '/')[0], Split(entry, '/')[1])
  {
    var parts := Split(entry, '/');
    JoinSplit(entry, '/');
    SplitWithout(entry, '/');
    assert parts[1..] == [parts[1]] && Join([parts[1]], '/') == parts[1];
  }

  predicate IsAddressOf(entry: string, peer: string) {
    entry != "" && '/' !in entry && Normalize(entry) == peer
  }

  predicate IsRangeOf(entry: string, network: string, digits: string, peer: string) {
    IsRange(entry, network, digits) && InNumbers(peer, network, Number(digits, 10))
  }

  lemma RangeEntryMatches(peer: string, rawEntry: string, network: string, digits: string)
    requires IsRange(Lower(Trim(rawEntry)), network, digits)
    ensures EntryMatches(peer, rawEntry) <==> InNumbers(peer, network, Number(digits, 10))
  {
    RangeSplits(Lower(Trim(rawEntry)), network, digits);
    RangeInNumbers(peer, network, Number(digits, 10));
  }

  /** An entry matches a peer exactly when it is that address, however it is written, or one
      range that holds it; blank and malformed entries match nothing. */
  lemma EntryMatchesExactly(peer: string, rawEntry: string)
    ensures EntryMatches(peer, rawEntry)
       <==> || IsAddressOf(Lower(Trim(rawEntry)), peer)
            || exists network, digits :: IsRangeOf(Lower(Trim(rawEntry)), network, digits, peer)
  {
    var entry := Lower(Trim(rawEntry));
    if EntryMatches(peer, rawEntry) && '/' in entry {
      var parts := Split(entry, '/');
      SplitsAsRange(entry);
      RangeEntryMatches(peer, rawEntry, parts[0], parts[1]);
      assert IsRangeOf(entry, parts[0], parts[1], peer);
    }
    forall network, digits | IsRangeOf(entry, network, digits, peer)
      ensures EntryMatches(peer, rawEntry)
    {
      RangeEntryMatches(peer, rawEntry, network, digits);
    }
  }

  // ----- spelling -----

  /** A peer written as a mapped address is trusted as the IPv4 address it embeds. */
  lemma MappedPeerTrustedAlike(peer: string, trust: Trust)
    requires ParseIPv4(peer).Some?
    ensures IsTrusted(MAPPED_PREFIX + peer, trust) <==> IsTrusted(peer, trust)
  {
    QuadText(peer);
    PlainStays(peer);
    PlainStays(MAPPED_PREFIX + peer);
    BareDotted(peer);
    assert (MAPPED_PREFIX + peer)[..7] == MAPPED_PREFIX && (MAPPED_PREFIX + peer)[7..] == peer;
  }
}
