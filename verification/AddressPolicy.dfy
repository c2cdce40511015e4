/** What the address code decides: which peers are trusted and which targets are reserved,
    and that neither decision depends on how an address is spelled. */
module AddressPolicy {
  import opened Wrappers
  import opened PrefixArithmetic
  import opened AddressText
  import opened AddressAgreement
  import opened AddressSpelling
  import opened AddressCompleteness

  const MAPPED_PREFIX := "::ffff:"

  /** Trimmed and lower case, and bare IPv4 for a mapped address written with a dotted tail. */
  function Normalize(address: string): string { Bare(Lower(Trim(address))) }

  function Bare(text: string): string {
    if |text| > 7 && text[..7] == MAPPED_PREFIX && ParseIPv4(text[7..]).Some? then text[7..] else text
  }

  // ----- trusted peers -----

  datatype Trust = TrustNone | TrustAll | TrustList(entries: seq<string>)

  function PeerGroups(peer: string): Option<seq<nat>> {
    if ParseIPv6Groups(peer).Some? then ParseIPv6Groups(peer)
    else match ParseIPv4(peer)
      case None => None
      case Some(octets) => Some(Mapped(octets))
  }

  predicate RangeMatches(peer: string, network: string, prefix: nat) {
    if ':' !in network then
      && ParseIPv4(network).Some? && ParseIPv4(peer).Some? && prefix <= 32
      && Agree(8, ParseIPv4(peer).value, ParseIPv4(network).value, prefix)
    else
      && ParseIPv6Groups(network).Some? && PeerGroups(peer).Some? && prefix <= 128
      && |PeerGroups(peer).value| == |ParseIPv6Groups(network).value|
      && Agree(16, PeerGroups(peer).value, ParseIPv6Groups(network).value, prefix)
  }

  predicate IsPrefixText(text: string) {
    1 <= |text| <= 3 && AllDigits(text) && AllHex(text, true)
  }

  predicate EntryMatches(peer: string, rawEntry: string) {
    var entry := Lower(Trim(rawEntry));
    if entry == "" then false
    else if '/' !in entry then Normalize(entry) == peer
    else
      var parts := Split(entry, '/');
      |parts| == 2 && IsPrefixText(parts[1]) && RangeMatches(peer, parts[0], Number(parts[1], 10))
  }

  /** Both kinds of parsed address have eight groups, each below 2^16. */
  lemma EightGroups(value: string)
    ensures ParseIPv6Groups(value).Some? ==> |ParseIPv6Groups(value).value| == 8
  {
  }

  lemma {:induction false} OctetBounds(parts: seq<string>)
    ensures Octets(parts).Some? ==> Groups(8, Octets(parts).value)
    decreases |parts|
  {
    if parts != [] {
      OctetBounds(parts[1..]);
      assert Pow2(8) == 256;
    }
  }

  predicate SomeEntryMatches(peer: string, entries: seq<string>) {
    exists i | 0 <= i < |entries| :: EntryMatches(peer, entries[i])
  }

  /** Every peer, or those that some entry matches. */
  predicate IsTrusted(peerAddress: string, trust: Trust) {
    peerAddress != "" && match trust
      case TrustNone => false
      case TrustAll => true
      case TrustList(entries) => SomeEntryMatches(Normalize(peerAddress), entries)
  }

  method IsTrustedPeer(peerAddress: string, trust: Trust) returns (trusted: bool)
    ensures trusted <==> IsTrusted(peerAddress, trust)
    ensures peerAddress == "" || trust.TrustNone? ==> !trusted
    ensures peerAddress != "" && trust.TrustAll? ==> trusted
    ensures peerAddress != "" && trust.TrustList? ==>
              (trusted <==> exists i | 0 <= i < |trust.entries| ::
                              EntryMatches(Normalize(peerAddress), trust.entries[i]))
  {
    if peerAddress == "" || trust.TrustNone? {
      return false;
    }
    if trust.TrustAll? {
      return true;
    }
    var peer := Normalize(peerAddress);
    trusted := MatchesSome(peer, trust.entries);
  }

  method MatchesSome(peer: string, entries: seq<string>) returns (trusted: bool)
    ensures trusted <==> SomeEntryMatches(peer, entries)
  {
    for i := 0 to |entries|
      invariant forall j | 0 <= j < i :: !EntryMatches(peer, entries[j])
    {
      var matches := MatchesEntry(peer, entries[i]);
      if matches {
        return true;
      }
    }
    return false;
  }

  method MatchesEntry(peer: string, rawEntry: string) returns (matches: bool)
    ensures matches <==> EntryMatches(peer, rawEntry)
  {
    var entry := Lower(Trim(rawEntry));
    if entry == "" {
      return false;
    }
    if '/' !in entry {
      return Normalize(entry) == peer;
    }
    var parts := Split(entry, '/');
    if |parts| != 2 || !IsPrefixText(parts[1]) {
      return false;
    }
    matches := MatchesRange(peer, parts[0], Number(parts[1], 10));
  }

  method MatchesRange(peer: string, network: string, prefix: nat) returns (matches: bool)
    ensures matches <==> RangeMatches(peer, network, prefix)
  {
    assert Pow2(8) == 256 && Pow2(16) == 65536;
    if ':' !in network {
      var networkOctets, peerOctets := ParseIPv4(network), ParseIPv4(peer);
      if networkOctets.None? || peerOctets.None? || prefix > 32 {
        return false;
      }
      matches := MatchesGroups(8, 0xff, peerOctets.value, networkOctets.value, prefix);
      return;
    }
    var networkGroups, peerGroups := ParseIPv6Groups(network), PeerGroups(peer);
    EightGroups(network);
    EightGroups(peer);
    if networkGroups.None? || peerGroups.None? || prefix > 128 {
      return false;
    }
    matches := MatchesGroups(16, 0xffff, peerGroups.value, networkGroups.value, prefix);
  }

  // ----- the mapped bridge -----

  /** Neither trimming nor lower-casing changes such a text. */
  predicate Plain(text: string) {
    forall i | 0 <= i < |text| :: !IsSpace(text[i]) && LowerChar(text[i]) == text[i]
  }

  lemma PlainStays(text: string)
    requires Plain(text)
    ensures Lower(Trim(text)) == text && Trim(text) == text && Lower(text) == text
  {
  }

  lemma PlainLower(text: string)
    requires Plain(text)
    ensures Lower(text) == text
  {
  }

  lemma QuadText(text: string)
    requires ParseIPv4(text).Some?
    ensures Plain(text) && Without(text, '/') && Without(text, ':') && Without(text, '%') && text != ""
    ensures Groups(8, ParseIPv4(text).value)
  {
    var ds := ParsedQuad(text);
    QuadParses(ds);
    JoinWithout(ds, '.', '/');
    PlainJoin(ds);
    OctetBounds(Split(text, '.'));
  }

  lemma {:induction false} PlainJoin(ds: seq<string>)
    requires forall i | 0 <= i < |ds| :: Octet(ds[i])
    ensures Plain(Join(ds, '.'))
    decreases |ds|
  {
    if |ds| > 1 {
      PlainJoin(ds[1..]);
    }
  }

  lemma MappedTextParses(network: string)
    requires ParseIPv4(network).Some?
    ensures ParseIPv6(MAPPED_PREFIX + network) == Some(Mapped(ParseIPv4(network).value))
    ensures ParseIPv6Groups(MAPPED_PREFIX + network) == Some(Mapped(ParseIPv4(network).value))
  {
    var ds := ParsedQuad(network);
    var sp := MappedSpelling(ds);
    QuadText(network);
    PlainStays(MAPPED_PREFIX + network);
    assert Render(sp) + "" == Render(sp);
    SpellingParses(sp, "", MAPPED_PREFIX + network);
  }

  lemma MappedSpelling(ds: seq<string>) returns (sp: Spelling)
    requires Quad(ds)
    ensures Valid(sp) && Render(sp) == MAPPED_PREFIX + Join(ds, '.')
    ensures ParseIPv4(Join(ds, '.')).Some? && GroupsOf(sp) == Mapped(ParseIPv4(Join(ds, '.')).value)
  {
    sp := Spelling([], true, ["ffff"], Some(ds));
    var last := Join(ds, '.');
    QuadParses(ds);
    MappedPiece();
    assert Last(sp) == ["ffff", last] && ["ffff", last][1..] == [last];
    assert Join(["ffff", last], ':') == "ffff" + [':'] + last;
    assert Values(["ffff"]) == [0xffff];
  }

  lemma MappedPiece()
    ensures Piece("ffff", true) && Number("ffff", 16) == 0xffff
  {
    assert "ffff"[..3] == "fff" && "fff"[..2] == "ff" && "ff"[..1] == "f" && "f"[..0] == "";
    assert Number("f", 16) == 15 && Number("ff", 16) == 255 && Number("fff", 16) == 4095;
  }

  /** For an IPv4 peer the range a.b.c.d/p and the range ::ffff:a.b.c.d/(96 + p) match the
      same addresses. */
  lemma MappedRangeMatches(peer: string, network: string, prefix: nat)
    requires ParseIPv4(peer).Some? && ParseIPv4(network).Some? && prefix <= 32
    ensures RangeMatches(peer, network, prefix) <==> RangeMatches(peer, MAPPED_PREFIX + network, 96 + prefix)
  {
    PeerIsMapped(peer);
    PeerIsMapped(network);
    MappedTextParses(network);
    assert (MAPPED_PREFIX + network)[0] == ':';
    MappedAgrees(ParseIPv4(peer).value, ParseIPv4(network).value, prefix);
  }

  lemma PeerIsMapped(peer: string)
    requires ParseIPv4(peer).Some?
    ensures ':' !in peer && Groups(8, ParseIPv4(peer).value)
    ensures PeerGroups(peer) == Some(Mapped(ParseIPv4(peer).value))
  {
    QuadText(peer);
    PlainStays(peer);
    SplitOne(peer, '%');
  }

  /** ... and so do the two entries of a trust list. */
  lemma MappedEntryMatches(peer: string, network: string, narrow: string, wide: string)
    requires ParseIPv4(peer).Some? && ParseIPv4(network).Some?
    requires IsPrefixText(narrow) && IsPrefixText(wide)
    requires Number(narrow, 10) <= 32 && Number(wide, 10) == 96 + Number(narrow, 10)
    ensures EntryMatches(peer, network + "/" + narrow) <==> EntryMatches(peer, MAPPED_PREFIX + network + "/" + wide)
  {
    var mapped := MappedText(network);
    EntriesAlike(peer, network, narrow, mapped, wide);
  }

  lemma EntriesAlike(peer: string, network: string, narrow: string, mapped: string, wide: string)
    requires ParseIPv4(peer).Some? && ParseIPv4(network).Some? && mapped == MAPPED_PREFIX + network
    requires Plain(network) && Without(network, '/') && Plain(mapped) && Without(mapped, '/')
    requires IsPrefixText(narrow) && IsPrefixText(wide)
    requires Number(narrow, 10) <= 32 && Number(wide, 10) == 96 + Number(narrow, 10)
    ensures EntryMatches(peer, network + "/" + narrow) <==> EntryMatches(peer, mapped + "/" + wide)
  {
    EntryParts(peer, network, narrow);
    EntryParts(peer, mapped, wide);
    MappedRangeMatches(peer, network, Number(narrow, 10));
  }

  lemma MappedText(network: string) returns (mapped: string)
    requires ParseIPv4(network).Some?
    ensures mapped == MAPPED_PREFIX + network && Plain(mapped) && Without(mapped, '/')
    ensures Plain(network) && Without(network, '/')
  {
    mapped := MAPPED_PREFIX + network;
    QuadText(network);
  }

  lemma EntryParts(peer: string, network: string, prefixText: string)
    requires Plain(network) && Without(network, '/') && IsPrefixText(prefixText)
    ensures EntryMatches(peer, network + "/" + prefixText) <==> RangeMatches(peer, network, Number(prefixText, 10))
  {
    var entry := network + "/" + prefixText;
    PlainStays(entry);
    assert entry[|network|] == '/';
    assert entry == network + ['/'] + prefixText;
    SplitAt(network, '/', prefixText);
    SplitOne(prefixText, '/');
  }

  // ----- reserved targets -----

  const RESERVED_V4: seq<(seq<nat>, nat)> :=
    [([0, 0, 0, 0], 8), ([10, 0, 0, 0], 8), ([100, 64, 0, 0], 10), ([127, 0, 0, 0], 8), ([169, 254, 0, 0], 16),
     ([172, 16, 0, 0], 12), ([192, 0, 0, 0], 24), ([192, 0, 2, 0], 24), ([192, 168, 0, 0], 16),
     ([198, 18, 0, 0], 15), ([224, 0, 0, 0], 4), ([240, 0, 0, 0], 4)]

  predicate InV4Network(octets: seq<nat>, network: (seq<nat>, nat)) {
    |octets| == |network.0| && Agree(8, octets, network.0, network.1)
  }

  predicate ReservedV4(octets: seq<nat>) {
    exists i | 0 <= i < |RESERVED_V4| :: InV4Network(octets, RESERVED_V4[i])
  }

  predicate IsMapped(gs: seq<nat>) {
    |gs| == 8 && gs[..5] == [0, 0, 0, 0, 0] && gs[5] == 0xffff
  }

  function Embedded(gs: seq<nat>): seq<nat>
    requires |gs| == 8
  {
    [gs[6] / 256, gs[6] % 256, gs[7] / 256, gs[7] % 256]
  }

  /** The decision on an address once it is eight groups. */
  predicate ReservedGroups(gs: seq<nat>)
    requires |gs| == 8
  {
    if IsMapped(gs) then ReservedV4(Embedded(gs))
    else
      || gs == [0, 0, 0, 0, 0, 0, 0, 0]
      || gs == [0, 0, 0, 0, 0, 0, 0, 1]
      || And(gs[0], 0xfe00) == 0xfc00
      || And(gs[0], 0xffc0) == 0xfe80
      || And(gs[0], 0xff00) == 0xff00
  }

  predicate IsReservedAddress(address: string) {
    address == "" || ReservedText(Normalize(address))
  }

  predicate ReservedText(text: string) {
    match ParseIPv4(text)
    case Some(octets) => ReservedV4(octets)
    case None =>
      ':' !in text || ParseIPv6(text).None? || |ParseIPv6(text).value| != 8
      || ReservedGroups(ParseIPv6(text).value)
  }

  lemma MappedBack(octets: seq<nat>)
    requires |octets| == 4 && Groups(8, octets)
    ensures IsMapped(Mapped(octets)) && Embedded(Mapped(octets)) == octets
  {
    assert Pow2(8) == 256;
  }

  lemma {:induction false} PiecesLowerAny(pieces: seq<string>)
    ensures PieceValues(LowerAll(pieces), true) == PieceValues(pieces, true)
    decreases |pieces|
  {
    if pieces != [] {
      PiecesLowerAny(pieces[1..]);
      assert LowerAll(pieces)[1..] == LowerAll(pieces[1..]);
      HexLower(pieces[0]);
      if AllHex(pieces[0], true) {
        NumberLower(pieces[0], 16);
      }
    }
  }

  lemma HalvesLower(halves: seq<string>, tail: seq<nat>)
    requires |halves| >= 1
    ensures AssembleLoose(LowerAll(halves), tail) == AssembleLoose(halves, tail)
  {
    forall i | 0 <= i < |halves|
      ensures ToGroups(Lower(halves[i]), true) == ToGroups(halves[i], true)
    {
      SplitLower(halves[i], ':');
      PiecesLowerAny(Split(halves[i], ':'));
    }
  }

  /** The trusting parser does not mind case. */
  lemma ParseLower(value: string)
    ensures ParseIPv6(Lower(value)) == ParseIPv6(value)
  {
    var text := BeforeZone(value);
    SplitLower(value, '%');
    assert BeforeZone(Lower(value)) == Lower(text);
    ContainsLower(text, ':');
    TakeTailLower(text);
    if TakeTail(text).Some? {
      var (body, tail) := TakeTail(text).value;
      SplitDoubleLower(body);
      HalvesLower(SplitDouble(body), tail);
    }
  }

  lemma NoColonNoGroups(text: string)
    requires ParseIPv6(text).Some?
    ensures ParseIPv4(text).None? && |ParseIPv6(text).value| == 8
  {
    var sp, zone := ParsedIsSpelling(text);
    SplitFirstColon(text);
    if ParseIPv4(text).Some? {
      QuadText(text);
    }
  }

  lemma SplitFirstColon(text: string)
    requires ParseIPv6(text).Some?
    ensures ':' in text
  {
    var rest := SplitFirst(text, '%');
    assert ':' in BeforeZone(text);
  }

  /** Whether a target is reserved depends on its address and not on how it is spelled:
      any text that parses is decided on its groups. */
  lemma SpellingCannotEvade(address: string)
    requires ParseIPv6(Trim(address)).Some?
    ensures |ParseIPv6(Trim(address)).value| == 8
    ensures IsReservedAddress(address) <==> ReservedGroups(ParseIPv6(Trim(address)).value)
  {
    ParseLower(Trim(address));
    NoColonNoGroups(Trim(address));
    BareCannotEvade(Lower(Trim(address)));
  }

  lemma BareCannotEvade(text: string)
    requires ParseIPv6(text).Some?
    ensures |ParseIPv6(text).value| == 8
    ensures ReservedText(Bare(text)) <==> ReservedGroups(ParseIPv6(text).value)
  {
    NoColonNoGroups(text);
    SplitFirstColon(text);
    if Bare(text) != text {
      var network := text[7..];
      assert text == MAPPED_PREFIX + network;
      MappedTextParses(network);
      QuadText(network);
      MappedBack(ParseIPv4(network).value);
    }
  }

  /** A dotted quad is decided as the mapped address that embeds it. */
  lemma DottedDecidedAsMapped(address: string)
    requires ParseIPv4(Trim(address)).Some?
    ensures IsReservedAddress(address) <==> ReservedGroups(Mapped(ParseIPv4(Trim(address)).value))
  {
    DottedNormal(address);
    QuadText(Trim(address));
    MappedBack(ParseIPv4(Trim(address)).value);
  }

  lemma DottedNormal(address: string)
    requires ParseIPv4(Trim(address)).Some?
    ensures Normalize(address) == Trim(address) && address != ""
  {
    QuadText(Trim(address));
    PlainLower(Trim(address));
    BareDotted(Trim(address));
  }

  lemma BareDotted(text: string)
    requires text != "" && text[0] != ':'
    ensures Bare(text) == text
  {
    if |text| > 7 {
      assert text[..7][0] != MAPPED_PREFIX[0];
    }
  }

  /** A reserved IPv4 range is the addresses that share its top bits. */
  lemma ReservedV4Meaning(octets: seq<nat>)
    requires |octets| == 4 && Groups(8, octets)
    ensures ReservedV4(octets)
       <==> exists i | 0 <= i < |RESERVED_V4| :: SharesTop(octets, RESERVED_V4[i].0, RESERVED_V4[i].1)
  {
    forall i | 0 <= i < |RESERVED_V4|
      ensures InV4Network(octets, RESERVED_V4[i]) <==> SharesTop(octets, RESERVED_V4[i].0, RESERVED_V4[i].1)
    {
      TableEntry(i);
      AgreeIsPrefix(8, octets, RESERVED_V4[i].0, RESERVED_V4[i].1);
    }
  }

  ghost predicate SharesTop(octets: seq<nat>, network: seq<nat>, prefix: nat) {
    prefix <= 32 && Value(8, octets) / Pow2(32 - prefix) == Value(8, network) / Pow2(32 - prefix)
  }

  lemma TableEntry(i: nat)
    requires i < |RESERVED_V4|
    ensures |RESERVED_V4[i].0| == 4 && Groups(8, RESERVED_V4[i].0) && RESERVED_V4[i].1 <= 32 && Bits(8, 4) == 32
  {
    assert Pow2(8) == 256;
  }

  /** fc00::/7, fe80::/10 and ff00::/8 as ranges of the leading group. */
  lemma LeadingRanges(g: nat)
    requires g < 0x10000
    ensures And(g, 0xfe00) == 0xfc00 <==> 0xfc00 <= g <= 0xfdff
    ensures And(g, 0xffc0) == 0xfe80 <==> 0xfe80 <= g <= 0xfebf
    ensures And(g, 0xff00) == 0xff00 <==> 0xff00 <= g <= 0xffff
  {
    assert Pow2(6) == 64 && Pow2(8) == 256 && Pow2(9) == 512;
    LeadingRange(g, 9, 512, 126, 0xfc00, 0xfe00);
    LeadingRange(g, 6, 64, 1018, 0xfe80, 0xffc0);
    LeadingRange(g, 8, 256, 255, 0xff00, 0xff00);
  }

  lemma LeadingRange(g: nat, k: nat, size: nat, q: nat, base: nat, mask: nat)
    requires g < 0x10000 && k <= 9 && size == Pow2(k) && base == q * size && mask + size == 0x10000
    ensures And(g, mask) == base <==> base <= g < base + size
  {
    assert Pow2(8) == 256 && Pow2(16) == 0x10000;
    AndMask(g, 16, k);
    HighLow(g, k);
    if base <= g < base + size {
      LowUnique(g, k, q, g - base);
    }
  }
}
