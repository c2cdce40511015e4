/** The search for a nonce in DER bytes, and what it finds in a well-formed encoding. */
module DerSearch {

  type octet = x: int | 0 <= x < 256

  type Bytes = seq<octet>

  const APPLE_NONCE_OID: Bytes := [0x06, 0x09, 0x2a, 0x86, 0x48, 0x86, 0xf7, 0x63, 0x64, 0x08, 0x02]

  const BOOLEAN: octet := 0x01
  const OCTET_STRING: octet := 0x04
  const SEQUENCE: octet := 0x30

  datatype Error =
    | InvalidLength | UnsupportedLength | TruncatedLength
    | EndOfInput | UnexpectedTag | ValueExceedsBuffer
    | OidNotFound | NonceNotFound

  datatype Read<T> = Ok(value: T) | Failed(error: Error)

  datatype Length = Length(length: int, next: nat)

  datatype Tlv = Tlv(tag: octet, valueStart: nat, valueEnd: int, value: Bytes)

  // ----- reading -----

  /** A 32-bit number read as signed. */
  function ToInt32(x: int): int {
    (x + 0x8000_0000) % 0x1_0000_0000 - 0x8000_0000
  }

  /** Length octets, most significant first, in signed 32-bit arithmetic. */
  function Accumulate(bytes: Bytes): int {
    if bytes == [] then 0
    else ToInt32(Accumulate(bytes[..|bytes| - 1]) * 256) + bytes[|bytes| - 1]
  }

  function ReadLength(buf: Bytes, offset: nat): Read<Length> {
    if offset >= |buf| then Failed(InvalidLength)
    else
      var first := buf[offset];
      if first < 0x80 then Ok(Length(first, offset + 1))
      else
        var byteCount := first - 0x80;
        if byteCount == 0 || byteCount > 4 then Failed(UnsupportedLength)
        else if offset + 1 + byteCount > |buf| then Failed(TruncatedLength)
        else Ok(Length(Accumulate(buf[offset + 1..offset + 1 + byteCount]), offset + 1 + byteCount))
  }

  /** Buffer.subarray: a negative end counts from the end, and an end before the start is empty. */
  function Subarray(buf: Bytes, start: nat, end: int): Bytes
    requires end <= |buf|
  {
    var stop := if end >= 0 then end else if |buf| + end >= 0 then |buf| + end else 0;
    if start <= stop then buf[start..stop] else []
  }

  function ReadTlv(buf: Bytes, offset: int): Read<Tlv> {
    if !(0 <= offset < |buf|) then Failed(EndOfInput)
    else match ReadLength(buf, offset + 1)
      case Failed(e) => Failed(e)
      case Ok(l) =>
        if l.next + l.length > |buf| then Failed(ValueExceedsBuffer)
        else Ok(Tlv(buf[offset], l.next, l.next + l.length, Subarray(buf, l.next, l.next + l.length)))
  }

  function ReadTagged(buf: Bytes, offset: int, tag: octet): Read<Tlv> {
    if !(0 <= offset < |buf|) then Failed(EndOfInput)
    else if buf[offset] != tag then Failed(UnexpectedTag)
    else ReadTlv(buf, offset)
  }

  predicate IsConstructed(tag: octet) { tag / 32 % 2 == 1 }

  datatype Search = Found(nonce: Bytes) | Nothing | Broken(error: Error) | Unfinished

  method ReadDerLength(buf: Bytes, offset: nat) returns (result: Read<Length>)
    ensures result == ReadLength(buf, offset)
    ensures result == Failed(InvalidLength) <==> offset >= |buf|
    ensures result == Failed(UnsupportedLength) <==> offset < |buf| && (buf[offset] == 0x80 || buf[offset] > 0x84)
    ensures result == Failed(TruncatedLength)
       <==> offset < |buf| && 0x80 < buf[offset] <= 0x84 && |buf| - offset <= buf[offset] - 0x80
    ensures result.Ok? ==>
              result.value.next == offset + 1 + (if buf[offset] < 0x80 then 0 else buf[offset] - 0x80) <= |buf|
  {
    if offset >= |buf| {
      return Failed(InvalidLength);
    }
    var first := buf[offset];
    if first < 0x80 {
      return Ok(Length(first, offset + 1));
    }
    var byteCount := first - 0x80;
    if byteCount == 0 || byteCount > 4 {
      return Failed(UnsupportedLength);
    }
    if offset + 1 + byteCount > |buf| {
      return Failed(TruncatedLength);
    }
    var length := 0;
    for i := 0 to byteCount
      invariant length == Accumulate(buf[offset + 1..offset + 1 + i])
    {
      var bytes := buf[offset + 1..offset + 1 + i + 1];
      assert bytes[..i] == buf[offset + 1..offset + 1 + i];
      length := ToInt32(length * 256) + buf[offset + 1 + i];
    }
    return Ok(Length(length, offset + 1 + byteCount));
  }

  /** What stands at each offset of a buffer. */
  type Reader = int -> Read<Tlv>

  function ReaderOf(buf: Bytes): Reader { offset => ReadTlv(buf, offset) }

  /** The element itself, when it is a 32-byte OCTET STRING. */
  function Here(tlv: Tlv): Search {
    if tlv.tag == OCTET_STRING && |tlv.value| == 32 then Found(tlv.value) else Nothing
  }

  /** The search, with a bound on how many elements deep and along it goes. */
  function Find(read: Reader, start: int, end: int, bound: nat): Search
    decreases bound
  {
    if start >= end then Nothing
    else if bound == 0 then Unfinished
    else match read(start)
      case Failed(e) => Broken(e)
      case Ok(tlv) =>
        var nested := if IsConstructed(tlv.tag) then Find(read, tlv.valueStart, tlv.valueEnd, bound - 1) else Nothing;
        if Here(tlv) != Nothing then Here(tlv)
        else if nested != Nothing then nested
        else Find(read, tlv.valueEnd, end, bound - 1)
  }

  /** A bound that is reached only by a search that never ends; see DerTermination. */
  function Enough(size: nat): (bound: nat)
    ensures bound > size
  {
    size * (size + 1) + 1
  }

  method FindWithin(read: Reader, start: int, end: int, bound: nat) returns (search: Search)
    ensures search == Find(read, start, end, bound)
    decreases bound
  {
    var cursor, left: nat := start, bound;
    while cursor < end
      invariant Find(read, start, end, bound) == Find(read, cursor, end, left)
      invariant left <= bound
      decreases left
    {
      if left == 0 {
        return Unfinished;
      }
      var tlv := read(cursor);
      if tlv.Failed? {
        return Broken(tlv.error);
      }
      if tlv.value.tag == OCTET_STRING {
        if |tlv.value.value| == 32 {
          return Found(tlv.value.value);
        }
      }
      if IsConstructed(tlv.value.tag) {
        var nested := FindWithin(read, tlv.value.valueStart, tlv.value.valueEnd, left - 1);
        if nested != Nothing {
          return nested;
        }
      }
      cursor := tlv.value.valueEnd;
      left := left - 1;
    }
    return Nothing;
  }

  // ----- what it finds -----

  /** A definite-length element: tag, length octets, contents; section 8.1 of X.690. */
  datatype Element =
    | Primitive(tag: octet, lengthOctets: Bytes, content: Bytes)
    | Constructed(tag: octet, lengthOctets: Bytes, children: Elements)

  datatype Elements = None | Some(head: Element, tail: Elements)

  /** An unsigned number, most significant octet first. */
  function BigEndian(bytes: Bytes): nat {
    if bytes == [] then 0 else BigEndian(bytes[..|bytes| - 1]) * 256 + bytes[|bytes| - 1]
  }

  /** Length octets that stand for n, in the short form or in the long form with up to
      four octets; section 8.1.3 of X.690.  Lengths from 2^31 on are not covered. */
  predicate IsLength(octets: Bytes, n: nat) {
    if |octets| == 1 then octets[0] == n < 0x80
    else 2 <= |octets| <= 5 && octets[0] == 0x80 + |octets| - 1 && BigEndian(octets[1..]) == n < 0x8000_0000
  }

  function Content(e: Element): Bytes
    decreases e, 0
  {
    match e case Primitive(_, _, content) => content case Constructed(_, _, children) => EncodeAll(children)
  }

  function Header(e: Element): Bytes { [e.tag] + e.lengthOctets }

  function Encode(e: Element): Bytes
    decreases e, 1
  {
    Header(e) + Content(e)
  }

  function EncodeAll(es: Elements): Bytes
    decreases es, 2
  {
    match es
    case None => []
    case Some(head, tail) => Encode(head) + EncodeAll(tail)
  }

  predicate Valid(e: Element) {
    match e
    case Primitive(tag, lengthOctets, content) => !IsConstructed(tag) && IsLength(lengthOctets, |content|)
    case Constructed(tag, lengthOctets, children) =>
      IsConstructed(tag) && IsLength(lengthOctets, |EncodeAll(children)|) && ValidAll(children)
  }

  predicate ValidAll(es: Elements) {
    match es
    case None => true
    case Some(head, tail) => Valid(head) && ValidAll(tail)
  }

  /** The first 32-byte OCTET STRING, in the order the bytes come. */
  function First(e: Element): Search {
    match e
    case Primitive(tag, _, content) => if tag == OCTET_STRING && |content| == 32 then Found(content) else Nothing
    case Constructed(_, _, children) => FirstAll(children)
  }

  function FirstAll(es: Elements): Search {
    match es
    case None => Nothing
    case Some(head, tail) => if First(head) != Nothing then First(head) else FirstAll(tail)
  }

  function Size(e: Element): nat {
    match e
    case Primitive(_, _, _) => 1
    case Constructed(_, _, children) => 1 + SizeAll(children)
  }

  function SizeAll(es: Elements): nat {
    match es
    case None => 0
    case Some(head, tail) => Size(head) + SizeAll(tail)
  }

  // ----- headers read back -----

  /** Below 2^31 the signed arithmetic is the unsigned number. */
  lemma {:induction false} NoWrap(bytes: Bytes)
    requires BigEndian(bytes) < 0x8000_0000
    ensures Accumulate(bytes) == BigEndian(bytes)
    decreases |bytes|
  {
    if bytes != [] {
      NoWrap(bytes[..|bytes| - 1]);
    }
  }

  lemma LengthReads(buf: Bytes, offset: nat, octets: Bytes, n: nat)
    requires IsLength(octets, n) && Holds(buf, offset, octets)
    ensures ReadLength(buf, offset) == Ok(Length(n, offset + |octets|))
  {
    var held := buf[offset..offset + |octets|];
    assert held[0] == buf[offset];
    if |octets| > 1 {
      NoWrap(octets[1..]);
      assert buf[offset + 1..offset + |octets|] == held[1..];
    }
  }

  /** buf holds piece at offset. */
  predicate Holds(buf: Bytes, offset: nat, piece: Bytes) {
    offset + |piece| <= |buf| && buf[offset..offset + |piece|] == piece
  }

  lemma HoldsParts(buf: Bytes, offset: nat, a: Bytes, b: Bytes)
    requires Holds(buf, offset, a + b)
    ensures Holds(buf, offset, a) && Holds(buf, offset + |a|, b)
  {
    var whole := buf[offset..offset + |a + b|];
    assert whole[..|a|] == a && whole[|a|..] == b;
    assert buf[offset..offset + |a|] == whole[..|a|];
    assert buf[offset + |a|..offset + |a| + |b|] == whole[|a|..];
  }

  lemma TlvReads(buf: Bytes, start: nat, tag: octet, octets: Bytes, content: Bytes)
    requires IsLength(octets, |content|) && Holds(buf, start, [tag] + octets + content)
    ensures var valueStart := start + 1 + |octets|;
            ReadTlv(buf, start) == Ok(Tlv(tag, valueStart, valueStart + |content|, content))
    ensures start < |buf| && buf[start] == tag
  {
    HoldsParts(buf, start, [tag] + octets, content);
    HoldsParts(buf, start, [tag], octets);
    LengthReads(buf, start + 1, octets, |content|);
    assert buf[start] == buf[start..start + 1][0];
  }

  /** The reader reads every valid element that the buffer holds. */
  ghost predicate ReadsElements(read: Reader, buf: Bytes) {
    forall start: nat, e: Element :: ReadsHere(read, buf, start, e)
  }

  predicate ReadsHere(read: Reader, buf: Bytes, start: nat, e: Element) {
    Valid(e) && Holds(buf, start, Encode(e)) ==> read(start) == Ok(TlvOf(e, start))
  }

  function TlvOf(e: Element, start: nat): Tlv {
    Tlv(e.tag, start + |Header(e)|, start + |Encode(e)|, Content(e))
  }

  lemma ReaderReads(buf: Bytes)
    ensures ReadsElements(ReaderOf(buf), buf)
  {
    forall start: nat, e: Element
      ensures ReadsHere(ReaderOf(buf), buf, start, e)
    {
      ReaderHere(buf, start, e);
    }
  }

  lemma ReaderHere(buf: Bytes, start: nat, e: Element)
    ensures ReadsHere(ReaderOf(buf), buf, start, e)
  {
    if Valid(e) && Holds(buf, start, Encode(e)) {
      TlvReads(buf, start, e.tag, e.lengthOctets, Content(e));
    }
  }

  lemma ElementHolds(buf: Bytes, start: nat, e: Element)
    requires Holds(buf, start, Encode(e))
    ensures |Encode(e)| == |Header(e)| + |Content(e)| && Holds(buf, start + |Header(e)|, Content(e))
  {
    HoldsParts(buf, start, Header(e), Content(e));
  }

  /** One element of a list, given what the search finds inside it. */
  lemma FindsHere(read: Reader, start: nat, end: int, e: Element, after: nat, bound: nat)
    requires Valid(e) && start < end && bound > 0
    requires read(start) == Ok(TlvOf(e, start)) && after == start + |Encode(e)|
    requires e.Constructed? ==> Find(read, start + |Header(e)|, after, bound - 1) == FirstAll(e.children)
    ensures Find(read, start, end, bound) == if First(e) != Nothing then First(e) else Find(read, after, end, bound - 1)
  {
    assert e.Constructed? ==> IsConstructed(e.tag) && !IsConstructed(OCTET_STRING);
  }

  /** The buffer holds each of these elements in its place. */
  predicate Framed(buf: Bytes, start: nat, es: Elements)
    decreases es
  {
    match es
    case None => true
    case Some(e, rest) =>
      && Holds(buf, start, Encode(e))
      && (e.Constructed? ==> Framed(buf, start + |Header(e)|, e.children))
      && Framed(buf, start + |Encode(e)|, rest)
  }

  lemma {:induction false} EncodingIsFramed(buf: Bytes, start: nat, es: Elements)
    requires Holds(buf, start, EncodeAll(es))
    ensures Framed(buf, start, es)
    decreases es
  {
    if es.Some? {
      HoldsParts(buf, start, Encode(es.head), EncodeAll(es.tail));
      if es.head.Constructed? {
        ElementHolds(buf, start, es.head);
        EncodingIsFramed(buf, start + |Header(es.head)|, es.head.children);
      }
      EncodingIsFramed(buf, start + |Encode(es.head)|, es.tail);
    }
  }

  lemma EncodeSplit(e: Element)
    ensures |Encode(e)| == |Header(e)| + |Content(e)|
  {
  }

  lemma {:induction false} FindsFramed(read: Reader, buf: Bytes, start: nat, es: Elements, bound: nat)
    requires ReadsElements(read, buf) && ValidAll(es) && Framed(buf, start, es) && bound >= SizeAll(es)
    ensures Find(read, start, start + |EncodeAll(es)|, bound) == FirstAll(es)
    decreases es
  {
    if es.Some? {
      var e := es.head;
      var after, end := start + |Encode(e)|, start + |EncodeAll(es)|;
      assert read(start) == Ok(TlvOf(e, start)) by {
        assert ReadsHere(read, buf, start, e);
      }
      EncodeSplit(e);
      if e.Constructed? {
        FindsFramed(read, buf, start + |Header(e)|, e.children, bound - 1);
      }
      FindsHere(read, start, end, e, after, bound);
      FindsFramed(read, buf, after, es.tail, bound - 1);
    }
  }

  lemma FindsReading(read: Reader, buf: Bytes, start: nat, es: Elements, bound: nat)
    requires ReadsElements(read, buf) && ValidAll(es) && Holds(buf, start, EncodeAll(es)) && bound >= SizeAll(es)
    ensures Find(read, start, start + |EncodeAll(es)|, bound) == FirstAll(es)
  {
    EncodingIsFramed(buf, start, es);
    FindsFramed(read, buf, start, es, bound);
  }

  /** The search through a whole buffer. */
  function SearchIn(buf: Bytes): Search { Find(ReaderOf(buf), 0, |buf|, Enough(|buf|)) }

  /** In a well-formed encoding the search finds the first 32-byte OCTET STRING in
      pre-order, or nothing when there is none. */
  lemma FindsFirst(es: Elements)
    requires ValidAll(es)
    ensures SearchIn(EncodeAll(es)) == FirstAll(es)
  {
    var buf := EncodeAll(es);
    assert buf[0..0 + |buf|] == buf;
    SizeFits(es);
    ReaderReads(buf);
    FindsReading(ReaderOf(buf), buf, 0, es, Enough(|buf|));
  }

  lemma {:induction false} SizeFits(es: Elements)
    ensures SizeAll(es) <= |EncodeAll(es)|
    decreases es
  {
    if es.Some? {
      if es.head.Constructed? {
        SizeFits(es.head.children);
      }
      SizeFits(es.tail);
      EncodeSplit(es.head);
    }
  }

  // ----- the nonce of a certificate -----

  /** The first place a pattern stands, if any. */
  function IndexOf(buf: Bytes, pattern: Bytes, from: nat): (at: int)
    ensures at == -1 || from <= at <= |buf| - |pattern|
    decreases |buf| - from
  {
    if from + |pattern| > |buf| then -1
    else if buf[from..from + |pattern|] == pattern then from
    else IndexOf(buf, pattern, from + 1)
  }

  predicate StandsAt(buf: Bytes, pattern: Bytes, i: nat) {
    i + |pattern| <= |buf| && buf[i..i + |pattern|] == pattern
  }

  /** The pattern stands where it is found, and nowhere before; if it is not found, nowhere. */
  lemma {:induction false} IndexOfIsFirst(buf: Bytes, pattern: Bytes, from: nat)
    ensures var at := IndexOf(buf, pattern, from);
            && (at >= 0 ==> StandsAt(buf, pattern, at))
            && forall i: nat | i >= from && StandsAt(buf, pattern, i) :: 0 <= at <= i
    decreases |buf| - from
  {
    if from + |pattern| <= |buf| && !StandsAt(buf, pattern, from) {
      IndexOfIsFirst(buf, pattern, from + 1);
    }
  }

  function Extract(cert: Bytes): Search {
    match ExtensionValue(cert)
    case Failed(e) => Broken(e)
    case Ok(value) => NonceOr(SearchIn(value))
  }

  /** The octets of the Apple extension. */
  function ExtensionValue(cert: Bytes): Read<Bytes> {
    var oidIdx := IndexOf(cert, APPLE_NONCE_OID, 0);
    if oidIdx == -1 then Failed(OidNotFound)
    else
      match ExtensionStart(cert, oidIdx + |APPLE_NONCE_OID|)
      case Failed(e) => Failed(e)
      case Ok(pos) => ExtensionAt(cert, pos)
  }

  /** An optional critical flag comes before the extension's octets. */
  function ExtensionStart(cert: Bytes, pos: nat): Read<int> {
    if pos < |cert| && cert[pos] == BOOLEAN then
      match ReadTagged(cert, pos, BOOLEAN)
      case Failed(e) => Failed(e)
      case Ok(critical) => Ok(critical.valueEnd)
    else Ok(pos)
  }

  function ExtensionAt(cert: Bytes, pos: int): Read<Bytes> {
    match ReadTagged(cert, pos, OCTET_STRING)
    case Failed(e) => Failed(e)
    case Ok(ext) => Ok(ext.value)
  }

  function NonceOr(search: Search): Search {
    if search == Nothing then Broken(NonceNotFound) else search
  }

  // ----- certificates without a nonce -----

  lemma {:induction false} SearchErrors(buf: Bytes, start: int, end: int, bound: nat)
    ensures var search := Find(ReaderOf(buf), start, end, bound);
            search.Broken? ==> search.error !in {OidNotFound, NonceNotFound, UnexpectedTag}
    decreases bound
  {
    if start < end && bound > 0 && ReadTlv(buf, start).Ok? {
      var tlv := ReadTlv(buf, start).value;
      SearchErrors(buf, tlv.valueStart, tlv.valueEnd, bound - 1);
      SearchErrors(buf, tlv.valueEnd, end, bound - 1);
    }
  }

  /** The identifier is reported missing exactly when it stands nowhere. */
  lemma MissingExactly(cert: Bytes)
    ensures Extract(cert) == Broken(OidNotFound) <==> forall i: nat :: !StandsAt(cert, APPLE_NONCE_OID, i)
  {
    IndexOfIsFirst(cert, APPLE_NONCE_OID, 0);
    if ExtensionValue(cert).Ok? {
      var value := ExtensionValue(cert).value;
      SearchErrors(value, 0, |value|, Enough(|value|));
    }
  }

  /** After the first identifier, and after the critical flag if there is one, nothing but an
      OCTET STRING is an extension. */
  lemma WrongTagRefused(cert: Bytes, at: nat, pos: int)
    requires StandsAt(cert, APPLE_NONCE_OID, at) && forall i: nat | i < at :: !StandsAt(cert, APPLE_NONCE_OID, i)
    requires var next := at + 11;
             if next < |cert| && cert[next] == 0x01
             then ReadTlv(cert, next).Ok? && pos == ReadTlv(cert, next).value.valueEnd
             else pos == next
    ensures !(0 <= pos < |cert|) ==> Extract(cert) == Broken(EndOfInput)
    ensures 0 <= pos < |cert| && cert[pos] != 0x04 ==> Extract(cert) == Broken(UnexpectedTag)
    ensures 0 <= pos < |cert| && cert[pos] == 0x04 && ReadTlv(cert, pos).Failed? ==>
              Extract(cert) == Broken(ReadTlv(cert, pos).error)
  {
    IndexOfIsFirst(cert, APPLE_NONCE_OID, 0);
  }

  /** The extension of a certificate: its identifier, perhaps a critical flag, and the
      octets that hold the elements es. */
  datatype Extension = Extension(critical: Elements, lengthOctets: Bytes, es: Elements)

  predicate ValidExtension(x: Extension) {
    && ValidAll(x.critical) && ValidAll(x.es) && IsLength(x.lengthOctets, |EncodeAll(x.es)|)
    && (x.critical.None? || (x.critical.tail.None? && x.critical.head.Primitive? && x.critical.head.tag == BOOLEAN))
  }

  function EncodeExtension(x: Extension): Bytes {
    APPLE_NONCE_OID + (EncodeAll(x.critical) + Encode(Primitive(OCTET_STRING, x.lengthOctets, EncodeAll(x.es))))
  }

  lemma TaggedReads(buf: Bytes, start: nat, tag: octet, octets: Bytes, content: Bytes)
    requires IsLength(octets, |content|) && Holds(buf, start, Encode(Primitive(tag, octets, content)))
    ensures var valueStart := start + 1 + |octets|;
            ReadTagged(buf, start, tag) == Ok(Tlv(tag, valueStart, valueStart + |content|, content))
    ensures start < |buf| && buf[start] == tag
  {
    assert Encode(Primitive(tag, octets, content)) == [tag] + octets + content;
    TlvReads(buf, start, tag, octets, content);
  }

  lemma ExtensionFound(cert: Bytes, pos: nat, x: Extension)
    requires ValidExtension(x)
    requires Holds(cert, pos, Encode(Primitive(OCTET_STRING, x.lengthOctets, EncodeAll(x.es))))
    ensures ExtensionAt(cert, pos) == Ok(EncodeAll(x.es))
  {
    TaggedReads(cert, pos, OCTET_STRING, x.lengthOctets, EncodeAll(x.es));
  }

  /** Whatever a certificate holds before and after its Apple extension, the nonce is the
      first 32-byte OCTET STRING of that extension. */
  lemma ExtractFindsNonce(before: Bytes, x: Extension, after: Bytes)
    requires ValidExtension(x)
    requires IndexOf(before + EncodeExtension(x) + after, APPLE_NONCE_OID, 0) == |before|
    ensures Extract(before + EncodeExtension(x) + after)
         == if FirstAll(x.es) == Nothing then Broken(NonceNotFound) else FirstAll(x.es)
  {
    var cert := before + EncodeExtension(x) + after;
    HoldsMiddle(before, EncodeExtension(x), after);
    ExtensionHolds(cert, |before|, x);
    ExtensionRead(cert, |before|, x);
    FindsFirst(x.es);
  }

  lemma ValueAt(cert: Bytes, at: nat, start: int)
    requires IndexOf(cert, APPLE_NONCE_OID, 0) == at && ExtensionStart(cert, at + |APPLE_NONCE_OID|) == Ok(start)
    ensures ExtensionValue(cert) == ExtensionAt(cert, start)
  {
  }

  /** A certificate holds the parts of an extension after its identifier. */
  ghost predicate HoldsExtension(cert: Bytes, pos: nat, x: Extension) {
    && Holds(cert, pos, EncodeAll(x.critical))
    && Holds(cert, pos + |EncodeAll(x.critical)|, Encode(Primitive(OCTET_STRING, x.lengthOctets, EncodeAll(x.es))))
  }

  lemma ExtensionRead(cert: Bytes, at: nat, x: Extension)
    requires ValidExtension(x) && IndexOf(cert, APPLE_NONCE_OID, 0) == at
    requires HoldsExtension(cert, at + |APPLE_NONCE_OID|, x)
    ensures ExtensionValue(cert) == Ok(EncodeAll(x.es))
  {
    var pos := at + |APPLE_NONCE_OID|;
    ExtensionStarts(cert, pos, x);
    ExtensionFound(cert, pos + |EncodeAll(x.critical)|, x);
    ValueAt(cert, at, pos + |EncodeAll(x.critical)|);
  }

  lemma HoldsMiddle(before: Bytes, piece: Bytes, after: Bytes)
    ensures Holds(before + piece + after, |before|, piece)
  {
  }

  lemma ExtensionHolds(cert: Bytes, at: nat, x: Extension)
    requires Holds(cert, at, EncodeExtension(x))
    ensures HoldsExtension(cert, at + |APPLE_NONCE_OID|, x)
  {
    var octets := Encode(Primitive(OCTET_STRING, x.lengthOctets, EncodeAll(x.es)));
    HoldsParts(cert, at, APPLE_NONCE_OID, EncodeAll(x.critical) + octets);
    HoldsParts(cert, at + |APPLE_NONCE_OID|, EncodeAll(x.critical), octets);
  }

  /** The extension's octets start after the flag, if there is one. */
  lemma ExtensionStarts(cert: Bytes, pos: nat, x: Extension)
    requires ValidExtension(x) && Holds(cert, pos, EncodeAll(x.critical))
    requires Holds(cert, pos + |EncodeAll(x.critical)|,
                   Encode(Primitive(OCTET_STRING, x.lengthOctets, EncodeAll(x.es))))
    ensures ExtensionStart(cert, pos) == Ok(pos + |EncodeAll(x.critical)|)
  {
    if x.critical.Some? {
      assert Valid(x.critical.head);
      EncodeOne(x.critical.head);
      FlagSkipped(cert, pos, x.critical.head.lengthOctets, x.critical.head.content);
    } else {
      TaggedReads(cert, pos, OCTET_STRING, x.lengthOctets, EncodeAll(x.es));
    }
  }

  lemma FlagSkipped(cert: Bytes, pos: nat, lengthOctets: Bytes, content: Bytes)
    requires IsLength(lengthOctets, |content|) && Holds(cert, pos, Encode(Primitive(BOOLEAN, lengthOctets, content)))
    ensures ExtensionStart(cert, pos) == Ok(pos + |Encode(Primitive(BOOLEAN, lengthOctets, content))|)
  {
    TaggedReads(cert, pos, BOOLEAN, lengthOctets, content);
  }

  function BuildAppleNonceDer(nonce: Bytes): Bytes
    requires |nonce| == 32
  {
    var innerOctet := [OCTET_STRING, |nonce|] + nonce;
    var innerSeq := [SEQUENCE, |innerOctet|] + innerOctet;
    var outerSeq := [SEQUENCE, |innerSeq|] + innerSeq;
    var extValue := [OCTET_STRING, |outerSeq|] + outerSeq;
    APPLE_NONCE_OID + extValue
  }

  /** Extracting what was built gives the nonce back. */
  lemma ExtractInvertsBuild(nonce: Bytes)
    requires |nonce| == 32
    ensures Extract(BuildAppleNonceDer(nonce)) == Found(nonce)
  {
    var x := NonceExtension(nonce);
    var der := BuildAppleNonceDer(nonce);
    assert [] + EncodeExtension(x) + [] == der;
    assert der[0..0 + |APPLE_NONCE_OID|] == APPLE_NONCE_OID;
    ExtractFindsNonce([], x, []);
  }

  /** SEQUENCE { SEQUENCE { OCTET STRING nonce } } */
  lemma NonceExtension(nonce: Bytes) returns (x: Extension)
    requires |nonce| == 32
    ensures ValidExtension(x) && FirstAll(x.es) == Found(nonce) && EncodeExtension(x) == BuildAppleNonceDer(nonce)
  {
    var leaf := Some(Primitive(OCTET_STRING, [32], nonce), None);
    var inner := Some(Constructed(SEQUENCE, [34], leaf), None);
    EncodeOne(leaf.head);
    assert EncodeAll(leaf) == [OCTET_STRING, 32] + nonce;
    Wrapped(leaf, 34);
    Wrapped(inner, 36);
    var outer := Some(Constructed(SEQUENCE, [36], inner), None);
    x := Extension(None, [38], outer);
    BuiltFrom(nonce, outer);
  }

  lemma BuiltFrom(nonce: Bytes, outer: Elements)
    requires |nonce| == 32
    requires EncodeAll(outer) == [SEQUENCE, 36] + ([SEQUENCE, 34] + ([OCTET_STRING, 32] + nonce))
    ensures EncodeExtension(Extension(None, [38], outer)) == BuildAppleNonceDer(nonce)
  {
    assert [OCTET_STRING] + [38] + EncodeAll(outer) == [OCTET_STRING, 38] + EncodeAll(outer);
    assert [] + Encode(Primitive(OCTET_STRING, [38], EncodeAll(outer)))
        == Encode(Primitive(OCTET_STRING, [38], EncodeAll(outer)));
  }

  /** A short SEQUENCE around valid elements. */
  lemma Wrapped(es: Elements, n: octet)
    requires ValidAll(es) && |EncodeAll(es)| == n < 0x80
    ensures var outer := Some(Constructed(SEQUENCE, [n], es), None);
            && ValidAll(outer) && FirstAll(outer) == FirstAll(es)
            && EncodeAll(outer) == [SEQUENCE, n] + EncodeAll(es)
  {
    EncodeOne(Constructed(SEQUENCE, [n], es));
    assert IsConstructed(SEQUENCE);
    assert [SEQUENCE] + [n] == [SEQUENCE, n];
  }

  lemma EncodeOne(e: Element)
    ensures EncodeAll(Some(e, None)) == Encode(e)
  {
    assert Encode(e) + [] == Encode(e);
  }
}
