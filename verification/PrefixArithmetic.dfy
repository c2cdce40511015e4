/** Masked comparison of addresses, group by group, and what it means for the address as
    one number. */
module PrefixArithmetic {

  function Pow2(n: nat): (r: nat)
    ensures r >= 1
  {
    if n == 0 then 1 else 2 * Pow2(n - 1)
  }

  /** Bitwise and, from the low bit up. */
  function And(x: nat, y: nat): nat {
    if x == 0 || y == 0 then 0
    else 2 * And(x / 2, y / 2) + (if x % 2 == 1 && y % 2 == 1 then 1 else 0)
  }

  /** x << k */
  function ShiftLeft(x: nat, k: nat): nat
    decreases k
  {
    if k == 0 then x else ShiftLeft(2 * x, k - 1)
  }

  /** The mask that keeps the top bits of a group. */
  function Mask(width: nat, bits: nat): nat
    requires bits <= width
  {
    And(ShiftLeft(Pow2(width) - 1, width - bits), Pow2(width) - 1)
  }

  function Min(a: int, b: int): int { if a < b then a else b }
  function Max(a: int, b: int): int { if a > b then a else b }

  predicate Groups(width: nat, gs: seq<nat>) {
    forall i | 0 <= i < |gs| :: gs[i] < Pow2(width)
  }

  /** The number of bits in n groups. */
  function Bits(width: nat, n: nat): nat {
    if n == 0 then 0 else width + Bits(width, n - 1)
  }

  /** The address as one number, most significant group first. */
  function Value(width: nat, gs: seq<nat>): nat {
    if gs == [] then 0 else gs[0] * Pow2(Bits(width, |gs| - 1)) + Value(width, gs[1..])
  }

  // ----- the low k bits and the rest -----

  function Low(x: nat, k: nat): nat {
    if k == 0 then 0 else 2 * Low(x / 2, k - 1) + x % 2
  }

  function High(x: nat, k: nat): nat {
    if k == 0 then x else High(x / 2, k - 1)
  }

  lemma {:induction false} HighLow(x: nat, k: nat)
    ensures x == High(x, k) * Pow2(k) + Low(x, k) && Low(x, k) < Pow2(k)
    decreases k
  {
    if k > 0 {
      HighLow(x / 2, k - 1);
      DoubleSplit(x, High(x / 2, k - 1), Pow2(k - 1), Low(x / 2, k - 1));
    }
  }

  lemma DoubleSplit(x: nat, q: nat, p: nat, l: nat)
    requires x / 2 == q * p + l
    ensures x == q * (2 * p) + (2 * l + x % 2)
  {
    assert q * (2 * p) == 2 * (q * p);
  }

  /** A nonzero multiple of d is at least d away from zero. */
  lemma MulBounds(n: int, d: int)
    requires d > 0
    ensures n >= 1 ==> n * d >= d
    ensures n <= -1 ==> n * d <= -d
  {
    if n >= 1 {
      assert (n - 1) * d >= 0;
    } else if n <= -1 {
      assert (-1 - n) * d >= 0;
    }
  }

  /** A number has one quotient and one remainder. */
  lemma Unique(d: int, q: int, r: int, q1: int, r1: int)
    requires 0 <= r < d && 0 <= r1 < d && q * d + r == q1 * d + r1
    ensures q == q1 && r == r1
  {
    assert (q - q1) * d == r1 - r;
    MulBounds(q - q1, d);
  }

  lemma Quotient(x: int, d: int, q: int, r: int)
    requires 0 <= r < d && x == q * d + r
    ensures x / d == q
  {
    assert x == (x / d) * d + x % d;
    Unique(d, q, r, x / d, x % d);
  }

  lemma HighIsDiv(x: nat, k: nat)
    ensures High(x, k) == x / Pow2(k)
  {
    HighLow(x, k);
    Quotient(x, Pow2(k), High(x, k), Low(x, k));
  }

  // Products, with the powers of two left as variables.

  lemma MaskProduct(a: int, b: int)
    ensures (a - 1) * b == (b - 1) * a + (a - b)
  {
  }

  lemma BelowProduct(g: int, w: int, p: int, v: int)
    requires 0 <= g < w && 0 <= v < p
    ensures g * p + v < w * p
  {
    NonNegative(w - 1 - g, p);
    assert (w - 1 - g) * p == w * p - g * p - p;
  }

  lemma NonNegative(a: int, b: int)
    ensures a >= 0 && b >= 0 ==> a * b >= 0
  {
  }

  lemma SplitProduct(g: int, p: int, d: int, h: int, l: int)
    ensures g * (p * d) + (h * d + l) == (g * p + h) * d + l
  {
    assert g * (p * d) == (g * p) * d;
  }

  lemma BelowQuotient(h: int, d: int, l: int, p: int)
    requires d > 0 && l >= 0 && h * d + l < p * d
    ensures h < p
  {
    NonNegative(h - p, d);
    assert (h - p) * d == h * d - p * d;
  }

  lemma LeadProduct(q: int, m: int, r: int, d: int, v: int)
    requires 0 <= r < m && 0 <= v < d
    ensures (q * m + r) * d + v == q * (d * m) + (r * d + v)
    ensures 0 <= r * d + v < d * m
  {
    assert (q * m) * d == q * (d * m);
    BelowProduct(r, m, d, v);
    assert r * d >= 0;
  }

  lemma {:induction false} PowAdd(a: nat, b: nat)
    ensures Pow2(a + b) == Pow2(a) * Pow2(b)
  {
    if a > 0 {
      PowAdd(a - 1, b);
      assert 2 * (Pow2(a - 1) * Pow2(b)) == (2 * Pow2(a - 1)) * Pow2(b);
    }
  }

  lemma {:induction false} PowGrows(k: nat, w: nat)
    requires k <= w
    ensures Pow2(k) <= Pow2(w)
    decreases w - k
  {
    if k < w {
      PowGrows(k + 1, w);
    }
  }

  // ----- what a mask keeps -----

  lemma {:induction false} AndLow(y: nat, w: nat)
    ensures And(y, Pow2(w) - 1) == Low(y, w)
    decreases w
  {
    if w > 0 {
      AndLow(y / 2, w - 1);
      var h := Pow2(w - 1);
      assert (2 * h - 1) / 2 == h - 1 && (2 * h - 1) % 2 == 1;
      if y == 0 {
        LowOfZero(w);
      }
    }
  }

  lemma {:induction false} LowOfZero(w: nat)
    ensures Low(0, w) == 0
  {
    if w > 0 {
      LowOfZero(w - 1);
    }
  }

  lemma LowUnique(x: nat, k: nat, q: nat, r: nat)
    requires r < Pow2(k) && x == q * Pow2(k) + r
    ensures Low(x, k) == r && High(x, k) == q
  {
    HighLow(x, k);
    Unique(Pow2(k), High(x, k), Low(x, k), q, r);
  }

  lemma {:induction false} ShiftLeftValue(x: nat, k: nat)
    ensures ShiftLeft(x, k) == x * Pow2(k)
    decreases k
  {
    if k > 0 {
      ShiftLeftValue(2 * x, k - 1);
      DoubleMoves(x, Pow2(k - 1));
    }
  }

  lemma DoubleMoves(x: nat, p: nat)
    ensures (2 * x) * p == x * (2 * p)
  {
  }

  lemma MaskValue(width: nat, bits: nat)
    requires 0 < bits <= width
    ensures Mask(width, bits) == Pow2(width) - Pow2(width - bits)
  {
    var a, b := Pow2(width), Pow2(width - bits);
    var y := ShiftLeft(a - 1, width - bits);
    ShiftLeftValue(a - 1, width - bits);
    AndLow(y, width);
    PowGrows(width - bits, width);
    MaskProduct(a, b);
    LowUnique(y, width, b - 1, a - b);
  }

  /** Masking clears the low bits and nothing else. */
  lemma {:induction false} AndMask(x: nat, w: nat, k: nat)
    requires k <= w && x < Pow2(w)
    ensures Pow2(k) <= Pow2(w) && And(x, Pow2(w) - Pow2(k)) == x - Low(x, k)
    decreases k
  {
    PowGrows(k, w);
    if k == 0 {
      AndLow(x, w);
      LowUnique(x, w, 0, x);
    } else if x == 0 {
      LowOfZero(k);
    } else {
      AndMask(x / 2, w - 1, k - 1);
      var g, h := Pow2(w - 1), Pow2(k - 1);
      assert (2 * g - 2 * h) / 2 == g - h && (2 * g - 2 * h) % 2 == 0;
      if g == h {
        LowUnique(x, k, 0, x);
      }
    }
  }

  /** Equal under the mask means equal top bits. */
  lemma MaskedEqual(width: nat, bits: nat, x: nat, y: nat)
    requires 0 < bits <= width && x < Pow2(width) && y < Pow2(width)
    ensures SameMasked(width, bits, x, y)
       <==> High(x, width - bits) == High(y, width - bits)
  {
    var k := width - bits;
    MaskValue(width, bits);
    AndMask(x, width, k);
    AndMask(y, width, k);
    HighLow(x, k);
    HighLow(y, k);
    if High(x, k) * Pow2(k) == High(y, k) * Pow2(k) {
      Unique(Pow2(k), High(x, k), 0, High(y, k), 0);
    }
  }

  // ----- groups and prefixes -----

  lemma {:induction false} ValueBound(width: nat, gs: seq<nat>)
    requires Groups(width, gs)
    ensures Value(width, gs) < Pow2(Bits(width, |gs|))
    decreases |gs|
  {
    if gs != [] {
      ValueBound(width, gs[1..]);
      var p := Pow2(Bits(width, |gs| - 1));
      PowAdd(width, Bits(width, |gs| - 1));
      BelowProduct(gs[0], Pow2(width), p, Value(width, gs[1..]));
    }
  }

  predicate SameMasked(width: nat, bits: nat, x: nat, y: nat)
    requires bits <= width
  {
    And(x, Mask(width, bits)) == And(y, Mask(width, bits))
  }

  /** What the comparison decides: the groups agree as far as the prefix reaches. */
  predicate Agree(width: nat, a: seq<nat>, b: seq<nat>, prefix: nat)
    requires |a| == |b|
    decreases |a|
  {
    if a == [] || prefix == 0 then true
    else
      var bits := Min(width, prefix);
      SameMasked(width, bits, a[0], b[0]) && Agree(width, a[1..], b[1..], prefix - bits)
  }

  /** The leading group, when a shift takes nothing of it: value = g * 2^(shift + rest) + v. */
  lemma HighSplit(g: nat, v: nat, bits: nat, shift: nat)
    requires shift <= bits && v < Pow2(bits)
    ensures High(g * Pow2(bits) + v, shift) == g * Pow2(bits - shift) + High(v, shift)
    ensures High(v, shift) < Pow2(bits - shift)
  {
    var p, d := Pow2(bits - shift), Pow2(shift);
    PowAdd(bits - shift, shift);
    HighLow(v, shift);
    SplitProduct(g, p, d, High(v, shift), Low(v, shift));
    LowUnique(g * Pow2(bits) + v, shift, g * p + High(v, shift), Low(v, shift));
    BelowQuotient(High(v, shift), d, Low(v, shift), p);
  }

  /** The leading group, when the shift swallows everything after it. */
  lemma HighOfLead(g: nat, v: nat, bits: nat, k: nat)
    requires v < Pow2(bits)
    ensures High(g * Pow2(bits) + v, bits + k) == High(g, k)
  {
    HighLow(g, k);
    PowAdd(bits, k);
    var q, r := High(g, k), Low(g, k);
    LeadProduct(q, Pow2(k), r, Pow2(bits), v);
    LowUnique(g * Pow2(bits) + v, bits + k, q, r * Pow2(bits) + v);
  }

  /** Comparing group by group under masks is comparing the top prefix bits of the two
      numbers. */
  lemma {:induction false} AgreeIsPrefix(width: nat, a: seq<nat>, b: seq<nat>, prefix: nat)
    requires width > 0 && |a| == |b| && Groups(width, a) && Groups(width, b) && prefix <= Bits(width, |a|)
    ensures Agree(width, a, b, prefix)
       <==> Value(width, a) / Pow2(Bits(width, |a|) - prefix) == Value(width, b) / Pow2(Bits(width, |a|) - prefix)
    decreases |a|
  {
    AgreeIsHigh(width, a, b, prefix);
    HighIsDiv(Value(width, a), Bits(width, |a|) - prefix);
    HighIsDiv(Value(width, b), Bits(width, |a|) - prefix);
  }

  lemma {:induction false} AgreeIsHigh(width: nat, a: seq<nat>, b: seq<nat>, prefix: nat)
    requires width > 0 && |a| == |b| && Groups(width, a) && Groups(width, b) && prefix <= Bits(width, |a|)
    ensures Agree(width, a, b, prefix)
       <==> High(Value(width, a), Bits(width, |a|) - prefix) == High(Value(width, b), Bits(width, |a|) - prefix)
    decreases |a|
  {
    if prefix == 0 {
      AgreeNowhere(width, a, b);
    } else if prefix < width {
      ValueBound(width, a[1..]);
      ValueBound(width, b[1..]);
      LeadDecides(width, prefix, a[0], Value(width, a[1..]), b[0], Value(width, b[1..]), Bits(width, |a| - 1));
    } else {
      AgreeIsHigh(width, a[1..], b[1..], prefix - width);
      AgreeBeyond(width, a, b, prefix);
    }
  }

  lemma AgreeBeyond(width: nat, a: seq<nat>, b: seq<nat>, prefix: nat)
    requires 0 < width <= prefix <= Bits(width, |a|) && |a| == |b| > 0 && Groups(width, a) && Groups(width, b)
    requires var shift := Bits(width, |a|) - prefix;
             Agree(width, a[1..], b[1..], prefix - width)
             <==> High(Value(width, a[1..]), shift) == High(Value(width, b[1..]), shift)
    ensures var shift := Bits(width, |a|) - prefix;
            Agree(width, a, b, prefix) <==> High(Value(width, a), shift) == High(Value(width, b), shift)
  {
    ValueBound(width, a[1..]);
    ValueBound(width, b[1..]);
    BothDecide(width, a[0], Value(width, a[1..]), b[0], Value(width, b[1..]), Bits(width, |a| - 1),
               Bits(width, |a|) - prefix);
  }

  lemma AgreeNowhere(width: nat, a: seq<nat>, b: seq<nat>)
    requires |a| == |b| && Groups(width, a) && Groups(width, b)
    ensures High(Value(width, a), Bits(width, |a|)) == High(Value(width, b), Bits(width, |a|))
  {
    ValueBound(width, a);
    ValueBound(width, b);
    LowUnique(Value(width, a), Bits(width, |a|), 0, Value(width, a));
    LowUnique(Value(width, b), Bits(width, |a|), 0, Value(width, b));
  }

  lemma LeadDecides(width: nat, prefix: nat, g: nat, v: nat, h: nat, w: nat, rest: nat)
    requires 0 < prefix < width && g < Pow2(width) && h < Pow2(width) && v < Pow2(rest) && w < Pow2(rest)
    ensures SameMasked(width, prefix, g, h)
       <==> High(g * Pow2(rest) + v, rest + (width - prefix)) == High(h * Pow2(rest) + w, rest + (width - prefix))
  {
    MaskedEqual(width, prefix, g, h);
    HighOfLead(g, v, rest, width - prefix);
    HighOfLead(h, w, rest, width - prefix);
  }

  /** Two split values have the same high bits exactly when both parts do. */
  lemma BothSplit(g: nat, v: nat, h: nat, w: nat, bits: nat, shift: nat)
    requires shift <= bits && v < Pow2(bits) && w < Pow2(bits)
    ensures High(g * Pow2(bits) + v, shift) == High(h * Pow2(bits) + w, shift)
       <==> g == h && High(v, shift) == High(w, shift)
  {
    HighSplit(g, v, bits, shift);
    HighSplit(h, w, bits, shift);
    SamePairs(Pow2(bits - shift), g, High(v, shift), h, High(w, shift));
  }

  lemma SamePairs(d: nat, q: nat, r: nat, q1: nat, r1: nat)
    requires r < d && r1 < d
    ensures q * d + r == q1 * d + r1 <==> q == q1 && r == r1
  {
    if q * d + r == q1 * d + r1 {
      Unique(d, q, r, q1, r1);
    }
  }

  lemma BothDecide(width: nat, g: nat, v: nat, h: nat, w: nat, bits: nat, shift: nat)
    requires 0 < width && g < Pow2(width) && h < Pow2(width)
    requires shift <= bits && v < Pow2(bits) && w < Pow2(bits)
    ensures SameMasked(width, width, g, h) && High(v, shift) == High(w, shift)
       <==> High(g * Pow2(bits) + v, shift) == High(h * Pow2(bits) + w, shift)
  {
    MaskedEqual(width, width, g, h);
    BothSplit(g, v, h, w, bits, shift);
  }

  // ----- the comparison itself -----

  predicate AgreeFrom(width: nat, a: seq<nat>, b: seq<nat>, prefix: nat, i: nat)
    requires |a| == |b| && i <= |a|
  {
    Agree(width, a[i..], b[i..], Max(0, prefix - i * width))
  }

  lemma AgreeNext(width: nat, a: seq<nat>, b: seq<nat>, prefix: nat, i: nat)
    requires |a| == |b| && i < |a| && width > 0
    ensures var bits := Min(width, Max(0, prefix - i * width));
            AgreeFrom(width, a, b, prefix, i)
            <==> bits == 0 || (SameMasked(width, bits, a[i], b[i]) && AgreeFrom(width, a, b, prefix, i + 1))
  {
    assert a[i..][1..] == a[i + 1..] && b[i..][1..] == b[i + 1..];
    assert (i + 1) * width == i * width + width;
  }

  method MatchesGroups(width: nat, ones: nat, peer: seq<nat>, network: seq<nat>, prefix: nat) returns (matches: bool)
    requires width > 0 && ones == Pow2(width) - 1 && |peer| == |network|
    ensures matches <==> Agree(width, peer, network, prefix)
  {
    var start := 0;
    for i := 0 to |peer|
      invariant start == i * width
      invariant Agree(width, peer, network, prefix) <==> AgreeFrom(width, peer, network, prefix, i)
    {
      AgreeNext(width, peer, network, prefix, i);
      var bits := Min(width, Max(0, prefix - start));
      if bits == 0 {
        return true;
      }
      var mask := And(ShiftLeft(ones, width - bits), ones);
      if And(peer[i], mask) != And(network[i], mask) {
        return false;
      }
      start := start + width;
    }
    return true;
  }

  /** ::ffff:a.b.c.d as eight groups, section 2.5.5.2 of RFC 4291. */
  function Mapped(octets: seq<nat>): seq<nat>
    requires |octets| == 4
  {
    [0, 0, 0, 0, 0, 0xffff] + Pair(octets)
  }

  function Pair(octets: seq<nat>): (pair: seq<nat>)
    requires |octets| == 4
    ensures |pair| == 2
  {
    [octets[0] * 256 + octets[1], octets[2] * 256 + octets[3]]
  }

  lemma {:induction false} SkipCommon(width: nat, common: seq<nat>, a: seq<nat>, b: seq<nat>, prefix: nat)
    requires 0 < width && |a| == |b| && Bits(width, |common|) <= prefix
    ensures Agree(width, common + a, common + b, prefix) <==> Agree(width, a, b, prefix - Bits(width, |common|))
    decreases |common|
  {
    if common == [] {
      assert common + a == a && common + b == b;
    } else {
      assert (common + a)[1..] == common[1..] + a && (common + b)[1..] == common[1..] + b;
      SkipCommon(width, common[1..], a, b, prefix - width);
    }
  }

  /** Two octets make a group. */
  lemma PairValue(octets: seq<nat>)
    requires |octets| == 4 && Groups(8, octets)
    ensures Groups(16, Pair(octets)) && Value(16, Pair(octets)) == Value(8, octets)
  {
    assert Pow2(8) == 256 && Pow2(16) == 65536;
    var pair := Pair(octets);
    assert Value(16, pair) == pair[0] * 65536 + pair[1] by {
      assert pair[1..] == [pair[1]] && pair[1..][1..] == [];
      assert Value(16, pair[1..]) == pair[1];
    }
    assert Pow2(24) == 16777216;
    assert octets[1..][1..][1..][1..] == [];
    assert Value(8, octets[1..][1..][1..]) == octets[3];
    assert Value(8, octets[1..][1..]) == octets[2] * 256 + octets[3];
    assert Value(8, octets[1..]) == octets[1] * 65536 + octets[2] * 256 + octets[3];
    assert Value(8, octets) == octets[0] * 16777216 + octets[1] * 65536 + octets[2] * 256 + octets[3];
  }

  lemma PairAgrees(peer: seq<nat>, network: seq<nat>, prefix: nat)
    requires |peer| == |network| == 4 && Groups(8, peer) && Groups(8, network) && prefix <= 32
    ensures Agree(8, peer, network, prefix) <==> Agree(16, Pair(peer), Pair(network), prefix)
  {
    PairValue(peer);
    PairValue(network);
    assert Bits(16, 2) == 32 && Bits(8, 4) == 32;
    var x, y := Value(8, peer), Value(8, network);
    AgreeOnValues(8, peer, network, 32, prefix, x, y);
    AgreeOnValues(16, Pair(peer), Pair(network), 32, prefix, x, y);
  }

  lemma AgreeOnValues(width: nat, a: seq<nat>, b: seq<nat>, bits: nat, prefix: nat, x: nat, y: nat)
    requires width > 0 && |a| == |b| && Groups(width, a) && Groups(width, b)
    requires x == Value(width, a) && y == Value(width, b) && prefix <= bits == Bits(width, |a|)
    ensures Agree(width, a, b, prefix) <==> High(x, bits - prefix) == High(y, bits - prefix)
  {
    AgreeIsHigh(width, a, b, prefix);
  }

  lemma SkipLead(width: nat, bits: nat, lead: seq<nat>, a: seq<nat>, b: seq<nat>, prefix: nat)
    requires 0 < width && |a| == |b| && Bits(width, |lead|) == bits
    ensures Agree(width, lead + a, lead + b, bits + prefix) <==> Agree(width, a, b, prefix)
  {
    SkipCommon(width, lead, a, b, bits + prefix);
  }

  /** An IPv4 range of length p and the mapped range of length 96 + p hold the same
      addresses. */
  lemma MappedAgrees(peer: seq<nat>, network: seq<nat>, prefix: nat)
    requires |peer| == |network| == 4 && Groups(8, peer) && Groups(8, network) && prefix <= 32
    ensures Agree(8, peer, network, prefix) <==> Agree(16, Mapped(peer), Mapped(network), 96 + prefix)
  {
    PairAgrees(peer, network, prefix);
    assert Bits(16, 6) == 96;
    MappedLead(16, 96, peer, network, prefix);
  }

  /** The mapped addresses have their first six groups in common. */
  lemma MappedLead(width: nat, bits: nat, peer: seq<nat>, network: seq<nat>, prefix: nat)
    requires |peer| == |network| == 4 && 0 < width && Bits(width, 6) == bits
    ensures Agree(width, Mapped(peer), Mapped(network), bits + prefix)
       <==> Agree(width, Pair(peer), Pair(network), prefix)
  {
    var lead := Mapped(peer)[..6];
    assert Mapped(peer) == lead + Pair(peer) && Mapped(network) == lead + Pair(network);
    SkipLead(width, bits, lead, Pair(peer), Pair(network), prefix);
  }
}
