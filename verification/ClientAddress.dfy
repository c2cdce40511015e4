/** Which address a request is attributed to. */
module ClientAddress {
  import opened AddressText
  import opened AddressPolicy

  /** The hops of a forwarded header, trimmed, empty ones dropped. */
  function Hops(parts: seq<string>): seq<string> {
    if parts == [] then []
    else (if Trim(parts[0]) == "" then [] else [Trim(parts[0])]) + Hops(parts[1..])
  }

  /** The last element a test does not hold of, or the fallback when it holds of all. */
  function LastFailing<T>(xs: seq<T>, test: T -> bool, fallback: T): T {
    if xs == [] then fallback
    else if !test(xs[|xs| - 1]) then xs[|xs| - 1]
    else LastFailing(xs[..|xs| - 1], test, fallback)
  }

  function LastUntrusted(hops: seq<string>, trust: Trust, fallback: string): string {
    LastFailing(hops, hop => IsTrusted(hop, trust), fallback)
  }

  function Resolve(peer: string, realIp: string, forwarded: string, trust: Trust): string {
    if !IsTrusted(peer, trust) then peer
    else if Trim(realIp) != "" then Trim(realIp)
    else if Trim(forwarded) == "" then peer
    else
      var hops := Hops(Split(Trim(forwarded), ','));
      if trust.TrustAll? then (if hops != [] then hops[0] else peer) else LastUntrusted(hops, trust, peer)
  }

  /** The last hop that is not trusted, or the fallback when all are. */
  ghost predicate IsLastUntrusted(hops: seq<string>, trust: Trust, fallback: string, client: string) {
    || (client == fallback && forall i | 0 <= i < |hops| :: IsTrusted(hops[i], trust))
    || exists i | 0 <= i < |hops| ::
         && client == hops[i] && !IsTrusted(hops[i], trust)
         && forall j | i < j < |hops| :: IsTrusted(hops[j], trust)
  }

  /** An untrusted peer is the client, whatever the headers say.  Behind a trusted peer the
      real address it names is the client; failing that the first hop if every peer is trusted,
      and the last untrusted hop under a trust list; failing that the peer. */
  method ResolveClientAddress(peer: string, realIp: string, forwarded: string, trust: Trust) returns (client: string)
    ensures client == Resolve(peer, realIp, forwarded, trust)
    ensures !IsTrusted(peer, trust) ==> client == peer
    ensures IsTrusted(peer, trust) && Trim(realIp) != "" ==> client == Trim(realIp)
    ensures IsTrusted(peer, trust) && Trim(realIp) == "" ==>
              var hops := Hops(Split(Trim(forwarded), ','));
              if trust.TrustAll? then client == if hops == [] then peer else hops[0]
              else IsLastUntrusted(hops, trust, peer, client)
  {
    var trusted := IsTrustedPeer(peer, trust);
    if !trusted {
      return peer;
    }
    if Trim(realIp) != "" {
      return Trim(realIp);
    }
    if Trim(forwarded) == "" {
      assert Split("", ',') == [""] && [""][1..] == [];
      return peer;
    }
    var hops := Hops(Split(Trim(forwarded), ','));
    if trust.TrustAll? {
      return if |hops| > 0 then hops[0] else peer;
    }
    client := LastUntrustedHop(hops, trust, peer);
  }

  method LastUntrustedHop(hops: seq<string>, trust: Trust, fallback: string) returns (client: string)
    ensures client == LastUntrusted(hops, trust, fallback)
    ensures IsLastUntrusted(hops, trust, fallback, client)
  {
    var i: int := |hops| - 1;
    while i >= 0
      invariant -1 <= i < |hops|
      invariant forall j | i < j < |hops| :: IsTrusted(hops[j], trust)
    {
      var hopTrusted := IsTrustedPeer(hops[i], trust);
      if !hopTrusted {
        LastUntrustedAt(hops, trust, fallback, i);
        return hops[i];
      }
      i := i - 1;
    }
    LastUntrustedAt(hops, trust, fallback, -1);
    return fallback;
  }

  lemma LastUntrustedAt(hops: seq<string>, trust: Trust, fallback: string, i: int)
    requires -1 <= i < |hops| && (i >= 0 ==> !IsTrusted(hops[i], trust))
    requires forall j | i < j < |hops| :: IsTrusted(hops[j], trust)
    ensures LastUntrusted(hops, trust, fallback) == if i >= 0 then hops[i] else fallback
  {
    var test: string -> bool := hop => IsTrusted(hop, trust);
    LastFailingAt(hops, test, fallback, i);
  }

  /** The last failing element is the one after which all pass. */
  lemma {:induction false} LastFailingAt<T>(xs: seq<T>, test: T -> bool, fallback: T, i: int)
    requires -1 <= i < |xs| && (i >= 0 ==> !test(xs[i]))
    requires forall j | i < j < |xs| :: test(xs[j])
    ensures LastFailing(xs, test, fallback) == if i >= 0 then xs[i] else fallback
    decreases |xs|
  {
    if i < |xs| - 1 {
      assert test(xs[|xs| - 1]);
      LastFailingAt(xs[..|xs| - 1], test, fallback, i);
    }
  }

  // ----- what a client writes into the header is ignored -----

  lemma {:induction false} SplitBoth(a: string, b: string, c: char)
    ensures Split(a + [c] + b, c) == Split(a, c) + Split(b, c)
    decreases |a|
  {
    var text := a + [c] + b;
    if a == "" {
      assert text[1..] == b;
    } else {
      assert text[1..] == a[1..] + [c] + b;
      SplitBoth(a[1..], b, c);
      if a[0] == c {
        assert [""] + (Split(a[1..], c) + Split(b, c)) == ([""] + Split(a[1..], c)) + Split(b, c);
      } else {
        LongerHead(a[0], Split(a[1..], c), Split(b, c));
      }
    }
  }

  lemma LongerHead(x: char, parts: seq<string>, more: seq<string>)
    requires parts != []
    ensures [[x] + (parts + more)[0]] + (parts + more)[1..] == ([[x] + parts[0]] + parts[1..]) + more
  {
  }

  lemma {:induction false} HopsConcat(a: seq<string>, b: seq<string>)
    ensures Hops(a + b) == Hops(a) + Hops(b)
    decreases |a|
  {
    if a == [] {
      assert a + b == b;
    } else {
      assert (a + b)[1..] == a[1..] + b;
      HopsConcat(a[1..], b);
      var head := if Trim(a[0]) == "" then [] else [Trim(a[0])];
      assert head + (Hops(a[1..]) + Hops(b)) == (head + Hops(a[1..])) + Hops(b);
    }
  }

  /** With HopsConcat: a part that is not blank is a hop, trimmed, and a blank one is none. */
  lemma HopsOfOne(part: string)
    ensures Hops([part]) == if Trim(part) == "" then [] else [Trim(part)]
  {
    assert [part][1..] == [];
  }

  lemma {:induction false} EarlierIgnored<T>(early: seq<T>, xs: seq<T>, test: T -> bool, fallback: T)
    requires exists i | 0 <= i < |xs| :: !test(xs[i])
    ensures LastFailing(early + xs, test, fallback) == LastFailing(xs, test, fallback)
    decreases |xs|
  {
    var all, last := early + xs, |xs| - 1;
    assert all[|all| - 1] == xs[last];
    if test(xs[last]) {
      var i :| 0 <= i < |xs| && !test(xs[i]);
      assert xs[..last][i] == xs[i];
      assert all[..|all| - 1] == early + xs[..last];
      EarlierIgnored(early, xs[..last], test, fallback);
    }
  }

  // ----- blanks at the ends of the header -----

  lemma {:induction false} TrimBlankAfter(text: string, blank: char)
    requires IsSpace(blank)
    ensures Trim(text + [blank]) == Trim(text)
    decreases |text|
  {
    var longer := text + [blank];
    if text == "" {
      assert longer[1..] == "";
    } else if IsSpace(text[0]) {
      assert longer[1..] == text[1..] + [blank];
      TrimBlankAfter(text[1..], blank);
    } else {
      assert longer[..|longer| - 1] == text;
    }
  }

  /** Blanks at either end do not matter, and nothing else is trimmed. */
  lemma TrimDropsBlanks(text: string, blank: char)
    requires IsSpace(blank)
    ensures Trim([blank] + text) == Trim(text) && Trim(text + [blank]) == Trim(text)
    ensures text == "" || (!IsSpace(text[0]) && !IsSpace(text[|text| - 1])) ==> Trim(text) == text
  {
    TrimBlankAfter(text, blank);
    assert ([blank] + text)[1..] == text;
  }

  /** The parts with a blank after the last one. */
  function BlankLast(parts: seq<string>, blank: char): seq<string>
    requires parts != []
  {
    parts[..|parts| - 1] + [parts[|parts| - 1] + [blank]]
  }

  lemma BlankLastOfHead(x: char, parts: seq<string>, blank: char)
    requires parts != []
    ensures BlankLast([[x] + parts[0]] + parts[1..], blank)
         == [[x] + BlankLast(parts, blank)[0]] + BlankLast(parts, blank)[1..]
  {
    if |parts| == 1 {
      assert [x] + (parts[0] + [blank]) == ([x] + parts[0]) + [blank];
    }
  }

  lemma {:induction false} SplitBlankAfter(text: string, blank: char)
    requires blank != ','
    ensures Split(text + [blank], ',') == BlankLast(Split(text, ','), blank)
    decreases |text|
  {
    var longer := text + [blank];
    if text == "" {
      assert longer[1..] == "" && Split("", ',') == [""] && Split("", ',')[0] == "";
      assert [blank] + "" == "" + [blank] && [""][1..] == [] && [""][..0] == [];
    } else {
      assert longer[1..] == text[1..] + [blank];
      SplitBlankAfter(text[1..], blank);
      if text[0] != ',' {
        BlankLastOfHead(text[0], Split(text[1..], ','), blank);
      }
    }
  }

  lemma HopsBlankAfter(text: string, blank: char)
    requires IsSpace(blank)
    ensures Hops(Split(text + [blank], ',')) == Hops(Split(text, ','))
  {
    var parts := Split(text, ',');
    var k := |parts| - 1;
    SplitBlankAfter(text, blank);
    TrimBlankAfter(parts[k], blank);
    HopsConcat(parts[..k], [parts[k] + [blank]]);
    HopsConcat(parts[..k], [parts[k]]);
    assert parts == parts[..k] + [parts[k]];
    assert [parts[k]][1..] == [] && [parts[k] + [blank]][1..] == [];
  }

  /** Trimming a header that holds a comma leaves the comma and the hops after it. */
  lemma {:induction false} TrimAround(front: string, back: string) returns (front1: string, back1: string)
    ensures Trim(front + "," + back) == front1 + "," + back1
    ensures Hops(Split(back1, ',')) == Hops(Split(back, ','))
    decreases |front| + |back|
  {
    var text := front + "," + back;
    front1, back1 := front, back;
    if IsSpace(text[0]) {
      assert text[1..] == front[1..] + "," + back;
      front1, back1 := TrimAround(front[1..], back);
    } else if IsSpace(text[|text| - 1]) {
      var k := |back| - 1;
      assert back == back[..k] + [back[k]];
      assert text[..|text| - 1] == front + "," + back[..k];
      HopsBlankAfter(back[..k], back[k]);
      front1, back1 := TrimAround(front, back[..k]);
    }
  }

  /** With a trust list, a client behind a trusted proxy cannot choose the address it is
      taken for: whatever it puts in front of what the proxies appended is ignored, however
      the hops are spaced. */
  lemma SpoofedHopsIgnored(peer: string, spoofed: string, appended: string, entries: seq<string>)
    requires exists i | 0 <= i < |Hops(Split(appended, ','))| ::
               !IsTrusted(Hops(Split(appended, ','))[i], TrustList(entries))
    ensures Resolve(peer, "", spoofed + "," + appended, TrustList(entries))
         == if IsTrusted(peer, TrustList(entries))
            then LastUntrusted(Hops(Split(appended, ',')), TrustList(entries), peer)
            else peer
  {
    var front, back := TrimAround(spoofed, appended);
    assert front + "," + back == front + [','] + back;
    SplitBoth(front, back, ',');
    HopsConcat(Split(front, ','), Split(back, ','));
    var test := (hop: string) => IsTrusted(hop, TrustList(entries));
    assert exists i | 0 <= i < |Hops(Split(appended, ','))| :: !test(Hops(Split(appended, ','))[i]);
    EarlierIgnored(Hops(Split(front, ',')), Hops(Split(back, ',')), test, peer);
  }
}
