/** What the parser answers, read off the bytes it writes: which offers are taken up, which
    are refused, and what the answers say.  Whether an offer is the first of its kind is
    told from the bytes received before it. */
module TelnetAnswers {
  import opened TelnetProtocol
  import opened TelnetTheorems
  import opened TelnetCodec
  import opened TelnetReplies
  import opened Sequences

  // ----- what was negotiated before -----

  datatype Offer = Offer(cmd: byte, option: byte)

  /** The negotiations a run completes, in order. */
  function Offers(c: Config, m: Machine, data: seq<byte>): seq<Offer>
    decreases |data|
  {
    if data == [] then []
    else
      (if m.mode.NegotiationMode? && m.cmd != SB then [Offer(m.cmd, data[0])] else [])
      + Offers(c, Step(c, m, data[0]).0, data[1..])
  }

  /** This offer uses up the one answer of its option. */
  predicate UsesUp(o: Offer) {
    || o.option == GMCP || o.option == MXP
    || ((o.option == TTYPE || o.option == NEW_ENV) && o.cmd == DO)
    || ((o.option == MSDP || o.option == SGA) && o.cmd == WILL)
    || (o.option == NAWS && (o.cmd == DO || o.cmd == WILL))
  }

  ghost predicate UsedUp(offers: seq<Offer>, option: byte) {
    exists o <- offers :: o.option == option && UsesUp(o)
  }

  lemma OneStepSeen(c: Config, m: Machine, b: byte, option: byte)
    requires option in AnsweredOnce
    ensures Seen(Step(c, m, b).0.opts.flags, option)
       <==> || Seen(m.opts.flags, option)
            || (m.mode.NegotiationMode? && m.cmd != SB && b == option && UsesUp(Offer(m.cmd, b)))
  {
    if m.mode.NegotiationMode? && m.cmd != SB {
      var f, f1 := m.opts.flags, Flagged(m.opts.flags, m.cmd, b);
      assert Step(c, m, b).0.opts.flags == f1;
    } else if !(m.mode.SubnegIacMode? && b == SE) {
      QuietStep(c, m, b);
    }
  }

  lemma {:induction false} SeenIsHistory(c: Config, m: Machine, data: seq<byte>, option: byte)
    requires option in AnsweredOnce
    ensures Seen(Run(c, m, data).0.opts.flags, option)
       <==> Seen(m.opts.flags, option) || UsedUp(Offers(c, m, data), option)
    decreases |data|
  {
    if data != [] {
      var m1 := Step(c, m, data[0]).0;
      OneStepSeen(c, m, data[0], option);
      SeenIsHistory(c, m1, data[1..], option);
      var now := if m.mode.NegotiationMode? && m.cmd != SB then [Offer(m.cmd, data[0])] else [];
      UsedUpConcat(now, Offers(c, m1, data[1..]), option);
    }
  }

  lemma UsedUpConcat(a: seq<Offer>, b: seq<Offer>, option: byte)
    ensures UsedUp(a + b, option) <==> UsedUp(a, option) || UsedUp(b, option)
  {
    if UsedUp(a, option) {
      var o :| o in a && o.option == option && UsesUp(o);
      assert o in a + b;
    }
    if UsedUp(b, option) {
      var o :| o in b && o.option == option && UsesUp(o);
      assert o in a + b;
    }
  }

  // ----- the answer to one negotiation -----

  /** What a fresh parser that has read data writes when IAC cmd option follows. */
  function AnswerTo(c: Config, data: seq<byte>, cmd: byte, option: byte): seq<seq<byte>> {
    WritesOf(Run(c, Run(c, InitialMachine(), data).0, [IAC, cmd, option]).1)
  }

  lemma {:induction false} RepliesWrites(writes: seq<seq<byte>>)
    ensures WritesOf(Replies(writes)) == writes
    decreases |writes|
  {
    if writes != [] {
      assert Replies(writes)[1..] == Replies(writes[1..]);
      RepliesWrites(writes[1..]);
    }
  }

  lemma NegotiateWrites(c: Config, o: Options, cmd: byte, option: byte)
    ensures WritesOf(Negotiate(c, o, cmd, option).1) == Answers(c, o, cmd, option)
  {
    if option == ECHO && (cmd == WILL || cmd == WONT) {
      FlatMapOne(EffectWrite, Switch(cmd == WILL));
    } else {
      RepliesWrites(Answers(c, o, cmd, option));
    }
  }

  lemma AnswerIs(c: Config, data: seq<byte>, cmd: byte, option: byte)
    requires Run(c, InitialMachine(), data).0.mode.TextMode? && WILL <= cmd <= DONT
    ensures AnswerTo(c, data, cmd, option) == Answers(c, Run(c, InitialMachine(), data).0.opts, cmd, option)
  {
    var m := Run(c, InitialMachine(), data).0;
    RunItem(c, m, Negotiation(cmd, option));
    NegotiateWrites(c, m.opts, cmd, option);
  }

  /** The options with a handler: ECHO, SGA, TTYPE, NAWS, NEW-ENV, CHARSET, MSDP, MCCP2, MXP and GMCP. */
  const Known: set<byte> := {1, 3, 24, 31, 39, 42, 69, 86, 91, 201}

  /** DO is refused with WONT, WILL with DONT, and the two refusals are not answered. */
  function Declined(cmd: byte, option: byte): seq<seq<byte>> {
    if cmd == 253 then [[255, 252, option]] else if cmd == 251 then [[255, 254, option]] else []
  }

  /** Every offer of an option without a handler is refused, as often as it is made; MXP is
      refused once; echo and compression are never answered. */
  lemma UnknownOffersRefused(c: Config, data: seq<byte>, cmd: byte, option: byte)
    requires Run(c, InitialMachine(), data).0.mode.TextMode? && WILL <= cmd <= DONT
    ensures option !in Known ==> AnswerTo(c, data, cmd, option) == Declined(cmd, option)
    ensures option == 91 ==>
              AnswerTo(c, data, cmd, option)
              == if UsedUp(Offers(c, InitialMachine(), data), MXP) then [] else Declined(cmd, option)
    ensures option == 1 || option == 86 ==> AnswerTo(c, data, cmd, option) == []
  {
    AnswerIs(c, data, cmd, option);
    SeenIsHistory(c, InitialMachine(), data, MXP);
  }

  /** The two messages a GMCP offer is greeted with. */
  function Greeting(): seq<seq<byte>> {
    [[255, 250, 201] + Ascii("client MUDBasher") + [255, 240],
     [255, 250, 201] + Ascii("client_version 1.0") + [255, 240]]
  }

  /** The first offer of GMCP is mirrored and greeted; any later one is ignored. */
  lemma GmcpMirrored(c: Config, data: seq<byte>, cmd: byte)
    requires Run(c, InitialMachine(), data).0.mode.TextMode? && WILL <= cmd <= DONT
    ensures AnswerTo(c, data, cmd, GMCP)
         == if UsedUp(Offers(c, InitialMachine(), data), GMCP) then []
            else if cmd == DO then [[255, 251, 201]] + Greeting()
            else if cmd == WILL then [[255, 253, 201]] + Greeting()
            else Greeting()
  {
    AnswerIs(c, data, cmd, GMCP);
    SeenIsHistory(c, InitialMachine(), data, GMCP);
  }

  /** The first DO NEW-ENV is agreed to; the first WILL SGA is refused, with WONT. */
  lemma OtherOffersAnswered(c: Config, data: seq<byte>, cmd: byte)
    requires Run(c, InitialMachine(), data).0.mode.TextMode? && WILL <= cmd <= DONT
    ensures AnswerTo(c, data, cmd, NEW_ENV)
         == if cmd == DO && !UsedUp(Offers(c, InitialMachine(), data), NEW_ENV) then [[255, 251, 39]] else []
    ensures AnswerTo(c, data, cmd, SGA)
         == if cmd == WILL && !UsedUp(Offers(c, InitialMachine(), data), SGA) then [[255, 252, 3]] else []
  {
    AnswerIs(c, data, cmd, NEW_ENV);
    SeenIsHistory(c, InitialMachine(), data, NEW_ENV);
    AnswerIs(c, data, cmd, SGA);
    SeenIsHistory(c, InitialMachine(), data, SGA);
  }

  predicate SaysSize(w: seq<byte>, c: Config) {
    && |w| == 9 && w[..3] == [255, 250, 31] && w[7..] == [255, 240]
    && 256 * (w[3] as int) + w[4] as int == c.width % 65536
    && 256 * (w[5] as int) + w[6] as int == c.height % 65536
  }

  lemma NawsSaysSize(c: Config)
    ensures SaysSize(NawsReply(c.width, c.height), c)
  {
    TwoBytes(c.width);
    TwoBytes(c.height);
  }

  lemma TwoBytes(n: nat)
    ensures 256 * (n / 256 % 256) + n % 256 == n % 65536
  {
  }

  /** The first request for the window size is answered with it, two bytes each way, most
      significant first; a first offer to send one is refused, with WONT. */
  lemma WindowSizeAnswered(c: Config, data: seq<byte>, cmd: byte)
    requires Run(c, InitialMachine(), data).0.mode.TextMode? && WILL <= cmd <= DONT
    ensures var w := AnswerTo(c, data, cmd, NAWS);
            if cmd > 253 || cmd == 252 || UsedUp(Offers(c, InitialMachine(), data), NAWS) then w == []
            else if cmd == 251 then w == [[255, 252, 31]]
            else |w| == 1 && SaysSize(w[0], c)
  {
    AnswerIs(c, data, cmd, NAWS);
    SeenIsHistory(c, InitialMachine(), data, NAWS);
    NawsSaysSize(c);
  }

  function MsdpSays(key: string, val: string): seq<byte> {
    [255, 250, 69, 1] + Ascii(key) + [2] + Ascii(val) + [255, 240]
  }

  /** The first WILL MSDP is agreed to and told four things about the client. */
  lemma MsdpAnswered(c: Config, data: seq<byte>, cmd: byte)
    requires Run(c, InitialMachine(), data).0.mode.TextMode? && WILL <= cmd <= DONT
    ensures AnswerTo(c, data, cmd, MSDP)
         == if cmd != WILL || UsedUp(Offers(c, InitialMachine(), data), MSDP) then []
            else [[255, 253, 69], MsdpSays("CLIENT_ID", "MUDBasher"), MsdpSays("CLIENT_VERSION", "1.0"),
                  MsdpSays("XTERM_256_COLORS", "1"), MsdpSays("UTF_8", "1")]
  {
    AnswerIs(c, data, cmd, MSDP);
    SeenIsHistory(c, InitialMachine(), data, MSDP);
  }

  // ----- over every run: what is written at all -----

  /** A negotiation that agrees only to what the proxy supports (WILL of GMCP, TTYPE, NEW-ENV
      and CHARSET, DO of GMCP and MSDP), a refusal, or a whole subnegotiation. */
  predicate Proper(w: seq<byte>) {
    if |w| == 3 then
      && w[0] == 255
      && (|| (w[1] == 251 && (w[2] == 201 || w[2] == 24 || w[2] == 39 || w[2] == 42))
          || (w[1] == 253 && (w[2] == 201 || w[2] == 69))
          || w[1] == 252 || w[1] == 254)
    else Framed(w)
  }

  ghost predicate AllProper(writes: seq<seq<byte>>) {
    forall i | 0 <= i < |writes| :: Proper(writes[i])
  }

  predicate Framed(w: seq<byte>) {
    |w| >= 5 && w[0] == IAC && w[1] == SB && w[|w| - 2] == IAC && w[|w| - 1] == SE
  }

  /** An answer names the option offered.  To DO it is WILL or WONT; to WILL it is DO or DONT,
      but WONT for SGA and the window size; only GMCP, TTYPE, MSDP and a window size are
      followed by more. */
  predicate Matches(w: seq<byte>, cmd: byte, option: byte) {
    && |w| >= 3 && w[2] == option
    && if |w| > 3 then option == 201 || option == 24 || option == 69 || option == 31
       else if cmd == 253 then w[1] == 251 || w[1] == 252
       else cmd == 251 && if option == 3 || option == 31 then w[1] == 252 else w[1] == 253 || w[1] == 254
  }

  ghost predicate AllMatch(writes: seq<seq<byte>>, cmd: byte, option: byte) {
    forall i | 0 <= i < |writes| :: Proper(writes[i]) && Matches(writes[i], cmd, option)
  }

  lemma FramedMatches(head: seq<byte>, body: seq<byte>, cmd: byte, option: byte)
    requires |head| >= 3 && head[0] == IAC && head[1] == SB && head[2] == option
    requires option == GMCP || option == TTYPE || option == MSDP || option == NAWS
    ensures var w := head + body + [IAC, SE]; Proper(w) && Matches(w, cmd, option)
  {
    var w := head + body + [IAC, SE];
    assert w[|w| - 2] == IAC && w[|w| - 1] == SE;
  }

  lemma GmcpAnswersMatch(c: Config, o: Options, cmd: byte)
    ensures AllMatch(Answers(c, o, cmd, GMCP), cmd, GMCP)
  {
    FramedMatches([IAC, SB, GMCP], Ascii("client MUDBasher"), cmd, GMCP);
    FramedMatches([IAC, SB, GMCP], Ascii("client_version 1.0"), cmd, GMCP);
    var w, g := Answers(c, o, cmd, GMCP), GmcpClientInfo();
    assert w == [] || w == g || w == [[IAC, WILL, GMCP]] + g || w == [[IAC, DO, GMCP]] + g;
  }

  lemma MsdpPairMatches(key: string, val: string, cmd: byte)
    ensures Proper(MsdpPair(key, val)) && Matches(MsdpPair(key, val), cmd, MSDP)
  {
    var body := Ascii(key) + [MSDP_VAL] + Ascii(val);
    FramedMatches([IAC, SB, MSDP, MSDP_VAR], body, cmd, MSDP);
    assert MsdpPair(key, val) == [IAC, SB, MSDP, MSDP_VAR] + body + [IAC, SE];
  }

  lemma MsdpAnswersMatch(c: Config, o: Options, cmd: byte)
    ensures AllMatch(Answers(c, o, cmd, MSDP), cmd, MSDP)
  {
    MsdpPairMatches("CLIENT_ID", "MUDBasher", cmd);
    MsdpPairMatches("CLIENT_VERSION", "1.0", cmd);
    MsdpPairMatches("XTERM_256_COLORS", "1", cmd);
    MsdpPairMatches("UTF_8", "1", cmd);
  }

  lemma AnswersMatch(c: Config, o: Options, cmd: byte, option: byte)
    ensures AllMatch(Answers(c, o, cmd, option), cmd, option)
  {
    if option == GMCP {
      GmcpAnswersMatch(c, o, cmd);
    } else if option == MSDP {
      MsdpAnswersMatch(c, o, cmd);
    } else if option == TTYPE {
      FramedMatches([IAC, SB, TTYPE, IS], NextTtype(o.ttypeQueue), cmd, TTYPE);
    } else {
      var w := Answers(c, o, cmd, option);
      assert |w| == 0 || (|w| == 1 && if option == NAWS then |w[0]| == 3 || Framed(w[0]) else |w[0]| == 3);
    }
  }

  lemma SubnegotiateWrites(o: Options, option: byte, data: seq<byte>)
    ensures var w := WritesOf(Subnegotiate(o, option, data).1);
            forall i | 0 <= i < |w| :: Framed(w[i]) || w[i] == [IAC, WILL, TTYPE]
  {
    if option == GMCP {
      FlatMapOne(EffectWrite, Gmcp(ParseGmcp(data)));
    } else {
      RepliesWrites(TtypeReplies(o.ttypeQueue));
      RepliesWrites([CharsetAccepted()]);
      RepliesWrites([IpAddressReply()]);
    }
  }

  /** What one byte makes the parser write: an answer that matches the offer it completes;
      the end of a subnegotiation can only bring the terminal type up. */
  lemma WritesMatch(c: Config, m: Machine, b: byte)
    ensures var w := WritesOf(Step(c, m, b).1);
            && AllProper(w)
            && (m.mode.NegotiationMode? && m.cmd != SB ==> AllMatch(w, m.cmd, b))
            && (!(m.mode.NegotiationMode? && m.cmd != SB) ==>
                  forall i | 0 <= i < |w| :: |w[i]| == 3 ==> w[i] == [IAC, WILL, TTYPE])
  {
    if m.mode.NegotiationMode? && m.cmd != SB {
      NegotiateWrites(c, m.opts, m.cmd, b);
      AnswersMatch(c, m.opts, m.cmd, b);
    } else if m.mode.SubnegIacMode? && b == SE {
      SubnegotiateWrites(m.opts, m.option, m.buffer);
    } else {
      var es := Step(c, m, b).1;
      assert es == [] || es == [Emit(b)];
      FlatMapNone(EffectWrite, es);
    }
  }

  /** Over any run, WILL is sent only for GMCP, TTYPE, NEW-ENV and CHARSET, DO only for GMCP
      and MSDP, and everything else written is a refusal or a whole subnegotiation. */
  lemma {:induction false} AgreesOnlyToSupported(c: Config, m: Machine, data: seq<byte>)
    ensures AllProper(WritesOf(Run(c, m, data).1))
    decreases |data|
  {
    if data != [] {
      var (m1, es) := Step(c, m, data[0]);
      var rest := Run(c, m1, data[1..]).1;
      WritesMatch(c, m, data[0]);
      AgreesOnlyToSupported(c, m1, data[1..]);
      OutputConcat(es, rest);
      AllProperConcat(WritesOf(es), WritesOf(rest));
    }
  }

  lemma AllProperConcat(a: seq<seq<byte>>, b: seq<seq<byte>>)
    requires AllProper(a) && AllProper(b)
    ensures AllProper(a + b)
  {
    forall i | 0 <= i < |a + b| ensures Proper((a + b)[i]) {
      assert (a + b)[i] == if i < |a| then a[i] else b[i - |a|];
    }
  }

  // ----- terminal names -----

  /** The k-th terminal name the parser gives. */
  function TerminalName(k: nat): seq<byte> {
    if k == 1 then Ascii("XTERM-256color") else if k == 2 then Ascii("MTTS 141") else Ascii("MUDBasher")
  }

  function NameReply(k: nat): seq<byte> { [255, 250, 24, 0] + TerminalName(k) + [255, 240] }

  predicate NamesTerminal(w: seq<byte>) { |w| > 3 && w[1] == SB && w[2] == TTYPE }

  function NamePart(w: seq<byte>): seq<seq<byte>> { if NamesTerminal(w) then [w] else [] }

  function NamesIn(writes: seq<seq<byte>>): seq<seq<byte>> { FlatMap(NamePart, writes) }

  /** The queue after k names have been given. */
  predicate QueueAfter(queue: seq<seq<byte>>, k: nat) {
    queue == InitialOptions().ttypeQueue[if k < 3 then k else 3..]
  }

  lemma NextName(queue: seq<seq<byte>>, k: nat)
    requires QueueAfter(queue, k)
    ensures QueueAfter(RestTtypes(queue), k + 1)
    ensures NamesIn(TtypeReplies(queue)) == [NameReply(k)]
  {
    var w := TtypeReplies(queue);
    assert w == [w[0]] + [w[1]];
    FlatMapConcat(NamePart, [w[0]], [w[1]]);
    FlatMapOne(NamePart, w[0]);
    FlatMapOne(NamePart, w[1]);
  }

  lemma {:induction false} NoNames(writes: seq<seq<byte>>)
    requires forall i | 0 <= i < |writes| :: !NamesTerminal(writes[i])
    ensures NamesIn(writes) == []
    decreases |writes|
  {
    if writes != [] {
      NoNames(writes[1..]);
    }
  }

  lemma NegotiateNames(c: Config, o: Options, cmd: byte, option: byte, k: nat)
    requires QueueAfter(o.ttypeQueue, k)
    ensures var (o1, es) := Negotiate(c, o, cmd, option);
            || (NamesIn(WritesOf(es)) == [] && QueueAfter(o1.ttypeQueue, k))
            || (NamesIn(WritesOf(es)) == [NameReply(k)] && QueueAfter(o1.ttypeQueue, k + 1))
  {
    NegotiateWrites(c, o, cmd, option);
    if option == TTYPE && cmd == DO && !o.flags.ttype {
      NextName(o.ttypeQueue, k);
    } else {
      NoNames(Answers(c, o, cmd, option));
    }
  }

  lemma SubnegotiateNames(o: Options, option: byte, data: seq<byte>, k: nat)
    requires QueueAfter(o.ttypeQueue, k)
    ensures var (o1, es) := Subnegotiate(o, option, data); var asked := option == TTYPE && data != [] && data[0] == 1;
            && NamesIn(WritesOf(es)) == (if asked then [NameReply(k)] else [])
            && QueueAfter(o1.ttypeQueue, if asked then k + 1 else k)
  {
    if option == TTYPE {
      RepliesWrites(TtypeReplies(o.ttypeQueue));
      NextName(o.ttypeQueue, k);
    } else if option == GMCP {
      FlatMapOne(EffectWrite, Gmcp(ParseGmcp(data)));
    } else if option == CHARSET {
      RepliesWrites([CharsetAccepted()]);
      NoNames([CharsetAccepted()]);
    } else {
      RepliesWrites([IpAddressReply()]);
      NoNames([IpAddressReply()]);
    }
  }

  lemma StepNames(c: Config, m: Machine, b: byte, k: nat)
    requires QueueAfter(m.opts.ttypeQueue, k)
    ensures var (m1, es) := Step(c, m, b);
            || (NamesIn(WritesOf(es)) == [] && QueueAfter(m1.opts.ttypeQueue, k))
            || (NamesIn(WritesOf(es)) == [NameReply(k)] && QueueAfter(m1.opts.ttypeQueue, k + 1))
  {
    if m.mode.NegotiationMode? && m.cmd != SB {
      NegotiateNames(c, m.opts, m.cmd, b, k);
    } else if m.mode.SubnegIacMode? && b == SE {
      SubnegotiateNames(m.opts, m.option, m.buffer, k);
    } else {
      QuietStep(c, m, b);
      var es := Step(c, m, b).1;
      assert es == [] || es == [Emit(b)];
      FlatMapNone(EffectWrite, es);
    }
  }

  ghost predicate NamedFrom(names: seq<seq<byte>>, k: nat) {
    forall j | 0 <= j < |names| :: names[j] == NameReply(k + j)
  }

  lemma NamedFromConcat(a: seq<seq<byte>>, b: seq<seq<byte>>, k: nat)
    requires NamedFrom(a, k) && NamedFrom(b, k + |a|)
    ensures NamedFrom(a + b, k)
  {
    forall j | |a| <= j < |a + b| ensures (a + b)[j] == NameReply(k + j) {
      var i := j - |a|;
      assert (a + b)[j] == b[i] == NameReply(k + |a| + i);
    }
  }

  /** Over any run the terminal names given are MUDBasher, XTERM-256color, MTTS 141 and then
      MUDBasher for ever, in that order. */
  lemma {:induction false} NamesInOrder(c: Config, m: Machine, data: seq<byte>, k: nat)
    requires QueueAfter(m.opts.ttypeQueue, k)
    ensures NamedFrom(NamesIn(WritesOf(Run(c, m, data).1)), k)
    decreases |data|
  {
    if data != [] {
      var (m1, es) := Step(c, m, data[0]);
      var rest := Run(c, m1, data[1..]).1;
      var now, later := NamesIn(WritesOf(es)), NamesIn(WritesOf(rest));
      StepNames(c, m, data[0], k);
      OutputConcat(es, rest);
      FlatMapConcat(NamePart, WritesOf(es), WritesOf(rest));
      NamesInOrder(c, m1, data[1..], k + |now|);
      NamedFromConcat(now, later, k);
    }
  }

  /** The first DO TTYPE is answered with WILL and a name. */
  lemma TtypeAnswered(c: Config, data: seq<byte>, cmd: byte)
    requires Run(c, InitialMachine(), data).0.mode.TextMode? && WILL <= cmd <= DONT
    ensures var w := AnswerTo(c, data, cmd, TTYPE);
            if cmd != DO || UsedUp(Offers(c, InitialMachine(), data), TTYPE) then w == []
            else |w| == 2 && w[0] == [255, 251, 24] && NamesTerminal(w[1])
  {
    AnswerIs(c, data, cmd, TTYPE);
    SeenIsHistory(c, InitialMachine(), data, TTYPE);
  }

  // ----- whole subnegotiations -----

  function Utf8Accepted(): seq<byte> { [255, 250, 42, 2] + Ascii("UTF-8") + [255, 240] }

  function AddressGiven(): seq<byte> { [255, 250, 39, 0, 0] + Ascii("IPADDRESS") + [1] + Ascii("0.0.0.0") + [255, 240] }

  predicate Accepts(writes: seq<seq<byte>>) { exists i | 0 <= i < |writes| :: writes[i] == Utf8Accepted() }

  lemma AcceptsConcat(a: seq<seq<byte>>, b: seq<seq<byte>>)
    ensures Accepts(a + b) <==> Accepts(a) || Accepts(b)
  {
    if Accepts(a) {
      var i :| 0 <= i < |a| && a[i] == Utf8Accepted();
      assert (a + b)[i] == Utf8Accepted();
    }
    if Accepts(b) {
      var i :| 0 <= i < |b| && b[i] == Utf8Accepted();
      assert (a + b)[|a| + i] == Utf8Accepted();
    }
  }

  lemma NegotiateAcceptsNothing(c: Config, o: Options, cmd: byte, option: byte)
    ensures !Accepts(WritesOf(Negotiate(c, o, cmd, option).1))
    ensures Negotiate(c, o, cmd, option).0.flags.charset == o.flags.charset
  {
    NegotiateWrites(c, o, cmd, option);
    AnswersMatch(c, o, cmd, option);
    assert Utf8Accepted()[2] == 42;
  }

  lemma StepAccepts(c: Config, m: Machine, b: byte)
    ensures Step(c, m, b).0.opts.flags.charset <==> m.opts.flags.charset || Accepts(WritesOf(Step(c, m, b).1))
  {
    if m.mode.NegotiationMode? && m.cmd != SB {
      NegotiateAcceptsNothing(c, m.opts, m.cmd, b);
    } else if m.mode.SubnegIacMode? && b == SE {
      SubnegotiateAccepts(m.opts, m.option, m.buffer);
    } else {
      QuietStep(c, m, b);
      var es := Step(c, m, b).1;
      assert es == [] || es == [Emit(b)];
      FlatMapNone(EffectWrite, es);
    }
  }

  lemma SubnegotiateAccepts(o: Options, option: byte, data: seq<byte>)
    ensures var (o1, es) := Subnegotiate(o, option, data);
            && (o1.flags.charset <==> o.flags.charset || Accepts(WritesOf(es)))
            && (Accepts(WritesOf(es)) <==> option == CHARSET && !o.flags.charset)
  {
    if option == GMCP {
      FlatMapOne(EffectWrite, Gmcp(ParseGmcp(data)));
    } else {
      RepliesWrites(TtypeReplies(o.ttypeQueue));
      RepliesWrites([CharsetAccepted()]);
      RepliesWrites([IpAddressReply()]);
      var t := TtypeReplies(o.ttypeQueue);
      assert t[0][..3] == [255, 251, 24] && t[1][..3] == [255, 250, 24];
      assert IpAddressReply()[..3] == [255, 250, 39] && Utf8Accepted()[..3] == [255, 250, 42];
      assert [CharsetAccepted()][0] == Utf8Accepted();
    }
  }

  lemma {:induction false} AcceptedIsHistory(c: Config, m: Machine, data: seq<byte>)
    ensures Run(c, m, data).0.opts.flags.charset <==> m.opts.flags.charset || Accepts(WritesOf(Run(c, m, data).1))
    decreases |data|
  {
    if data != [] {
      var (m1, es) := Step(c, m, data[0]);
      StepAccepts(c, m, data[0]);
      AcceptedIsHistory(c, m1, data[1..]);
      OutputConcat(es, Run(c, m1, data[1..]).1);
      AcceptsConcat(WritesOf(es), WritesOf(Run(c, m1, data[1..]).1));
    }
  }

  /** What the parser writes when a whole subnegotiation follows data: UTF-8 is accepted
      once, whatever charsets are named; a request for the environment is answered with a
      placeholder address; every other one but a request for the terminal type with nothing. */
  lemma SubnegotiationsAnswered(c: Config, data: seq<byte>, option: byte, payload: seq<byte>)
    requires Run(c, InitialMachine(), data).0.mode.TextMode? && |payload| <= c.cap
    ensures var (m, before) := Run(c, InitialMachine(), data);
            var w := WritesOf(Run(c, m, Encode(Subnegotiation(option, payload))).1);
            var asked := payload != [] && payload[0] == 1;
            && (option == CHARSET ==> w == if Accepts(WritesOf(before)) then [] else [Utf8Accepted()])
            && (option == NEW_ENV ==> w == if asked then [AddressGiven()] else [])
            && (option == TTYPE ==>
                  if asked then |w| == 2 && w[0] == [255, 251, 24] && NamesTerminal(w[1]) else w == [])
            && (option !in {CHARSET, NEW_ENV, TTYPE} ==> w == [])
  {
    var m := Run(c, InitialMachine(), data).0;
    RunSubnegotiation(c, m, option, payload);
    AcceptedIsHistory(c, InitialMachine(), data);
    if option == GMCP {
      FlatMapOne(EffectWrite, Gmcp(ParseGmcp(payload)));
    }
    RepliesWrites(TtypeReplies(m.opts.ttypeQueue));
    RepliesWrites([CharsetAccepted()]);
    RepliesWrites([IpAddressReply()]);
  }

  /** DO CHARSET is agreed to until UTF-8 has been accepted. */
  lemma CharsetOffered(c: Config, data: seq<byte>, cmd: byte)
    requires Run(c, InitialMachine(), data).0.mode.TextMode? && WILL <= cmd <= DONT
    ensures AnswerTo(c, data, cmd, CHARSET)
         == if cmd == DO && !Accepts(WritesOf(Run(c, InitialMachine(), data).1)) then [[255, 251, 42]] else []
  {
    AnswerIs(c, data, cmd, CHARSET);
    AcceptedIsHistory(c, InitialMachine(), data);
  }

  // ----- what is stripped -----

  /** After IAC in text mode a doubled IAC is text, codes below SB are stripped whole, and
      the rest open a sequence; nothing else is emitted. */
  lemma StrippedAfterIac(c: Config, m: Machine, b: byte)
    requires m.mode.TextMode?
    ensures var (m1, es) := Run(c, m, [IAC, b]);
            && es == (if b == 255 then [Emit(255)] else [])
            && (m1.mode.TextMode? <==> b < 250 || b == 255)
            && (b < 250 || b == 255 ==> m1 == m)
            && (250 <= b < 255 ==> m1.mode.NegotiationMode? && m1.cmd == b && m1.opts == m.opts)
  {
    RunTwo(c, m, IAC, b);
  }

  /** A subnegotiation broken off by IAC and another byte: one that fits ends there with no
      effect, and one over the cap goes on being discarded. */
  lemma BrokenSubnegotiation(c: Config, m: Machine, option: byte, payload: seq<byte>, b: byte)
    requires m.mode.TextMode? && b != SE && b != IAC
    ensures var (m1, es) := Run(c, m, [IAC, SB, option] + Escape(payload) + [IAC, b]);
            && es == [] && m1.opts == m.opts
            && m1.mode == if |payload| <= c.cap then TextMode else DiscardMode
  {
    var m0 := m.(mode := SubnegMode, cmd := SB, option := option, buffer := []);
    RunOpening(c, m, option);
    RunPayload(c, m0, payload);
    RunConcat(c, m, [IAC, SB, option], Escape(payload));
    RunConcat(c, m, [IAC, SB, option] + Escape(payload), [IAC, b]);
    RunTwo(c, AfterPayload(c, m0, payload), IAC, b);
  }

  /** The package ends at the first space: joined by it again, package and data are the
      payload, and the package holds no space. */
  lemma GmcpSplitsAtFirstSpace(payload: seq<byte>)
    ensures var g := ParseGmcp(payload);
            && 32 !in g.package
            && (if 32 in payload then payload == g.package + [32] + g.data else g == GmcpMessage(payload, []))
  {
    var i := IndexOfSpace(payload);
    if i < |payload| {
      SplitAt(payload, i);
    } else {
      assert payload[..i] == payload;
    }
  }

  lemma SplitAt(s: seq<byte>, i: nat)
    requires i < |s|
    ensures s[i] in s && s == s[..i] + [s[i]] + s[i + 1..]
  {
  }
}
