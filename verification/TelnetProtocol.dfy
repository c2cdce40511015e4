/** The telnet byte machine as functions on values: one byte at a time, a machine
    state goes to the next one and a list of effects comes out.  The class in
    TelnetParser.dfy is proved against these functions; TelnetTheorems.dfy says what
    they mean for whole streams. */
module TelnetProtocol {

  type byte = x: int | 0 <= x < 256

  const IAC: byte := 255
  const SE: byte := 240
  const NOP: byte := 241
  const GA: byte := 249
  const SB: byte := 250
  const WILL: byte := 251
  const WONT: byte := 252
  const DO: byte := 253
  const DONT: byte := 254

  const ECHO: byte := 1
  const SGA: byte := 3
  const TTYPE: byte := 24
  const NAWS: byte := 31
  const NEW_ENV: byte := 39
  const CHARSET: byte := 42
  const MSDP: byte := 69
  const MCCP2: byte := 86
  const MXP: byte := 91
  const GMCP: byte := 201

  const IS: byte := 0
  const REQUEST: byte := 1
  const ACCEPTED: byte := 2
  const MSDP_VAR: byte := 1
  const MSDP_VAL: byte := 2
  const SPACE: byte := 32

  datatype Mode =
    | TextMode
    | IacMode
    | NegotiationMode
    | SubnegMode
    | SubnegIacMode
    | DiscardMode
    | DiscardIacMode

  /** What a parser is built with: its cap, and the window size its session reports. */
  datatype Config = Config(cap: nat, width: nat, height: nat)

  /** Which options have been seen, once and for all. */
  datatype Flags = Flags(
    gmcp: bool, ttype: bool, msdp: bool, mxp: bool, newEnv: bool,
    echo: bool, sga: bool, naws: bool, charset: bool)

  /** Everything negotiation changes, and nothing else. */
  datatype Options = Options(flags: Flags, passwordMode: bool, ttypeQueue: seq<seq<byte>>)

  datatype Machine = Machine(mode: Mode, cmd: byte, option: byte, buffer: seq<byte>, opts: Options)

  datatype GmcpMessage = GmcpMessage(package: seq<byte>, data: seq<byte>)

  /** What one byte can cause, in the order it happens. */
  datatype Effect =
    | Emit(b: byte)
    | Switch(suppressed: bool)
    | Gmcp(message: GmcpMessage)
    | Reply(bytes: seq<byte>)

  function Ascii(s: string): (bytes: seq<byte>)
    ensures |bytes| == |s| && forall i | 0 <= i < |s| :: s[i] < 128 as char ==> bytes[i] == s[i] as int
  {
    seq(|s|, i requires 0 <= i < |s| => s[i] as int % 256)
  }

  function InitialOptions(): Options {
    Options(Flags(false, false, false, false, false, false, false, false, false), false,
            [Ascii("MUDBasher"), Ascii("XTERM-256color"), Ascii("MTTS 141")])
  }

  function InitialMachine(): Machine {
    Machine(TextMode, 0, 0, [], InitialOptions())
  }

  // ----- replies -----

  function Replies(writes: seq<seq<byte>>): seq<Effect> {
    seq(|writes|, i requires 0 <= i < |writes| => Reply(writes[i]))
  }

  function GmcpReply(msg: string): seq<byte> {
    [IAC, SB, GMCP] + Ascii(msg) + [IAC, SE]
  }

  function MsdpPair(key: string, val: string): seq<byte> {
    [IAC, SB, MSDP, MSDP_VAR] + Ascii(key) + [MSDP_VAL] + Ascii(val) + [IAC, SE]
  }

  function GmcpClientInfo(): seq<seq<byte>> {
    [GmcpReply("client MUDBasher"), GmcpReply("client_version 1.0")]
  }

  function MsdpReplies(): seq<seq<byte>> {
    [[IAC, DO, MSDP],
     MsdpPair("CLIENT_ID", "MUDBasher"),
     MsdpPair("CLIENT_VERSION", "1.0"),
     MsdpPair("XTERM_256_COLORS", "1"),
     MsdpPair("UTF_8", "1")]
  }

  function CharsetAccepted(): seq<byte> {
    [IAC, SB, CHARSET, ACCEPTED] + Ascii("UTF-8") + [IAC, SE]
  }

  function IpAddressReply(): seq<byte> {
    [IAC, SB, NEW_ENV, IS, IS] + Ascii("IPADDRESS") + [REQUEST] + Ascii("0.0.0.0") + [IAC, SE]
  }

  function NawsReply(width: nat, height: nat): seq<byte> {
    [IAC, SB, NAWS, width / 256 % 256, width % 256, height / 256 % 256, height % 256, IAC, SE]
  }

  function NextTtype(queue: seq<seq<byte>>): seq<byte> {
    if |queue| > 0 then queue[0] else Ascii("MUDBasher")
  }

  function TtypeReplies(queue: seq<seq<byte>>): seq<seq<byte>> {
    [[IAC, WILL, TTYPE], [IAC, SB, TTYPE, IS] + NextTtype(queue) + [IAC, SE]]
  }

  function RestTtypes(queue: seq<seq<byte>>): seq<seq<byte>> {
    if |queue| > 0 then queue[1..] else queue
  }

  // ----- negotiation -----

  /** The bytes that answer IAC cmd option, write by write. */
  function Answers(c: Config, o: Options, cmd: byte, option: byte): seq<seq<byte>> {
    if option == GMCP then
      if o.flags.gmcp then []
      else if cmd == DO then [[IAC, WILL, GMCP]] + GmcpClientInfo()
      else if cmd == WILL then [[IAC, DO, GMCP]] + GmcpClientInfo()
      else GmcpClientInfo()
    else if option == TTYPE then
      if cmd == DO && !o.flags.ttype then TtypeReplies(o.ttypeQueue) else []
    else if option == MSDP then
      if cmd == WILL && !o.flags.msdp then MsdpReplies() else []
    else if option == MXP then
      if o.flags.mxp then [] else Refusal(cmd, MXP)
    else if option == NEW_ENV then
      if cmd == DO && !o.flags.newEnv then [[IAC, WILL, NEW_ENV]] else []
    else if option == SGA then
      if cmd == WILL && !o.flags.sga then [[IAC, WONT, SGA]] else []
    else if option == NAWS then
      if o.flags.naws then []
      else if cmd == DO then [NawsReply(c.width, c.height)]
      else if cmd == WILL then [[IAC, WONT, NAWS]]
      else []
    else if option == CHARSET then
      if cmd == DO && !o.flags.charset then [[IAC, WILL, CHARSET]] else []
    else if option == ECHO || option == MCCP2 then []
    else Refusal(cmd, option)
  }

  function Refusal(cmd: byte, option: byte): seq<seq<byte>> {
    if cmd == DO then [[IAC, WONT, option]]
    else if cmd == WILL then [[IAC, DONT, option]]
    else []
  }

  /** The flags after IAC cmd option. */
  function Flagged(f: Flags, cmd: byte, option: byte): Flags {
    Flags(f.gmcp || option == GMCP,
          f.ttype || (option == TTYPE && cmd == DO),
          f.msdp || (option == MSDP && cmd == WILL),
          f.mxp || option == MXP,
          f.newEnv || (option == NEW_ENV && cmd == DO),
          f.echo || (option == ECHO && (cmd == WILL || cmd == WONT)),
          f.sga || (option == SGA && cmd == WILL),
          f.naws || (option == NAWS && (cmd == DO || cmd == WILL)),
          f.charset)
  }

  /** The options after IAC cmd option, the password mode apart. */
  function Settle(o: Options, cmd: byte, option: byte): Options {
    Options(Flagged(o.flags, cmd, option), o.passwordMode,
            if option == TTYPE && cmd == DO && !o.flags.ttype then RestTtypes(o.ttypeQueue) else o.ttypeQueue)
  }

  /** IAC cmd option, complete. */
  function Negotiate(c: Config, o: Options, cmd: byte, option: byte): (Options, seq<Effect>) {
    if option == ECHO && cmd == WILL then SetPassword(Settle(o, cmd, option), true)
    else if option == ECHO && cmd == WONT then SetPassword(Settle(o, cmd, option), false)
    else (Settle(o, cmd, option), Replies(Answers(c, o, cmd, option)))
  }

  function SetPassword(o: Options, suppressed: bool): (Options, seq<Effect>) {
    if o.passwordMode == suppressed then (o, [])
    else (o.(passwordMode := suppressed), [Switch(suppressed)])
  }

  // ----- subnegotiation -----

  function IndexOfSpace(data: seq<byte>): (i: nat)
    ensures i <= |data|
    ensures SPACE !in data[..i]
    ensures i < |data| ==> data[i] == SPACE
  {
    if data == [] || data[0] == SPACE then 0
    else
      var rest := IndexOfSpace(data[1..]);
      assert data[..rest + 1] == [data[0]] + data[1..][..rest];
      rest + 1
  }

  /** The package is what stands before the first space; the data is what follows it. */
  function ParseGmcp(data: seq<byte>): GmcpMessage {
    var i := IndexOfSpace(data);
    if i == |data| then GmcpMessage(data, []) else GmcpMessage(data[..i], data[i + 1..])
  }

  /** IAC SB option data IAC SE, complete. */
  function Subnegotiate(o: Options, option: byte, data: seq<byte>): (Options, seq<Effect>) {
    if option == TTYPE then
      if |data| > 0 && data[0] == REQUEST
      then (o.(ttypeQueue := RestTtypes(o.ttypeQueue)), Replies(TtypeReplies(o.ttypeQueue)))
      else (o, [])
    else if option == GMCP then
      (o, [Gmcp(ParseGmcp(data))])
    else if option == CHARSET then
      if !o.flags.charset then (o.(flags := o.flags.(charset := true)), Replies([CharsetAccepted()])) else (o, [])
    else if option == NEW_ENV then
      if |data| > 0 && data[0] == REQUEST then (o, Replies([IpAddressReply()])) else (o, [])
    else
      (o, [])
  }

  // ----- one byte, one stream -----

  /** Store one payload byte, or start discarding when the cap is reached. */
  function AppendPayload(c: Config, m: Machine, b: byte): Machine {
    if |m.buffer| >= c.cap then m.(mode := DiscardMode, buffer := [])
    else m.(mode := SubnegMode, buffer := m.buffer + [b])
  }

  function Step(c: Config, m: Machine, b: byte): (Machine, seq<Effect>) {
    match m.mode
    case TextMode =>
      if b == IAC then (m.(mode := IacMode), []) else (m, [Emit(b)])
    case IacMode =>
      if b == IAC then (m.(mode := TextMode), [Emit(IAC)])
      else if NOP <= b <= GA then (m.(mode := TextMode), [])
      else if WILL <= b <= DONT || b == SB then (m.(mode := NegotiationMode, cmd := b), [])
      else (m.(mode := TextMode), [])
    case NegotiationMode =>
      if m.cmd == SB then (m.(mode := SubnegMode, option := b, buffer := []), [])
      else
        var (opts, es) := Negotiate(c, m.opts, m.cmd, b);
        (m.(mode := TextMode, opts := opts), es)
    case SubnegMode =>
      if b == IAC then (m.(mode := SubnegIacMode), []) else (AppendPayload(c, m, b), [])
    case SubnegIacMode =>
      if b == SE then
        var (opts, es) := Subnegotiate(m.opts, m.option, m.buffer);
        (m.(mode := TextMode, opts := opts), es)
      else if b == IAC then (AppendPayload(c, m, IAC), [])
      else (m.(mode := TextMode), [])
    case DiscardMode =>
      (if b == IAC then m.(mode := DiscardIacMode) else m, [])
    case DiscardIacMode =>
      (m.(mode := if b == SE then TextMode else DiscardMode), [])
  }

  function Run(c: Config, m: Machine, data: seq<byte>): (Machine, seq<Effect>)
    decreases |data|
  {
    if data == [] then (m, [])
    else
      var (m1, es1) := Step(c, m, data[0]);
      var (m2, es2) := Run(c, m1, data[1..]);
      (m2, es1 + es2)
  }

  // ----- what a call hands back -----

  datatype Segment = TextSegment(data: seq<byte>) | EchoSegment(suppressed: bool)

  /** The accumulator of a call: closed segments, the open text run, and the rest. */
  datatype Outcome = Outcome(
    text: seq<byte>, closed: seq<Segment>, open: seq<byte>,
    gmcp: seq<GmcpMessage>, written: seq<seq<byte>>)

  function Close(segments: seq<Segment>, open: seq<byte>): seq<Segment> {
    if |open| > 0 then segments + [TextSegment(open)] else segments
  }

  function Apply(o: Outcome, e: Effect): Outcome {
    match e
    case Emit(b) => o.(text := o.text + [b], open := o.open + [b])
    case Switch(s) => o.(closed := Close(o.closed, o.open) + [EchoSegment(s)], open := [])
    case Gmcp(g) => o.(gmcp := o.gmcp + [g])
    case Reply(r) => o.(written := o.written + [r])
  }

  function ApplyAll(o: Outcome, es: seq<Effect>): Outcome
    decreases |es|
  {
    if es == [] then o else ApplyAll(Apply(o, es[0]), es[1..])
  }

  lemma {:induction false} ApplyAllConcat(o: Outcome, a: seq<Effect>, b: seq<Effect>)
    ensures ApplyAll(o, a + b) == ApplyAll(ApplyAll(o, a), b)
    decreases |a|
  {
    if a == [] {
      assert a + b == b;
    } else {
      assert (a + b)[1..] == a[1..] + b;
      ApplyAllConcat(Apply(o, a[0]), a[1..], b);
    }
  }

  /** A batch of replies only lengthens what was written. */
  lemma {:induction false} ApplyReplies(o: Outcome, writes: seq<seq<byte>>)
    ensures ApplyAll(o, Replies(writes)) == o.(written := o.written + writes)
    decreases |writes|
  {
    if writes == [] {
      assert o.written + writes == o.written;
    } else {
      assert Replies(writes)[1..] == Replies(writes[1..]);
      ApplyReplies(Apply(o, Reply(writes[0])), writes[1..]);
      assert (o.written + [writes[0]]) + writes[1..] == o.written + writes;
    }
  }

  datatype Result = Result(text: seq<byte>, segments: seq<Segment>, gmcp: seq<GmcpMessage>)

  /** What one call of the parser means: its next state, its result and its writes. */
  function Call(c: Config, m: Machine, data: seq<byte>): (Machine, Result, seq<seq<byte>>) {
    var (m1, es) := Run(c, m, data);
    var o := ApplyAll(Outcome([], [], [], [], []), es);
    (m1, Result(o.text, Close(o.closed, o.open), o.gmcp), o.written)
  }
}
