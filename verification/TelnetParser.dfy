/** The parser object: it updates its fields, its session's outgoing writes and the
    accumulator of the current call in place, and is proved against TelnetProtocol. */
module TelnetParsing {
  import opened TelnetProtocol

  /** The session as the parser sees it: a place to write, and a window size to report. */
  class MudLink {
    var written: seq<seq<byte>>
    const windowWidth: nat
    const windowHeight: nat

    constructor (width: nat, height: nat)
      ensures written == [] && windowWidth == width && windowHeight == height
    {
      written, windowWidth, windowHeight := [], width, height;
    }

    method SendToMud(data: seq<byte>)
      modifies this
      ensures written == old(written) + [data]
    {
      written := written + [data];
    }

    method SendNaws()
      modifies this
      ensures written == old(written) + [NawsReply(windowWidth, windowHeight)]
    {
      written := written + [[IAC, SB, NAWS, windowWidth / 256 % 256, windowWidth % 256,
                             windowHeight / 256 % 256, windowHeight % 256, IAC, SE]];
    }
  }

  /** The per-call accumulator threaded through Process and its handlers. */
  class ParseOutput {
    var currentText: seq<byte>
    var allText: seq<byte>
    var segments: seq<Segment>
    var gmcpMessages: seq<GmcpMessage>

    constructor ()
      ensures currentText == [] && allText == [] && segments == [] && gmcpMessages == []
    {
      currentText, allText, segments, gmcpMessages := [], [], [], [];
    }

    method PushTextByte(b: byte)
      modifies this
      ensures currentText == old(currentText) + [b] && allText == old(allText) + [b]
      ensures segments == old(segments) && gmcpMessages == old(gmcpMessages)
    {
      currentText := currentText + [b];
      allText := allText + [b];
    }

    method FlushText()
      modifies this
      ensures segments == Close(old(segments), old(currentText)) && currentText == []
      ensures allText == old(allText) && gmcpMessages == old(gmcpMessages)
    {
      if |currentText| > 0 {
        segments := segments + [TextSegment(currentText)];
        currentText := [];
      }
    }
  }

  /** ECHO is never answered; only WILL and WONT switch the password mode. */
  lemma EchoMeaning(c: Config, o: Options, cmd: byte)
    ensures Negotiate(c, o, cmd, ECHO)
         == if cmd == WILL then SetPassword(Settle(o, cmd, ECHO), true)
            else if cmd == WONT then SetPassword(Settle(o, cmd, ECHO), false)
            else (Settle(o, cmd, ECHO), [])
  {
    assert Replies([]) == [];
  }

  /** What a run has done and what it is still to do, one byte later. */
  lemma OneByteMore(c: Config, m: Machine, rest: seq<byte>, done: seq<Effect>)
    requires rest != []
    ensures var (m1, effects) := Step(c, m, rest[0]);
            && Run(c, m, rest).0 == Run(c, m1, rest[1..]).0
            && done + Run(c, m, rest).1 == (done + effects) + Run(c, m1, rest[1..]).1
  {
    var (m1, effects) := Step(c, m, rest[0]);
    assert done + (effects + Run(c, m1, rest[1..]).1) == (done + effects) + Run(c, m1, rest[1..]).1;
  }

  class TelnetParser {
    var state: Mode
    var negotiationCmd: byte
    var subnegOption: byte
    var subnegBuffer: seq<byte>

    var gmcpNegotiated: bool
    var ttypeNegotiated: bool
    var msdpNegotiated: bool
    var mxpNegotiated: bool
    var newEnvNegotiated: bool
    var echoNegotiated: bool
    var sgaNegotiated: bool
    var nawsNegotiated: bool
    var charsetNegotiated: bool
    var passwordMode: bool
    var ttypeQueue: seq<seq<byte>>

    const session: MudLink
    const maxSubnegotiationBytes: nat

    constructor (session: MudLink, maxSubnegotiationBytes: nat)
      ensures this.session == session && this.maxSubnegotiationBytes == maxSubnegotiationBytes
      ensures View() == InitialMachine()
    {
      this.session, this.maxSubnegotiationBytes := session, maxSubnegotiationBytes;
      state, negotiationCmd, subnegOption, subnegBuffer := TextMode, 0, 0, [];
      gmcpNegotiated, ttypeNegotiated, msdpNegotiated := false, false, false;
      mxpNegotiated, newEnvNegotiated, echoNegotiated := false, false, false;
      sgaNegotiated, nawsNegotiated, charsetNegotiated, passwordMode := false, false, false, false;
      ttypeQueue := [Ascii("MUDBasher"), Ascii("XTERM-256color"), Ascii("MTTS 141")];
    }

    ghost function Settings(): Config {
      Config(maxSubnegotiationBytes, session.windowWidth, session.windowHeight)
    }

    ghost function Negotiated(): Options
      reads this
    {
      Options(Flags(gmcpNegotiated, ttypeNegotiated, msdpNegotiated, mxpNegotiated, newEnvNegotiated,
                    echoNegotiated, sgaNegotiated, nawsNegotiated, charsetNegotiated),
              passwordMode, ttypeQueue)
    }

    ghost function View(): Machine
      reads this
    {
      Machine(state, negotiationCmd, subnegOption, subnegBuffer, Negotiated())
    }

    /** Everything the current call has produced so far. */
    ghost function Progress(output: ParseOutput): Outcome
      reads session, output
    {
      Outcome(output.allText, output.segments, output.currentText, output.gmcpMessages, session.written)
    }

    method Process(data: seq<byte>) returns (result: Result)
      modifies this, session
      ensures View() == Call(Settings(), old(View()), data).0
      ensures result == Call(Settings(), old(View()), data).1
      ensures session.written == old(session.written) + Call(Settings(), old(View()), data).2
    {
      var output := new ParseOutput();
      ghost var whole := Run(Settings(), View(), data);
      ghost var start := Progress(output);
      ghost var done: seq<Effect> := [];
      assert data[0..] == data && done + whole.1 == whole.1;
      for i := 0 to |data|
        invariant fresh(output)
        invariant Progress(output) == ApplyAll(start, done)
        invariant whole == (Run(Settings(), View(), data[i..]).0,
                            done + Run(Settings(), View(), data[i..]).1)
      {
        assert data[i..][0] == data[i] && data[i..][1..] == data[i + 1..];
        ghost var effects := Step(Settings(), View(), data[i]).1;
        ApplyAllConcat(start, done, effects);
        OneByteMore(Settings(), View(), data[i..], done);
        ProcessByte(data[i], output);
        done := done + effects;
      }
      assert data[|data|..] == [];
      assert done + [] == done;
      assert start.written + [] == start.written;
      ApplyAllPrefix(start.written, Outcome([], [], [], [], []), done);
      output.FlushText();
      result := Result(output.allText, output.segments, output.gmcpMessages);
    }

    method ProcessByte(b: byte, output: ParseOutput)
      modifies this, session, output
      ensures View() == Step(Settings(), old(View()), b).0
      ensures Progress(output) == ApplyAll(old(Progress(output)), Step(Settings(), old(View()), b).1)
    {
      match state {
        case TextMode =>
          if b == IAC {
            state := IacMode;
          } else {
            output.PushTextByte(b);
          }
        case IacMode =>
          if b == IAC {
            output.PushTextByte(IAC);
            state := TextMode;
          } else if NOP <= b <= GA {
            state := TextMode;
          } else if WILL <= b <= DONT {
            negotiationCmd := b;
            state := NegotiationMode;
          } else if b == SB {
            state := NegotiationMode;
            negotiationCmd := SB;
          } else {
            state := TextMode;
          }
        case NegotiationMode =>
          if negotiationCmd == SB {
            subnegOption := b;
            subnegBuffer := [];
            state := SubnegMode;
          } else {
            HandleNegotiation(negotiationCmd, b, output);
            state := TextMode;
          }
        case SubnegMode =>
          if b == IAC {
            state := SubnegIacMode;
          } else {
            var _ := AppendSubnegByte(b);
          }
        case DiscardMode =>
          if b == IAC {
            state := DiscardIacMode;
          }
        case DiscardIacMode =>
          if b == SE {
            state := TextMode;
          } else {
            state := DiscardMode;
          }
        case SubnegIacMode =>
          if b == SE {
            HandleSubnegotiation(subnegOption, subnegBuffer, output);
            state := TextMode;
          } else if b == IAC {
            var stored := AppendSubnegByte(IAC);
            if stored {
              state := SubnegMode;
            }
          } else {
            state := TextMode;
          }
      }
    }

    method AppendSubnegByte(b: byte) returns (stored: bool)
      modifies this
      ensures stored == (|old(subnegBuffer)| < maxSubnegotiationBytes)
      ensures subnegBuffer == if stored then old(subnegBuffer) + [b] else []
      ensures state == if stored then old(state) else DiscardMode
      ensures View() == old(View()).(mode := state, buffer := subnegBuffer)
    {
      if |subnegBuffer| >= maxSubnegotiationBytes {
        subnegBuffer := [];
        state := DiscardMode;
        return false;
      }
      subnegBuffer := subnegBuffer + [b];
      return true;
    }

    method SetPasswordMode(suppressed: bool, output: ParseOutput)
      modifies this, output
      ensures View() == old(View()).(opts := SetPassword(old(Negotiated()), suppressed).0)
      ensures Progress(output) == ApplyAll(old(Progress(output)), SetPassword(old(Negotiated()), suppressed).1)
    {
      if passwordMode == suppressed {
        return;
      }
      passwordMode := suppressed;
      output.FlushText();
      output.segments := output.segments + [EchoSegment(suppressed)];
    }

    method HandleNegotiation(cmd: byte, option: byte, output: ParseOutput)
      modifies this, session, output
      ensures View() == old(View()).(opts := Negotiate(Settings(), old(Negotiated()), cmd, option).0)
      ensures Progress(output)
           == ApplyAll(old(Progress(output)), Negotiate(Settings(), old(Negotiated()), cmd, option).1)
    {
      if option == ECHO {
        NegotiateEcho(cmd, output);
      } else {
        ApplyReplies(Progress(output), Answers(Settings(), Negotiated(), cmd, option));
        AnswerOption(cmd, option);
      }
    }

    method NegotiateEcho(cmd: byte, output: ParseOutput)
      modifies this, output
      ensures View() == old(View()).(opts := Negotiate(Settings(), old(Negotiated()), cmd, ECHO).0)
      ensures Progress(output)
           == ApplyAll(old(Progress(output)), Negotiate(Settings(), old(Negotiated()), cmd, ECHO).1)
    {
      echoNegotiated := echoNegotiated || cmd == WILL || cmd == WONT;
      assert Negotiated() == Settle(old(Negotiated()), cmd, ECHO);
      assert View() == old(View()).(opts := Negotiated());
      EchoMeaning(Settings(), old(Negotiated()), cmd);
      if cmd == WILL {
        SetPasswordMode(true, output);
      } else if cmd == WONT {
        SetPasswordMode(false, output);
      }
    }

    /** Every option but ECHO: at most some flags and some replies change. */
    method AnswerOption(cmd: byte, option: byte)
      requires option != ECHO
      modifies this, session
      ensures View() == old(View()).(opts := Settle(old(Negotiated()), cmd, option))
      ensures session.written == old(session.written) + Answers(Settings(), old(Negotiated()), cmd, option)
    {
      if option == GMCP {
        AnswerGmcp(cmd);
      } else if option == TTYPE {
        AnswerTtype(cmd);
      } else if option == MSDP {
        AnswerMsdp(cmd);
      } else if option == MXP {
        AnswerMxp(cmd);
      } else if option == NEW_ENV {
        AnswerNewEnv(cmd);
      } else if option == SGA {
        AnswerSga(cmd);
      } else if option == NAWS {
        AnswerNaws(cmd);
      } else if option == CHARSET {
        AnswerCharset(cmd);
      } else if option == MCCP2 {
      } else {
        if cmd == DO {
          session.SendToMud([IAC, WONT, option]);
        } else if cmd == WILL {
          session.SendToMud([IAC, DONT, option]);
        }
      }
    }

    method AnswerGmcp(cmd: byte)
      modifies this, session
      ensures View() == old(View()).(opts := Settle(old(Negotiated()), cmd, GMCP))
      ensures session.written == old(session.written) + Answers(Settings(), old(Negotiated()), cmd, GMCP)
    {
      if !gmcpNegotiated {
        gmcpNegotiated := true;
        if cmd == DO {
          session.SendToMud([IAC, WILL, GMCP]);
        } else if cmd == WILL {
          session.SendToMud([IAC, DO, GMCP]);
        }
        session.SendToMud(GmcpReply("client MUDBasher"));
        session.SendToMud(GmcpReply("client_version 1.0"));
      }
    }

    method AnswerTtype(cmd: byte)
      modifies this, session
      ensures View() == old(View()).(opts := Settle(old(Negotiated()), cmd, TTYPE))
      ensures session.written == old(session.written) + Answers(Settings(), old(Negotiated()), cmd, TTYPE)
    {
      if cmd == DO && !ttypeNegotiated {
        ttypeNegotiated := true;
        SendNextTtype();
      }
    }

    method AnswerMsdp(cmd: byte)
      modifies this, session
      ensures View() == old(View()).(opts := Settle(old(Negotiated()), cmd, MSDP))
      ensures session.written == old(session.written) + Answers(Settings(), old(Negotiated()), cmd, MSDP)
    {
      if cmd == WILL && !msdpNegotiated {
        msdpNegotiated := true;
        session.SendToMud([IAC, DO, MSDP]);
        session.SendToMud(MsdpPair("CLIENT_ID", "MUDBasher"));
        session.SendToMud(MsdpPair("CLIENT_VERSION", "1.0"));
        session.SendToMud(MsdpPair("XTERM_256_COLORS", "1"));
        session.SendToMud(MsdpPair("UTF_8", "1"));
      }
    }

    method AnswerMxp(cmd: byte)
      modifies this, session
      ensures View() == old(View()).(opts := Settle(old(Negotiated()), cmd, MXP))
      ensures session.written == old(session.written) + Answers(Settings(), old(Negotiated()), cmd, MXP)
    {
      if !mxpNegotiated {
        mxpNegotiated := true;
        if cmd == DO {
          session.SendToMud([IAC, WONT, MXP]);
        } else if cmd == WILL {
          session.SendToMud([IAC, DONT, MXP]);
        }
      }
    }

    method AnswerNewEnv(cmd: byte)
      modifies this, session
      ensures View() == old(View()).(opts := Settle(old(Negotiated()), cmd, NEW_ENV))
      ensures session.written == old(session.written) + Answers(Settings(), old(Negotiated()), cmd, NEW_ENV)
    {
      if cmd == DO && !newEnvNegotiated {
        newEnvNegotiated := true;
        session.SendToMud([IAC, WILL, NEW_ENV]);
      }
    }

    method AnswerSga(cmd: byte)
      modifies this, session
      ensures View() == old(View()).(opts := Settle(old(Negotiated()), cmd, SGA))
      ensures session.written == old(session.written) + Answers(Settings(), old(Negotiated()), cmd, SGA)
    {
      if cmd == WILL && !sgaNegotiated {
        sgaNegotiated := true;
        session.SendToMud([IAC, WONT, SGA]);
      }
    }

    method AnswerNaws(cmd: byte)
      modifies this, session
      ensures View() == old(View()).(opts := Settle(old(Negotiated()), cmd, NAWS))
      ensures session.written == old(session.written) + Answers(Settings(), old(Negotiated()), cmd, NAWS)
    {
      if cmd == DO && !nawsNegotiated {
        nawsNegotiated := true;
        session.SendNaws();
      } else if cmd == WILL && !nawsNegotiated {
        nawsNegotiated := true;
        session.SendToMud([IAC, WONT, NAWS]);
      }
    }

    method AnswerCharset(cmd: byte)
      modifies this, session
      ensures View() == old(View()).(opts := Settle(old(Negotiated()), cmd, CHARSET))
      ensures session.written == old(session.written) + Answers(Settings(), old(Negotiated()), cmd, CHARSET)
    {
      if cmd == DO && !charsetNegotiated {
        session.SendToMud([IAC, WILL, CHARSET]);
      }
    }

    method HandleSubnegotiation(option: byte, data: seq<byte>, output: ParseOutput)
      modifies this, session, output
      ensures View() == old(View()).(opts := Subnegotiate(old(Negotiated()), option, data).0)
      ensures Progress(output)
           == ApplyAll(old(Progress(output)), Subnegotiate(old(Negotiated()), option, data).1)
    {
      ghost var before := Progress(output);
      if option == TTYPE {
        if |data| > 0 && data[0] == REQUEST {
          ApplyReplies(before, TtypeReplies(ttypeQueue));
          SendNextTtype();
        }
      } else if option == GMCP {
        HandleGmcpSubneg(data, output);
      } else if option == CHARSET {
        if !charsetNegotiated {
          charsetNegotiated := true;
          ApplyReplies(before, [CharsetAccepted()]);
          session.SendToMud(CharsetAccepted());
        }
      } else if option == NEW_ENV {
        if |data| > 0 && data[0] == REQUEST {
          ApplyReplies(before, [IpAddressReply()]);
          session.SendToMud(IpAddressReply());
        }
      }
    }

    method HandleGmcpSubneg(data: seq<byte>, output: ParseOutput)
      modifies output
      ensures output.gmcpMessages == old(output.gmcpMessages) + [ParseGmcp(data)]
      ensures output.allText == old(output.allText) && output.currentText == old(output.currentText)
      ensures output.segments == old(output.segments)
    {
      var space := 0;
      assert data[0..] == data;
      while space < |data| && data[space] != SPACE
        invariant 0 <= space <= |data|
        invariant IndexOfSpace(data) == space + IndexOfSpace(data[space..])
      {
        assert data[space..][1..] == data[space + 1..];
        space := space + 1;
      }
      if space == |data| {
        output.gmcpMessages := output.gmcpMessages + [GmcpMessage(data, [])];
      } else {
        output.gmcpMessages := output.gmcpMessages + [GmcpMessage(data[..space], data[space + 1..])];
      }
    }

    method SendNextTtype()
      modifies this`ttypeQueue, session
      ensures ttypeQueue == RestTtypes(old(ttypeQueue))
      ensures session.written == old(session.written) + TtypeReplies(old(ttypeQueue))
    {
      var ttype := Ascii("MUDBasher");
      if |ttypeQueue| > 0 {
        ttype := ttypeQueue[0];
        ttypeQueue := ttypeQueue[1..];
      }
      session.SendToMud([IAC, WILL, TTYPE]);
      session.SendToMud([IAC, SB, TTYPE, IS] + ttype + [IAC, SE]);
    }
  }

  /** What a call writes does not depend on what was written before it. */
  lemma {:induction false} ApplyAllPrefix(earlier: seq<seq<byte>>, o: Outcome, es: seq<Effect>)
    ensures ApplyAll(o.(written := earlier + o.written), es)
         == ApplyAll(o, es).(written := earlier + ApplyAll(o, es).written)
    decreases |es|
  {
    if es != [] {
      var next := Apply(o, es[0]);
      assert Apply(o.(written := earlier + o.written), es[0]) == next.(written := earlier + next.written) by {
        if es[0].Reply? {
          assert earlier + (o.written + [es[0].bytes]) == (earlier + o.written) + [es[0].bytes];
        }
      }
      ApplyAllPrefix(earlier, next, es[1..]);
    }
  }
}
