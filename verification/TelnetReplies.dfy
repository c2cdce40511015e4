/** The parser answers the MUD, so what it writes must be bounded by what it reads. */
module TelnetReplies {
  import opened TelnetProtocol
  import opened TelnetTheorems
  import opened Sequences

  function Volume(writes: seq<seq<byte>>): nat {
    if writes == [] then 0 else |writes[0]| + Volume(writes[1..])
  }

  /** The number of bytes a list of effects writes to the MUD. */
  function Written(es: seq<Effect>): nat {
    Volume(WritesOf(es))
  }

  lemma {:induction false} VolumeConcat(a: seq<seq<byte>>, b: seq<seq<byte>>)
    ensures Volume(a + b) == Volume(a) + Volume(b)
    decreases |a|
  {
    if a == [] {
      assert a + b == b;
    } else {
      assert (a + b)[1..] == a[1..] + b;
      VolumeConcat(a[1..], b);
    }
  }

  lemma VolumeOne(write: seq<byte>)
    ensures Volume([write]) == |write|
  {
    assert [write] == [write] + [];
  }

  lemma {:induction false} RepliesWritten(writes: seq<seq<byte>>)
    ensures Written(Replies(writes)) == Volume(writes)
    decreases |writes|
  {
    if writes != [] {
      assert Replies(writes)[1..] == Replies(writes[1..]);
      RepliesWritten(writes[1..]);
    }
  }

  // ----- a potential: bytes of an unfinished sequence, and answers not yet given -----

  /** How many bytes of the sequence under way have certainly been received. */
  function Pending(m: Machine): nat {
    match m.mode
    case TextMode => 0
    case IacMode => 1
    case NegotiationMode => 2
    case SubnegMode => 3 + |m.buffer|
    case SubnegIacMode => 4 + |m.buffer|
    case DiscardMode => 0
    case DiscardIacMode => 0
  }

  /** What the one-time answers still to come may write beyond four bytes per byte read. */
  function Credit(f: Flags): nat {
    (if f.gmcp then 0 else 35) + (if f.ttype then 0 else 11) + (if f.msdp then 0 else 77)
  }

  function Potential(m: Machine): nat {
    4 * Pending(m) + Credit(m.opts.flags)
  }

  /** Terminal names short enough that one answer fits six received bytes. */
  predicate ShortNames(queue: seq<seq<byte>>) {
    forall name <- queue :: |name| <= 14
  }

  lemma TtypeVolume(queue: seq<seq<byte>>)
    requires ShortNames(queue)
    ensures Volume(TtypeReplies(queue)) == 9 + |NextTtype(queue)| <= 23
  {
    var replies := TtypeReplies(queue);
    assert replies == [replies[0]] + [replies[1]];
    VolumeConcat([replies[0]], [replies[1]]);
    VolumeOne(replies[0]);
    VolumeOne(replies[1]);
  }

  lemma GmcpVolume(first: seq<byte>)
    requires |first| <= 3
    ensures Volume(GmcpClientInfo()) == 44
    ensures Volume([first] + GmcpClientInfo()) <= 47
  {
    var info := GmcpClientInfo();
    assert info[1..] == [info[1]] && info[2..] == info[1..][1..];
    assert ([first] + info)[1..] == info;
  }

  lemma MsdpVolume()
    ensures Volume(MsdpReplies()) == 89
  {
    var r := MsdpReplies();
    assert r == [r[0]] + [r[1]] + [r[2]] + [r[3]] + [r[4]];
    VolumeConcat([r[0]] + [r[1]] + [r[2]] + [r[3]], [r[4]]);
    VolumeConcat([r[0]] + [r[1]] + [r[2]], [r[3]]);
    VolumeConcat([r[0]] + [r[1]], [r[2]]);
    VolumeConcat([r[0]], [r[1]]);
    assert |r[0]| == 3 && |r[1]| == 25 && |r[2]| == 24 && |r[3]| == 24 && |r[4]| == 13;
  }

  lemma AnswersVolume(c: Config, o: Options, cmd: byte, option: byte)
    requires ShortNames(o.ttypeQueue)
    ensures Volume(Answers(c, o, cmd, option)) + Credit(Flagged(o.flags, cmd, option)) <= 12 + Credit(o.flags)
  {
    if option == GMCP {
      GmcpVolume([IAC, WILL, GMCP]);
      GmcpVolume([IAC, DO, GMCP]);
    } else if option == TTYPE {
      TtypeVolume(o.ttypeQueue);
    } else if option == MSDP {
      MsdpVolume();
    } else {
      var a := Answers(c, o, cmd, option);
      if a != [] {
        assert a == [a[0]];
        VolumeOne(a[0]);
      }
    }
  }

  lemma NegotiateVolume(c: Config, o: Options, cmd: byte, option: byte)
    requires ShortNames(o.ttypeQueue)
    ensures var (o1, es) := Negotiate(c, o, cmd, option);
            && ShortNames(o1.ttypeQueue)
            && Written(es) + Credit(o1.flags) <= 12 + Credit(o.flags)
  {
    if option == ECHO && (cmd == WILL || cmd == WONT) {
      FlatMapOne(EffectWrite, Switch(cmd == WILL));
    } else {
      AnswersVolume(c, o, cmd, option);
      RepliesWritten(Answers(c, o, cmd, option));
    }
  }

  lemma SubnegotiateVolume(o: Options, option: byte, data: seq<byte>)
    requires ShortNames(o.ttypeQueue)
    ensures var (o1, es) := Subnegotiate(o, option, data);
            && ShortNames(o1.ttypeQueue)
            && Written(es) <= 4 * (5 + |data|)
            && Credit(o1.flags) == Credit(o.flags)
  {
    if option == GMCP {
      FlatMapOne(EffectWrite, Gmcp(ParseGmcp(data)));
    } else {
      TtypeVolume(o.ttypeQueue);
      RepliesWritten(TtypeReplies(o.ttypeQueue));
      RepliesWritten([CharsetAccepted()]);
      RepliesWritten([IpAddressReply()]);
      VolumeOne(CharsetAccepted());
      VolumeOne(IpAddressReply());
    }
  }

  /** One byte read buys four bytes written, kept in the potential until spent. */
  lemma StepWithinBudget(c: Config, m: Machine, b: byte)
    requires ShortNames(m.opts.ttypeQueue)
    ensures var (m1, es) := Step(c, m, b);
            && ShortNames(m1.opts.ttypeQueue)
            && Written(es) + Potential(m1) <= Potential(m) + 4
  {
    if m.mode.NegotiationMode? && m.cmd != SB {
      NegotiateVolume(c, m.opts, m.cmd, b);
    } else if m.mode.SubnegIacMode? && b == SE {
      SubnegotiateVolume(m.opts, m.option, m.buffer);
    } else {
      QuietStep(c, m, b);
    }
  }

  lemma QuietStep(c: Config, m: Machine, b: byte)
    requires !(m.mode.NegotiationMode? && m.cmd != SB) && !(m.mode.SubnegIacMode? && b == SE)
    ensures var (m1, es) := Step(c, m, b);
            && Written(es) == 0 && m1.opts == m.opts && Pending(m1) <= Pending(m) + 1
  {
    var es := Step(c, m, b).1;
    assert es == [] || es == [Emit(b)];
    FlatMapNone(EffectWrite, es);
  }

  lemma {:induction false} RunWithinBudget(c: Config, m: Machine, data: seq<byte>)
    requires ShortNames(m.opts.ttypeQueue)
    ensures var (m1, es) := Run(c, m, data);
            Written(es) + Potential(m1) <= Potential(m) + 4 * |data|
    decreases |data|
  {
    if data != [] {
      var (m1, es) := Step(c, m, data[0]);
      StepWithinBudget(c, m, data[0]);
      RunWithinBudget(c, m1, data[1..]);
      OutputConcat(es, Run(c, m1, data[1..]).1);
      VolumeConcat(WritesOf(es), WritesOf(Run(c, m1, data[1..]).1));
    }
  }

  /** A fresh parser never writes more than four bytes per byte received, plus 123,
      however the bytes arrive. */
  lemma RepliesBounded(c: Config, chunks: seq<seq<byte>>)
    ensures Volume(Calls(c, InitialMachine(), chunks).2) <= 4 * |Concat(chunks)| + 123
  {
    CallsMeaning(c, InitialMachine(), chunks);
    RunWithinBudget(c, InitialMachine(), Concat(chunks));
  }

  function Repeat(n: nat, data: seq<byte>): seq<byte> {
    if n == 0 then [] else data + Repeat(n - 1, data)
  }

  /** The factor is exact: a MUD that keeps asking for the environment gets 24 bytes for
      every six it sends. */
  lemma {:induction false} FactorReached(c: Config, m: Machine, n: nat)
    requires m.mode.TextMode? && c.cap >= 1
    decreases n
    ensures var ask := [IAC, SB, NEW_ENV, REQUEST, IAC, SE];
            Written(Run(c, m, Repeat(n, ask)).1) == 4 * |Repeat(n, ask)| == 24 * n
  {
    if n > 0 {
      var ask := [IAC, SB, NEW_ENV, REQUEST, IAC, SE];
      var m1 := EnvironmentAsked(c, m);
      FactorReached(c, m1, n - 1);
      WrittenConcat(c, m, ask, Repeat(n - 1, ask));
    }
  }

  lemma WrittenConcat(c: Config, m: Machine, a: seq<byte>, b: seq<byte>)
    ensures Written(Run(c, m, a + b).1) == Written(Run(c, m, a).1) + Written(Run(c, Run(c, m, a).0, b).1)
  {
    RunConcat(c, m, a, b);
    OutputConcat(Run(c, m, a).1, Run(c, Run(c, m, a).0, b).1);
    VolumeConcat(WritesOf(Run(c, m, a).1), WritesOf(Run(c, Run(c, m, a).0, b).1));
  }

  lemma EnvironmentAsked(c: Config, m: Machine) returns (m1: Machine)
    requires m.mode.TextMode? && c.cap >= 1
    ensures Run(c, m, [IAC, SB, NEW_ENV, REQUEST, IAC, SE]) == (m1, Replies([IpAddressReply()]))
    ensures m1.mode.TextMode? && Written(Replies([IpAddressReply()])) == 24
  {
    var m0 := m.(mode := SubnegIacMode, cmd := SB, option := NEW_ENV, buffer := [REQUEST]);
    m1 := m0.(mode := TextMode);
    assert Run(c, m, [IAC, SB, NEW_ENV, REQUEST, IAC]) == (m0, []) by {
      assert forall es: seq<Effect> :: [] + es == es;
      var d := [IAC, SB, NEW_ENV, REQUEST, IAC];
      assert d[1..] == [SB, NEW_ENV, REQUEST, IAC] && d[1..][1..] == [NEW_ENV, REQUEST, IAC];
      assert d[1..][1..][1..] == [REQUEST, IAC] && d[1..][1..][1..][1..] == [IAC];
      assert d[1..][1..][1..][1..][1..] == [];
      var a := m.(mode := IacMode);
      var b := m.(mode := NegotiationMode, cmd := SB);
      var e := b.(mode := SubnegMode, option := NEW_ENV, buffer := []);
      var f := e.(buffer := [REQUEST]);
      assert AppendPayload(c, e, REQUEST) == f;
      assert Step(c, f, IAC) == (m0, []) && Step(c, e, REQUEST) == (f, []);
      assert Run(c, m0, []) == (m0, []);
      assert Run(c, f, [IAC]) == (m0, []);
      assert Run(c, e, [REQUEST, IAC]) == (m0, []);
      assert Run(c, b, [NEW_ENV, REQUEST, IAC]) == (m0, []);
      assert Run(c, a, [SB, NEW_ENV, REQUEST, IAC]) == (m0, []);
    }
    assert [IAC, SB, NEW_ENV, REQUEST, IAC] + [SE] == [IAC, SB, NEW_ENV, REQUEST, IAC, SE];
    RunConcat(c, m, [IAC, SB, NEW_ENV, REQUEST, IAC], [SE]);
    assert [SE][1..] == [] && Step(c, m0, SE).1 + [] == Replies([IpAddressReply()]);
    assert [] + Replies([IpAddressReply()]) == Replies([IpAddressReply()]);
    RepliesWritten([IpAddressReply()]);
    VolumeOne(IpAddressReply());
  }

  // ----- each offer is answered once -----

  const AnsweredOnce: set<byte> := {GMCP, TTYPE, MSDP, MXP, NEW_ENV, SGA, NAWS}

  predicate Seen(f: Flags, option: byte) {
    (option == GMCP && f.gmcp) || (option == TTYPE && f.ttype) || (option == MSDP && f.msdp)
    || (option == MXP && f.mxp) || (option == NEW_ENV && f.newEnv) || (option == SGA && f.sga)
    || (option == NAWS && f.naws)
  }

  /** This byte completes a negotiation of the option, and the parser answers it. */
  predicate AnswersNow(c: Config, m: Machine, b: byte, option: byte) {
    && m.mode.NegotiationMode? && m.cmd != SB && b == option
    && WritesOf(Step(c, m, b).1) != []
  }

  /** How many negotiations of the option the run answers. */
  function Answered(c: Config, m: Machine, data: seq<byte>, option: byte): nat
    decreases |data|
  {
    if data == [] then 0
    else
      (if AnswersNow(c, m, data[0], option) then 1 else 0)
      + Answered(c, Step(c, m, data[0]).0, data[1..], option)
  }

  lemma SeenStays(c: Config, m: Machine, b: byte, option: byte)
    requires option in AnsweredOnce
    ensures var f1 := Step(c, m, b).0.opts.flags;
            && (Seen(m.opts.flags, option) ==> Seen(f1, option) && !AnswersNow(c, m, b, option))
            && (AnswersNow(c, m, b, option) ==> Seen(f1, option))
  {
    if m.mode.NegotiationMode? && m.cmd != SB {
      FlaggedOnce(c, m.opts, m.cmd, b, option);
    } else if m.mode.SubnegIacMode? && b == SE {
    } else {
      QuietStep(c, m, b);
    }
  }

  lemma FlaggedOnce(c: Config, o: Options, cmd: byte, b: byte, option: byte)
    requires option in AnsweredOnce
    ensures var (o1, es) := Negotiate(c, o, cmd, b);
            && (Seen(o.flags, option) ==> Seen(o1.flags, option))
            && (b == option && WritesOf(es) != [] ==> !Seen(o.flags, option) && Seen(o1.flags, option))
  {
    if Seen(o.flags, option) {
      SeenKept(o.flags, cmd, b, option);
    }
    if b == option {
      AnsweredThenSeen(c, o, cmd, option);
      var answers := Answers(c, o, cmd, option);
      assert answers == [] ==> Replies(answers) == [];
    }
  }

  lemma SeenKept(f: Flags, cmd: byte, b: byte, option: byte)
    requires Seen(f, option)
    ensures Seen(Flagged(f, cmd, b), option)
  {
  }

  lemma AnsweredThenSeen(c: Config, o: Options, cmd: byte, option: byte)
    requires option in AnsweredOnce
    ensures Seen(o.flags, option) ==> Answers(c, o, cmd, option) == []
    ensures Answers(c, o, cmd, option) != [] ==> Seen(Flagged(o.flags, cmd, option), option)
  {
  }

  /** Over any run, at most one negotiation of each gated option is answered, and none
      that was seen before the run. */
  lemma {:induction false} AnsweredAtMostOnce(c: Config, m: Machine, data: seq<byte>, option: byte)
    requires option in AnsweredOnce
    ensures Answered(c, m, data, option) <= if Seen(m.opts.flags, option) then 0 else 1
    decreases |data|
  {
    if data != [] {
      SeenStays(c, m, data[0], option);
      AnsweredAtMostOnce(c, Step(c, m, data[0]).0, data[1..], option);
    }
  }
}
