/** An encoder for telnet streams (IAC doubling of RFC 854, subnegotiation of RFC 855)
    and the proof that the byte machine decodes it: text, echo switches in place, one
    message for each GMCP payload under the cap, nothing at all for a payload over it. */
module TelnetCodec {
  import opened TelnetProtocol
  import opened TelnetTheorems
  import opened Sequences

  datatype Item =
    | Text(data: seq<byte>)
    | Command(code: byte)
    | Negotiation(cmd: byte, option: byte)
    | Subnegotiation(option: byte, payload: seq<byte>)

  predicate ValidItem(item: Item) {
    match item
    case Text(_) => true
    case Command(code) => NOP <= code <= GA
    case Negotiation(cmd, _) => WILL <= cmd <= DONT
    case Subnegotiation(_, _) => true
  }

  function EscapeByte(b: byte): seq<byte> {
    if b == IAC then [IAC, IAC] else [b]
  }

  function Escape(data: seq<byte>): seq<byte> { FlatMap(EscapeByte, data) }

  function Encode(item: Item): seq<byte> {
    match item
    case Text(data) => Escape(data)
    case Command(code) => [IAC, code]
    case Negotiation(cmd, option) => [IAC, cmd, option]
    case Subnegotiation(option, payload) => [IAC, SB, option] + Escape(payload) + [IAC, SE]
  }

  function EncodeAll(items: seq<Item>): seq<byte> { FlatMap(Encode, items) }

  // ----- what the items mean, without the machine -----

  function ItemText(item: Item): seq<byte> {
    if item.Text? then item.data else []
  }

  function ItemMessage(c: Config, item: Item): seq<GmcpMessage> {
    if item.Subnegotiation? && item.option == GMCP && |item.payload| <= c.cap
    then [ParseGmcp(item.payload)] else []
  }

  /** The password mode this item asks for, if it asks. */
  function Asks(item: Item, mode: bool): bool {
    if item.Negotiation? && item.option == ECHO && item.cmd == WILL then true
    else if item.Negotiation? && item.option == ECHO && item.cmd == WONT then false
    else mode
  }

  /** Text in place, and a switch wherever an item changes the password mode. */
  function ItemOutputs(mode: bool, items: seq<Item>): seq<Out>
    decreases |items|
  {
    if items == [] then []
    else
      var next := Asks(items[0], mode);
      Bytes(ItemText(items[0])) + (if next != mode then [EchoTo(next)] else []) + ItemOutputs(next, items[1..])
  }

  /** The password mode after the items: what the last one that asks says. */
  function ModeAfter(mode: bool, items: seq<Item>): bool
    decreases |items|
  {
    if items == [] then mode else ModeAfter(Asks(items[0], mode), items[1..])
  }

  /** The options and effects of one item. */
  function Meaning(c: Config, o: Options, item: Item): (Options, seq<Effect>) {
    match item
    case Text(data) => (o, Emits(data))
    case Command(_) => (o, [])
    case Negotiation(cmd, option) => Negotiate(c, o, cmd, option)
    case Subnegotiation(option, payload) =>
      if |payload| <= c.cap then Subnegotiate(o, option, payload) else (o, [])
  }

  function Emits(data: seq<byte>): seq<Effect> {
    seq(|data|, i requires 0 <= i < |data| => Emit(data[i]))
  }

  // ----- the machine on the encoding of one item -----

  lemma RunTwo(c: Config, m: Machine, a: byte, b: byte)
    ensures var (m1, es1) := Step(c, m, a); var (m2, es2) := Step(c, m1, b);
            Run(c, m, [a, b]) == (m2, es1 + es2)
  {
    assert [a, b][1..] == [b];
    RunOne(c, Step(c, m, a).0, b);
  }

  lemma RunOne(c: Config, m: Machine, a: byte)
    ensures Run(c, m, [a]) == Step(c, m, a)
  {
    assert [a][1..] == [] && Step(c, m, a).1 + [] == Step(c, m, a).1;
  }

  lemma RunEscapedByte(c: Config, m: Machine, b: byte)
    requires m.mode.TextMode? || (m.mode.SubnegMode? && |m.buffer| <= c.cap) || m.mode.DiscardMode?
    ensures Run(c, m, EscapeByte(b))
         == (if m.mode.SubnegMode? then AppendPayload(c, m, b) else m,
             if m.mode.TextMode? then [Emit(b)] else [])
  {
    if b == IAC {
      RunTwo(c, m, IAC, IAC);
      assert [] + [Emit(IAC)] == [Emit(IAC)];
    } else {
      RunOne(c, m, b);
    }
  }

  lemma {:induction false} RunText(c: Config, m: Machine, data: seq<byte>)
    requires m.mode.TextMode?
    ensures Run(c, m, Escape(data)) == (m, Emits(data))
    decreases |data|
  {
    if data == [] {
    } else {
      RunEscapedByte(c, m, data[0]);
      RunText(c, m, data[1..]);
      RunConcat(c, m, EscapeByte(data[0]), Escape(data[1..]));
      assert Emits(data) == [Emit(data[0])] + Emits(data[1..]);
    }
  }

  /** What a whole payload leaves behind: itself when it fits, nothing when it does not. */
  function AfterPayload(c: Config, m: Machine, payload: seq<byte>): Machine {
    if |m.buffer| + |payload| <= c.cap then m.(buffer := m.buffer + payload)
    else m.(mode := DiscardMode, buffer := [])
  }

  lemma {:induction false} RunDiscarded(c: Config, m: Machine, payload: seq<byte>)
    requires m.mode.DiscardMode?
    ensures Run(c, m, Escape(payload)) == (m, [])
    decreases |payload|
  {
    if payload != [] {
      RunEscapedByte(c, m, payload[0]);
      RunDiscarded(c, m, payload[1..]);
      RunConcat(c, m, EscapeByte(payload[0]), Escape(payload[1..]));
    }
  }

  lemma {:induction false} RunPayload(c: Config, m: Machine, payload: seq<byte>)
    requires m.mode.SubnegMode? && |m.buffer| <= c.cap
    ensures Run(c, m, Escape(payload)) == (AfterPayload(c, m, payload), [])
    decreases |payload|
  {
    if payload == [] {
      assert m.buffer + payload == m.buffer;
    } else {
      var m1 := AppendPayload(c, m, payload[0]);
      RunEscapedByte(c, m, payload[0]);
      RunConcat(c, m, EscapeByte(payload[0]), Escape(payload[1..]));
      AfterOneMore(c, m, payload);
      if m1.mode.SubnegMode? {
        RunPayload(c, m1, payload[1..]);
      } else {
        RunDiscarded(c, m1, payload[1..]);
      }
    }
  }

  lemma AfterOneMore(c: Config, m: Machine, payload: seq<byte>)
    requires m.mode.SubnegMode? && |m.buffer| <= c.cap && payload != []
    ensures var m1 := AppendPayload(c, m, payload[0]);
            AfterPayload(c, m, payload) == if m1.mode.SubnegMode? then AfterPayload(c, m1, payload[1..]) else m1
  {
    assert (m.buffer + [payload[0]]) + payload[1..] == m.buffer + payload;
  }

  lemma RunOpening(c: Config, m: Machine, option: byte)
    requires m.mode.TextMode?
    ensures Run(c, m, [IAC, SB, option]) == (m.(mode := SubnegMode, cmd := SB, option := option, buffer := []), [])
  {
    assert [IAC, SB] + [option] == [IAC, SB, option];
    RunTwo(c, m, IAC, SB);
    RunConcat(c, m, [IAC, SB], [option]);
    RunOne(c, Run(c, m, [IAC, SB]).0, option);
  }

  lemma RunSubnegotiation(c: Config, m: Machine, option: byte, payload: seq<byte>)
    requires m.mode.TextMode?
    ensures var (m1, es) := Run(c, m, Encode(Subnegotiation(option, payload)));
            && m1.mode.TextMode?
            && (m1.opts, es) == Meaning(c, m.opts, Subnegotiation(option, payload))
  {
    var m0 := m.(mode := SubnegMode, cmd := SB, option := option, buffer := []);
    RunOpening(c, m, option);
    RunPayload(c, m0, payload);
    var m1 := AfterPayload(c, m0, payload);
    assert [] + payload == payload;
    RunConcat(c, m, [IAC, SB, option], Escape(payload));
    RunConcat(c, m, [IAC, SB, option] + Escape(payload), [IAC, SE]);
    RunTwo(c, m1, IAC, SE);
    assert forall es: seq<Effect> :: [] + es == es;
  }

  lemma RunItem(c: Config, m: Machine, item: Item)
    requires m.mode.TextMode? && ValidItem(item)
    ensures var (m1, es) := Run(c, m, Encode(item));
            && m1.mode.TextMode?
            && (m1.opts, es) == Meaning(c, m.opts, item)
  {
    match item
    case Text(data) => RunText(c, m, data);
    case Command(code) =>
      RunTwo(c, m, IAC, code);
      assert forall es: seq<Effect> :: [] + es == es;
    case Negotiation(cmd, option) =>
      assert [IAC, cmd] + [option] == [IAC, cmd, option];
      RunTwo(c, m, IAC, cmd);
      RunConcat(c, m, [IAC, cmd], [option]);
      RunOne(c, Run(c, m, [IAC, cmd]).0, option);
      assert forall es: seq<Effect> :: [] + es == es;
    case Subnegotiation(option, payload) => RunSubnegotiation(c, m, option, payload);
  }

  // ----- the effects of one item, part by part -----

  lemma {:induction false} EmitsParts(data: seq<byte>)
    ensures OutputOf(Emits(data)) == Bytes(data) && TextOf(Emits(data)) == data
    ensures MessagesOf(Emits(data)) == []
    decreases |data|
  {
    if data != [] {
      EmitsParts(data[1..]);
      assert Emits(data)[1..] == Emits(data[1..]);
      assert Bytes(data) == [Byte(data[0])] + Bytes(data[1..]);
    }
  }

  lemma RepliesParts(writes: seq<seq<byte>>)
    ensures OutputOf(Replies(writes)) == [] && TextOf(Replies(writes)) == [] && MessagesOf(Replies(writes)) == []
  {
    FlatMapNone(EffectOut, Replies(writes));
    FlatMapNone(EffectText, Replies(writes));
    FlatMapNone(EffectMessage, Replies(writes));
  }

  lemma SingleParts(e: Effect)
    ensures OutputOf([e]) == EffectOut(e) && TextOf([e]) == EffectText(e) && MessagesOf([e]) == EffectMessage(e)
  {
    FlatMapOne(EffectOut, e);
    FlatMapOne(EffectText, e);
    FlatMapOne(EffectMessage, e);
  }

  lemma NegotiateParts(c: Config, o: Options, cmd: byte, option: byte)
    ensures var (o1, es) := Negotiate(c, o, cmd, option); var item := Negotiation(cmd, option);
            && o1.passwordMode == Asks(item, o.passwordMode)
            && OutputOf(es) == (if o1.passwordMode != o.passwordMode then [EchoTo(o1.passwordMode)] else [])
            && TextOf(es) == [] && MessagesOf(es) == []
  {
    if option == ECHO && (cmd == WILL || cmd == WONT) {
      SingleParts(Switch(cmd == WILL));
    } else {
      RepliesParts(Answers(c, o, cmd, option));
    }
  }

  lemma SubnegotiateParts(o: Options, option: byte, data: seq<byte>)
    ensures var (o1, es) := Subnegotiate(o, option, data);
            && o1.passwordMode == o.passwordMode
            && OutputOf(es) == [] && TextOf(es) == []
            && MessagesOf(es) == if option == GMCP then [ParseGmcp(data)] else []
  {
    if option == GMCP {
      SingleParts(Gmcp(ParseGmcp(data)));
    } else {
      RepliesParts(TtypeReplies(o.ttypeQueue));
      RepliesParts([CharsetAccepted()]);
      RepliesParts([IpAddressReply()]);
    }
  }

  lemma MeaningParts(c: Config, o: Options, item: Item)
    ensures var (o1, es) := Meaning(c, o, item);
            && o1.passwordMode == Asks(item, o.passwordMode)
            && OutputOf(es) == Bytes(ItemText(item))
                               + (if o1.passwordMode != o.passwordMode then [EchoTo(o1.passwordMode)] else [])
            && TextOf(es) == ItemText(item)
            && MessagesOf(es) == ItemMessage(c, item)
  {
    match item
    case Text(data) => EmitsParts(data);
    case Command(_) =>
    case Negotiation(cmd, option) => NegotiateParts(c, o, cmd, option);
    case Subnegotiation(option, payload) => SubnegotiateParts(o, option, payload);
  }

  // ----- decoding inverts encoding -----

  lemma {:induction false} RunItems(c: Config, m: Machine, items: seq<Item>)
    requires m.mode.TextMode? && forall item <- items :: ValidItem(item)
    ensures var (m1, es) := Run(c, m, EncodeAll(items));
            && m1.mode.TextMode?
            && m1.opts.passwordMode == ModeAfter(m.opts.passwordMode, items)
            && OutputOf(es) == ItemOutputs(m.opts.passwordMode, items)
            && TextOf(es) == FlatMap(ItemText, items)
            && MessagesOf(es) == FlatMap((item: Item) => ItemMessage(c, item), items)
    decreases |items|
  {
    if items != [] {
      var item, rest := items[0], items[1..];
      RunItem(c, m, item);
      MeaningParts(c, m.opts, item);
      var m1 := Run(c, m, Encode(item)).0;
      RunItems(c, m1, rest);
      RunConcat(c, m, Encode(item), EncodeAll(rest));
      OutputConcat(Run(c, m, Encode(item)).1, Run(c, m1, EncodeAll(rest)).1);
    }
  }

  /** One call on the encoding of any items, from a machine in text mode, ends in text
      mode and hands back exactly the items: their text, their echo switches in place,
      and one message for each GMCP payload of at most the cap. */
  lemma DecodeInvertsEncode(c: Config, m: Machine, items: seq<Item>)
    requires m.mode.TextMode? && forall item <- items :: ValidItem(item)
    ensures var (m1, r, _) := Call(c, m, EncodeAll(items));
            && m1.mode.TextMode?
            && m1.opts.passwordMode == ModeAfter(m.opts.passwordMode, items)
            && r.text == FlatMap(ItemText, items)
            && r.gmcp == FlatMap((item: Item) => ItemMessage(c, item), items)
            && Flatten(r.segments) == ItemOutputs(m.opts.passwordMode, items)
            && Normal(r.segments)
  {
    RunItems(c, m, items);
    CallMeaning(c, m, EncodeAll(items));
  }

  /** The same for any way of cutting the encoding into calls. */
  lemma DecodeInvertsEncodeInChunks(c: Config, m: Machine, items: seq<Item>, chunks: seq<seq<byte>>)
    requires m.mode.TextMode? && forall item <- items :: ValidItem(item)
    requires Concat(chunks) == EncodeAll(items)
    ensures var (m1, r, _) := Calls(c, m, chunks);
            && m1.mode.TextMode?
            && r.text == FlatMap(ItemText, items)
            && r.gmcp == FlatMap((item: Item) => ItemMessage(c, item), items)
            && Flatten(r.segments) == ItemOutputs(m.opts.passwordMode, items)
  {
    RunItems(c, m, items);
    CallsMeaning(c, m, chunks);
  }
}
