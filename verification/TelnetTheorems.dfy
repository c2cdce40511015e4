/** What the telnet byte machine promises about whole streams: chunk boundaries cannot
    be seen, decoding inverts encoding, the payload buffer stays under its cap, and the
    replies are bounded by the input. */
module TelnetTheorems {
  import opened TelnetProtocol
  import opened Sequences

  // ----- runs compose -----

  lemma {:induction false} RunConcat(c: Config, m: Machine, a: seq<byte>, b: seq<byte>)
    ensures Run(c, m, a + b) == (Run(c, Run(c, m, a).0, b).0,
                                 Run(c, m, a).1 + Run(c, Run(c, m, a).0, b).1)
    decreases |a|
  {
    if a == [] {
      assert a + b == b;
      assert [] + Run(c, m, b).1 == Run(c, m, b).1;
    } else {
      assert (a + b)[1..] == a[1..] + b;
      var (m1, es) := Step(c, m, a[0]);
      RunConcat(c, m1, a[1..], b);
      var rest := Run(c, m1, a[1..]);
      Regroup(es, rest.1, Run(c, rest.0, b).1);
    }
  }

  lemma Regroup(a: seq<Effect>, b: seq<Effect>, c: seq<Effect>)
    ensures a + (b + c) == (a + b) + c
  {
  }

  // ----- segments mean a stream of bytes and switches -----

  datatype Out = Byte(b: byte) | EchoTo(suppressed: bool)

  function Bytes(data: seq<byte>): (outs: seq<Out>)
    ensures |outs| == |data|
  {
    seq(|data|, i requires 0 <= i < |data| => Byte(data[i]))
  }

  function SegmentOut(s: Segment): seq<Out> {
    match s case TextSegment(data) => Bytes(data) case EchoSegment(e) => [EchoTo(e)]
  }

  function EffectOut(e: Effect): seq<Out> {
    match e case Emit(b) => [Byte(b)] case Switch(s) => [EchoTo(s)] case _ => []
  }

  function EffectText(e: Effect): seq<byte> {
    if e.Emit? then [e.b] else []
  }

  function EffectMessage(e: Effect): seq<GmcpMessage> {
    if e.Gmcp? then [e.message] else []
  }

  function EffectWrite(e: Effect): seq<seq<byte>> {
    if e.Reply? then [e.bytes] else []
  }

  /** The ordered output of a stream, with no segment boundary left in it. */
  function Flatten(segments: seq<Segment>): seq<Out> { FlatMap(SegmentOut, segments) }

  function OutputOf(es: seq<Effect>): seq<Out> { FlatMap(EffectOut, es) }

  function TextOf(es: seq<Effect>): seq<byte> { FlatMap(EffectText, es) }

  function MessagesOf(es: seq<Effect>): seq<GmcpMessage> { FlatMap(EffectMessage, es) }

  function WritesOf(es: seq<Effect>): seq<seq<byte>> { FlatMap(EffectWrite, es) }

  /** No empty text run, and never two text runs side by side. */
  predicate Normal(segments: seq<Segment>) {
    && (forall i | 0 <= i < |segments| :: segments[i].TextSegment? ==> segments[i].data != [])
    && (forall i | 0 <= i < |segments| - 1 :: segments[i].TextSegment? ==> segments[i + 1].EchoSegment?)
  }

  /** Every state the accumulator can be in. */
  predicate Tidy(o: Outcome) {
    && Normal(o.closed)
    && (o.closed != [] ==> o.closed[|o.closed| - 1].EchoSegment?)
  }

  lemma OutputConcat(a: seq<Effect>, b: seq<Effect>)
    ensures OutputOf(a + b) == OutputOf(a) + OutputOf(b)
    ensures TextOf(a + b) == TextOf(a) + TextOf(b)
    ensures MessagesOf(a + b) == MessagesOf(a) + MessagesOf(b)
    ensures WritesOf(a + b) == WritesOf(a) + WritesOf(b)
  {
    FlatMapConcat(EffectOut, a, b);
    FlatMapConcat(EffectText, a, b);
    FlatMapConcat(EffectMessage, a, b);
    FlatMapConcat(EffectWrite, a, b);
  }

  /** What r holds is what o held, then these parts. */
  predicate Extends(o: Outcome, r: Outcome, outs: seq<Out>, text: seq<byte>, gmcp: seq<GmcpMessage>,
                    writes: seq<seq<byte>>) {
    && Flatten(Close(r.closed, r.open)) == Flatten(Close(o.closed, o.open)) + outs
    && r.text == o.text + text
    && r.gmcp == o.gmcp + gmcp
    && r.written == o.written + writes
  }

  lemma TwoParts<T>(a: seq<T>, b: seq<T>, c: seq<T>, x: seq<T>, y: seq<T>)
    requires b == a + x && c == b + y
    ensures c == a + (x + y)
  {
  }

  lemma ExtendsTwice(o: Outcome, p: Outcome, r: Outcome, outs: seq<Out>, text: seq<byte>, gmcp: seq<GmcpMessage>,
                     writes: seq<seq<byte>>, outs1: seq<Out>, text1: seq<byte>, gmcp1: seq<GmcpMessage>,
                     writes1: seq<seq<byte>>)
    requires Extends(o, p, outs, text, gmcp, writes) && Extends(p, r, outs1, text1, gmcp1, writes1)
    ensures Extends(o, r, outs + outs1, text + text1, gmcp + gmcp1, writes + writes1)
  {
    TwoParts(Flatten(Close(o.closed, o.open)), Flatten(Close(p.closed, p.open)), Flatten(Close(r.closed, r.open)),
             outs, outs1);
    TwoParts(o.text, p.text, r.text, text, text1);
    TwoParts(o.gmcp, p.gmcp, r.gmcp, gmcp, gmcp1);
    TwoParts(o.written, p.written, r.written, writes, writes1);
  }

  /** The accumulator loses nothing, reorders nothing, and keeps its segments normal. */
  lemma {:induction false} ApplyAllMeaning(o: Outcome, es: seq<Effect>)
    requires Tidy(o)
    ensures Tidy(ApplyAll(o, es))
    ensures Extends(o, ApplyAll(o, es), OutputOf(es), TextOf(es), MessagesOf(es), WritesOf(es))
    decreases |es|
  {
    if es == [] {
    } else {
      var p, r := Apply(o, es[0]), ApplyAll(o, es);
      ApplyMeaning(o, es[0]);
      ApplyAllMeaning(p, es[1..]);
      ExtendsTwice(o, p, r, EffectOut(es[0]), EffectText(es[0]), EffectMessage(es[0]), EffectWrite(es[0]),
                   OutputOf(es[1..]), TextOf(es[1..]), MessagesOf(es[1..]), WritesOf(es[1..]));
    }
  }

  lemma ApplyMeaning(o: Outcome, e: Effect)
    requires Tidy(o)
    ensures Tidy(Apply(o, e))
    ensures Extends(o, Apply(o, e), EffectOut(e), EffectText(e), EffectMessage(e), EffectWrite(e))
  {
    match e {
      case Emit(b) => EmitMeaning(o, b);
      case Switch(suppressed) => SwitchMeaning(o, suppressed);
      case Gmcp(g) => NothingShown(o);
      case Reply(r) => NothingShown(o);
    }
  }

  lemma EmitMeaning(o: Outcome, b: byte)
    requires Tidy(o)
    ensures Tidy(Apply(o, Emit(b)))
    ensures Extends(o, Apply(o, Emit(b)), [Byte(b)], [b], [], [])
  {
    var longer := o.open + [b];
    FlatMapSnoc(SegmentOut, o.closed, TextSegment(o.open));
    FlatMapSnoc(SegmentOut, o.closed, TextSegment(longer));
    assert Bytes(longer) == Bytes(o.open) + [Byte(b)];
    assert Bytes([]) == [];
  }

  lemma SwitchMeaning(o: Outcome, suppressed: bool)
    requires Tidy(o)
    ensures Tidy(Apply(o, Switch(suppressed)))
    ensures Extends(o, Apply(o, Switch(suppressed)), [EchoTo(suppressed)], [], [], [])
  {
    FlatMapSnoc(SegmentOut, Close(o.closed, o.open), EchoSegment(suppressed));
  }

  lemma NothingShown(o: Outcome)
    ensures Flatten(Close(o.closed, o.open)) == Flatten(Close(o.closed, o.open)) + []
    ensures o.text == o.text + [] && o.gmcp == o.gmcp + [] && o.written == o.written + []
  {
  }

  /** One call's result is normal and says exactly what the effects of its bytes say. */
  lemma CallMeaning(c: Config, m: Machine, data: seq<byte>)
    ensures var (m1, r, w) := Call(c, m, data); var es := Run(c, m, data).1;
            && m1 == Run(c, m, data).0
            && Normal(r.segments) && Flatten(r.segments) == OutputOf(es)
            && r.text == TextOf(es) && r.gmcp == MessagesOf(es) && w == WritesOf(es)
  {
    ApplyAllMeaning(Outcome([], [], [], [], []), Run(c, m, data).1);
  }

  // ----- a stream of outputs has one normal spelling in segments -----

  /** The text run a stream of outputs starts with. */
  predicate StartsWithRun(outs: seq<Out>, run: seq<byte>) {
    && |run| <= |outs|
    && (forall i | 0 <= i < |run| :: outs[i] == Byte(run[i]))
    && (|run| < |outs| ==> outs[|run|].EchoTo?)
  }

  lemma TextRunEnds(segments: seq<Segment>)
    requires Normal(segments) && segments != [] && segments[0].TextSegment?
    ensures StartsWithRun(Flatten(segments), segments[0].data)
  {
    var rest := segments[1..];
    if rest != [] {
      assert rest[0] == segments[0 + 1] && rest[0].EchoSegment?;
      assert Flatten(rest)[0] == EchoTo(rest[0].suppressed);
    }
    assert Flatten(segments) == Bytes(segments[0].data) + Flatten(rest);
  }

  lemma RunUnique(outs: seq<Out>, x: seq<byte>, y: seq<byte>)
    requires StartsWithRun(outs, x) && StartsWithRun(outs, y)
    ensures x == y
  {
    assert |x| == |y|;
    assert forall i | 0 <= i < |x| :: Byte(x[i]) == outs[i] == Byte(y[i]);
  }

  lemma {:induction false} NormalFormUnique(a: seq<Segment>, b: seq<Segment>)
    requires Normal(a) && Normal(b) && Flatten(a) == Flatten(b)
    ensures a == b
    decreases |a|
  {
    if a == [] || b == [] {
      FlattenEmpty(a);
      FlattenEmpty(b);
    } else {
      assert Flatten(a)[0] == SegmentOut(a[0])[0] && Flatten(b)[0] == SegmentOut(b[0])[0];
      if a[0].TextSegment? {
        TextRunEnds(a);
        TextRunEnds(b);
        RunUnique(Flatten(a), a[0].data, b[0].data);
      }
      assert Flatten(a[1..]) == Flatten(a)[|SegmentOut(a[0])|..];
      assert Flatten(b[1..]) == Flatten(b)[|SegmentOut(b[0])|..];
      NormalFormUnique(a[1..], b[1..]);
    }
  }

  lemma FlattenEmpty(a: seq<Segment>)
    requires Normal(a) && Flatten(a) == []
    ensures a == []
  {
  }

  /** Join neighbouring text segments: what a consumer that concatenates text sees. */
  function MergeText(segments: seq<Segment>): seq<Segment> {
    if segments == [] then []
    else
      var rest := MergeText(segments[1..]);
      if segments[0].TextSegment? && rest != [] && rest[0].TextSegment?
      then [TextSegment(segments[0].data + rest[0].data)] + rest[1..]
      else [segments[0]] + rest
  }

  lemma {:induction false} MergeTextNormalizes(segments: seq<Segment>)
    requires forall s <- segments :: s.TextSegment? ==> s.data != []
    ensures Normal(MergeText(segments)) && Flatten(MergeText(segments)) == Flatten(segments)
    decreases |segments|
  {
    if segments != [] {
      MergeTextNormalizes(segments[1..]);
      var rest := MergeText(segments[1..]);
      if segments[0].TextSegment? && rest != [] && rest[0].TextSegment? {
        assert Bytes(segments[0].data + rest[0].data) == Bytes(segments[0].data) + Bytes(rest[0].data);
        assert ([TextSegment(segments[0].data + rest[0].data)] + rest[1..])[1..] == rest[1..];
      } else {
        assert ([segments[0]] + rest)[1..] == rest;
      }
    }
  }

  // ----- chunk boundaries cannot be seen -----

  function Concat(chunks: seq<seq<byte>>): seq<byte> {
    FlatMap((chunk: seq<byte>) => chunk, chunks)
  }

  /** A run of calls, one per chunk, with their results laid end to end. */
  function Calls(c: Config, m: Machine, chunks: seq<seq<byte>>): (Machine, Result, seq<seq<byte>>)
    decreases |chunks|
  {
    if chunks == [] then (m, Result([], [], []), [])
    else
      var (m1, r1, w1) := Call(c, m, chunks[0]);
      var (m2, r2, w2) := Calls(c, m1, chunks[1..]);
      (m2, Result(r1.text + r2.text, r1.segments + r2.segments, r1.gmcp + r2.gmcp), w1 + w2)
  }

  lemma {:induction false} CallsMeaning(c: Config, m: Machine, chunks: seq<seq<byte>>)
    ensures var (m1, r, w) := Calls(c, m, chunks); var (m2, es) := Run(c, m, Concat(chunks));
            && m1 == m2
            && (forall s <- r.segments :: s.TextSegment? ==> s.data != [])
            && Flatten(r.segments) == OutputOf(es)
            && r.text == TextOf(es) && r.gmcp == MessagesOf(es) && w == WritesOf(es)
    decreases |chunks|
  {
    if chunks != [] {
      var m1 := Run(c, m, chunks[0]).0;
      CallMeaning(c, m, chunks[0]);
      CallsMeaning(c, m1, chunks[1..]);
      RunConcat(c, m, chunks[0], Concat(chunks[1..]));
      OutputConcat(Run(c, m, chunks[0]).1, Run(c, m1, Concat(chunks[1..])).1);
      FlatMapConcat(SegmentOut, Call(c, m, chunks[0]).1.segments, Calls(c, m1, chunks[1..]).1.segments);
    }
  }

  /** However a stream is cut into calls, the final state, the text, the messages and
      the writes are those of one call, and so are the segments once neighbouring text
      is joined. */
  lemma ChunkingInvisible(c: Config, m: Machine, chunks: seq<seq<byte>>)
    ensures var (m1, r1, w1) := Calls(c, m, chunks);
            var (m2, r2, w2) := Call(c, m, Concat(chunks));
            && m1 == m2 && w1 == w2
            && r1.text == r2.text && r1.gmcp == r2.gmcp
            && MergeText(r1.segments) == r2.segments
  {
    CallsMeaning(c, m, chunks);
    CallMeaning(c, m, Concat(chunks));
    MergeTextNormalizes(Calls(c, m, chunks).1.segments);
    NormalFormUnique(MergeText(Calls(c, m, chunks).1.segments), Call(c, m, Concat(chunks)).1.segments);
  }

  // ----- echo switches alternate, text segments are the text -----

  function Switches(outs: seq<Out>): seq<bool> {
    FlatMap(SwitchPart, outs)
  }

  function PlainText(outs: seq<Out>): seq<byte> {
    FlatMap(TextPart, outs)
  }

  predicate Alternates(from: bool, switches: seq<bool>) {
    forall i | 0 <= i < |switches| :: switches[i] == if i % 2 == 0 then !from else from
  }

  /** The mode after these switches: the last one, if there was any. */
  function LeftBy(from: bool, switches: seq<bool>): bool {
    if switches == [] then from else switches[|switches| - 1]
  }

  const SwitchPart := (o: Out) => if o.EchoTo? then [o.suppressed] else []
  const TextPart := (o: Out) => if o.Byte? then [o.b] else []

  lemma {:induction false} TextIsPlain(es: seq<Effect>)
    ensures PlainText(OutputOf(es)) == TextOf(es)
    decreases |es|
  {
    if es != [] {
      TextIsPlain(es[1..]);
      FlatMapConcat(TextPart, EffectOut(es[0]), OutputOf(es[1..]));
      assert EffectOut(es[0])[..] == EffectOut(es[0]);
    }
  }

  /** One byte flips the password mode with one switch, or leaves it with none. */
  lemma SwitchesStep(c: Config, m: Machine, b: byte)
    ensures var (m1, es) := Step(c, m, b);
            var switches := Switches(OutputOf(es));
            || (switches == [] && m1.opts.passwordMode == m.opts.passwordMode)
            || (switches == [!m.opts.passwordMode] && m1.opts.passwordMode == !m.opts.passwordMode)
  {
    var es := Step(c, m, b).1;
    if forall e <- es :: EffectOut(e) == [] {
      FlatMapNone(EffectOut, es);
    } else {
      assert es == [es[0]];
      FlatMapOne(EffectOut, es[0]);
      FlatMapOne(SwitchPart, EffectOut(es[0])[0]);
    }
  }

  lemma AlternatesOnward(from: bool, first: seq<bool>, rest: seq<bool>)
    requires first == [] || first == [!from]
    requires Alternates(if first == [] then from else !from, rest)
    ensures Alternates(from, first + rest)
  {
  }

  lemma {:induction false} SwitchesAlternate(c: Config, m: Machine, data: seq<byte>)
    ensures var (m1, es) := Run(c, m, data); var switches := Switches(OutputOf(es));
            && Alternates(m.opts.passwordMode, switches)
            && m1.opts.passwordMode == LeftBy(m.opts.passwordMode, switches)
    decreases |data|
  {
    if data != [] {
      var (m1, es) := Step(c, m, data[0]);
      SwitchesStep(c, m, data[0]);
      SwitchesAlternate(c, m1, data[1..]);
      OutputConcat(es, Run(c, m1, data[1..]).1);
      FlatMapConcat(SwitchPart, OutputOf(es), OutputOf(Run(c, m1, data[1..]).1));
      AlternatesOnward(m.opts.passwordMode, Switches(OutputOf(es)), Switches(OutputOf(Run(c, m1, data[1..]).1)));
    }
  }

  /** Over any run of calls: the echo segments flip the password mode every time, the
      mode ends as the last one left it, and the text segments spell the text. */
  lemma EchoAlternatesOverRun(c: Config, m: Machine, chunks: seq<seq<byte>>)
    ensures var (m1, r, _) := Calls(c, m, chunks);
            var switches := Switches(Flatten(r.segments));
            && Alternates(m.opts.passwordMode, switches)
            && m1.opts.passwordMode == LeftBy(m.opts.passwordMode, switches)
            && PlainText(Flatten(r.segments)) == r.text
  {
    CallsMeaning(c, m, chunks);
    SwitchesAlternate(c, m, Concat(chunks));
    TextIsPlain(Run(c, m, Concat(chunks)).1);
  }

  // ----- the cap -----

  lemma {:induction false} BufferUnderCap(c: Config, m: Machine, data: seq<byte>)
    requires |m.buffer| <= c.cap
    ensures |Run(c, m, data).0.buffer| <= c.cap
    decreases |data|
  {
    if data != [] {
      BufferUnderCap(c, Step(c, m, data[0]).0, data[1..]);
    }
  }
}
