/** What the session's clients see: the object's output side follows Delivery, and how
    the upstream bytes were cut into reads cannot be seen by a client. */
module SessionTheorems {
  import opened Sequences
  import opened ReplayList
  import opened SessionOutput
  import Delivery
  import opened TelnetProtocol
  import opened TelnetTheorems

  // ----- the session follows Delivery -----

  lemma {:induction false} HeardChunks(cs: seq<Chunk>)
    ensures Heard(Live(cs)) == Delivery.Sequences(cs) && Heard(Replayed(cs)) == Delivery.Sequences(cs)
    decreases |cs|
  {
    if cs != [] {
      HeardChunks(cs[1..]);
      assert Live(cs)[1..] == Live(cs[1..]) && Replayed(cs)[1..] == Replayed(cs[1..]);
      assert Delivery.Sequences(cs) == [cs[0].sequence] + Delivery.Sequences(cs[1..]);
    }
  }

  lemma OutputStep(st: Delivery.State, e: Delivery.Event, maxSize: nat, capacity: nat)
    requires e.Output?
    ensures var st1 := Delivery.Step(st, e, maxSize, capacity);
            && st1.history == Store(st.history, Chunk(st.counter + 1, e.data, e.kind), maxSize, capacity)
            && st1.counter == st.counter + 1 && st1.live == st.live
            && st1.received == if st.live then st.received + [st.counter + 1] else st.received
  {
  }

  /** A batch of output moves the replay buffer as Delivery says ... */
  lemma {:induction false} BatchFillsHistory(st: Delivery.State, events: seq<Delivery.Event>,
                                             maxSize: nat, capacity: nat)
    requires AllOutputs(events)
    ensures var st1 := Delivery.Run(st, events, maxSize, capacity); var chunks := Numbered(st.counter, events);
            && st1.history == StoreAll(st.history, chunks, maxSize, capacity)
            && st1.counter == st.counter + |chunks| && st1.live == st.live
    decreases |events|
  {
    if events != [] {
      var st1 := Delivery.Step(st, events[0], maxSize, capacity);
      var chunk := Chunk(st.counter + 1, events[0].data, events[0].kind);
      OutputStep(st, events[0], maxSize, capacity);
      BatchFillsHistory(st1, events[1..], maxSize, capacity);
      NumberedCons(st.counter, events);
      StoreAllCons(st.history, chunk, Numbered(st.counter + 1, events[1..]), maxSize, capacity);
    }
  }

  lemma {:induction false} BatchReceived(st: Delivery.State, events: seq<Delivery.Event>, maxSize: nat, capacity: nat)
    requires AllOutputs(events) && st.live
    ensures Delivery.Run(st, events, maxSize, capacity).received
         == st.received + Delivery.Sequences(Numbered(st.counter, events))
    decreases |events|
  {
    if events != [] {
      OutputStep(st, events[0], maxSize, capacity);
      BatchReceived(Delivery.Step(st, events[0], maxSize, capacity), events[1..], maxSize, capacity);
      OneMoreReceived(st.received, st.counter, events);
    }
  }

  lemma {:induction false} BatchMissed(st: Delivery.State, events: seq<Delivery.Event>, maxSize: nat, capacity: nat)
    requires AllOutputs(events) && !st.live
    ensures Delivery.Run(st, events, maxSize, capacity).received == st.received
    decreases |events|
  {
    if events != [] {
      OutputStep(st, events[0], maxSize, capacity);
      BatchMissed(Delivery.Step(st, events[0], maxSize, capacity), events[1..], maxSize, capacity);
    }
  }

  lemma OneMoreReceived(received: seq<nat>, counter: nat, events: seq<Delivery.Event>)
    requires AllOutputs(events) && events != []
    ensures received + Delivery.Sequences(Numbered(counter, events))
         == (received + [counter + 1]) + Delivery.Sequences(Numbered(counter + 1, events[1..]))
  {
  }

  /** ... and each client, given what it was sent. */
  lemma BatchReachesClient(st: Delivery.State, sent: seq<Message>, events: seq<Delivery.Event>,
                           maxSize: nat, capacity: nat)
    requires AllOutputs(events) && st.received == Heard(sent)
    ensures Delivery.Run(st, events, maxSize, capacity).received
         == Heard(sent + if st.live then Live(Numbered(st.counter, events)) else [])
  {
    if st.live {
      BatchReceived(st, events, maxSize, capacity);
    } else {
      BatchMissed(st, events, maxSize, capacity);
    }
    HeardChunks(Numbered(st.counter, events));
    FlatMapConcat(MessageSequence, sent, Live(Numbered(st.counter, events)));
    assert sent + [] == sent;
  }

  lemma NumberedCons(counter: nat, events: seq<Delivery.Event>)
    requires AllOutputs(events) && events != []
    ensures var chunk := Chunk(counter + 1, events[0].data, events[0].kind);
            && Numbered(counter, events) == [chunk] + Numbered(counter + 1, events[1..])
            && Live(Numbered(counter, events))
               == [OutputMessage(chunk, false)] + Live(Numbered(counter + 1, events[1..]))
  {
  }

  lemma {:induction false} StoreAllCons(history: seq<Chunk>, c: Chunk, cs: seq<Chunk>, maxSize: nat, capacity: nat)
    ensures StoreAll(history, [c] + cs, maxSize, capacity)
         == StoreAll(Store(history, c, maxSize, capacity), cs, maxSize, capacity)
    decreases |cs|
  {
    if cs == [] {
      assert [c] + cs == [] + [c];
      StoreAllSnoc(history, [], c, maxSize, capacity);
    } else {
      StoreAllCons(history, c, cs[..|cs| - 1], maxSize, capacity);
      assert ([c] + cs)[..|cs|] == [c] + cs[..|cs| - 1];
    }
  }

  /** So does a resume from the highest sequence heard. */
  lemma ResumeFollowsDelivery(st: Delivery.State, sent: seq<Message>, maxSize: nat, capacity: nat)
    requires st.received == Heard(sent)
    ensures var replay := Newer(st.history, Delivery.Highest(Heard(sent)));
            Delivery.Step(st, Delivery.Resume, maxSize, capacity).received
            == Heard(sent + [Resumed] + Replayed(replay))
  {
    var replay := Newer(st.history, Delivery.Highest(Heard(sent)));
    HeardChunks(replay);
    FlatMapConcat(MessageSequence, sent + [Resumed], Replayed(replay));
    FlatMapSnoc(MessageSequence, sent, Resumed);
  }

  /** And a resume that breaks off after some of its messages. */
  lemma BrokenResumeFollowsDelivery(st: Delivery.State, sent: seq<Message>, through: nat, maxSize: nat, capacity: nat)
    requires st.received == Heard(sent)
    requires through <= 1 + |Delivery.Replay(st)|
    ensures var messages := [Resumed] + Replayed(Delivery.Replay(st));
            Delivery.Step(st, Delivery.Interrupted(if through == 0 then 0 else through - 1), maxSize, capacity).received
            == Heard(sent + messages[..through])
  {
    var replay := Delivery.Replay(st);
    HeardThrough(sent, replay, through);
    assert st.received + Delivery.Sequences(replay[..0]) == st.received;
  }

  lemma HeardThrough(sent: seq<Message>, replay: seq<Chunk>, through: nat)
    requires through <= 1 + |replay|
    ensures Heard(sent + ([Resumed] + Replayed(replay))[..through])
         == Heard(sent) + if through == 0 then [] else Delivery.Sequences(replay[..through - 1])
  {
    var messages := [Resumed] + Replayed(replay);
    if through == 0 {
      assert sent + messages[..0] == sent;
    } else {
      var got := replay[..through - 1];
      assert sent + messages[..through] == (sent + [Resumed]) + Replayed(got);
      HeardChunks(got);
      FlatMapConcat(MessageSequence, sent + [Resumed], Replayed(got));
      FlatMapSnoc(MessageSequence, sent, Resumed);
    }
  }

  /** Over every run: what is produced while a live client is cut off does not reach it, and
      when it resumes it gets exactly those of them that are still held. */
  lemma MissedThenReplayed(events: seq<Delivery.Event>, outputs: seq<Delivery.Event>, maxSize: nat, capacity: nat)
    requires AllOutputs(outputs)
    ensures var st := Delivery.Run(Delivery.Initial(), events, maxSize, capacity);
            var away := Delivery.Run(Delivery.Step(st, Delivery.CutOff, maxSize, capacity), outputs, maxSize, capacity);
            var back := Delivery.Step(away, Delivery.Resume, maxSize, capacity);
            && !away.live && away.received == st.received && away.counter == st.counter + |outputs|
            && back.live && st.received <= back.received
            && forall q | st.counter < q <= away.counter :: q in back.received <==> Delivery.Carries(away.history, q)
  {
    var st := Delivery.Run(Delivery.Initial(), events, maxSize, capacity);
    var cut := Delivery.Step(st, Delivery.CutOff, maxSize, capacity);
    BatchFillsHistory(cut, outputs, maxSize, capacity);
    BatchMissed(cut, outputs, maxSize, capacity);
    Delivery.DeliveredOnceInOrder(events, maxSize, capacity);
    Delivery.HighestIsProduced(st.received, st.unheard, st.lost, st.counter);
    ReplayCarries(Delivery.Run(cut, outputs, maxSize, capacity), st.counter, maxSize, capacity);
  }

  lemma ReplayCarries(away: Delivery.State, counter: nat, maxSize: nat, capacity: nat)
    requires Delivery.Highest(away.received) <= counter && forall q <- away.received :: q <= counter
    ensures var back := Delivery.Step(away, Delivery.Resume, maxSize, capacity);
            && back.live && away.received <= back.received
            && forall q | q > counter :: q in back.received <==> Delivery.Carries(away.history, q)
  {
    var replay := Delivery.Replay(away);
    Delivery.NewerMembers(away.history, Delivery.Highest(away.received));
    assert replay[..|replay|] == replay;
    forall q | q > counter
      ensures q in Delivery.Sequences(replay) <==> Delivery.Carries(away.history, q)
    {
      if q in Delivery.Sequences(replay) {
        var i :| 0 <= i < |replay| && Delivery.Sequences(replay)[i] == q;
        assert replay[i] in replay;
      }
      if Delivery.Carries(away.history, q) {
        var c :| c in away.history && c.sequence == q;
        var i :| 0 <= i < |replay| && replay[i] == c;
        assert Delivery.Sequences(replay)[i] == q;
      }
    }
  }

  // ----- reads cannot be seen -----

  /** Everything a session produces from a run of reads. */
  function Produced(c: Config, m: Machine, pieces: seq<seq<byte>>): seq<Delivery.Event>
    decreases |pieces|
  {
    if pieces == [] then []
    else
      var (m1, r, _) := Call(c, m, pieces[0]);
      Outputs(r) + Produced(c, m1, pieces[1..])
  }

  /** What a client's screen makes of it: text bytes and echo switches, in order. */
  function ScreenPart(e: Delivery.Event): seq<Out> {
    if !e.Output? then []
    else match e.kind
      case Data => Bytes(e.data)
      case Echo(s) => [EchoTo(s)]
      case Gmcp(_) => []
  }

  function GmcpPart(e: Delivery.Event): seq<GmcpMessage> {
    if e.Output? && e.kind.Gmcp? then [GmcpMessage(e.kind.package, e.data)] else []
  }

  function Screen(events: seq<Delivery.Event>): seq<Out> { FlatMap(ScreenPart, events) }

  function GmcpChannel(events: seq<Delivery.Event>): seq<GmcpMessage> { FlatMap(GmcpPart, events) }

  lemma {:induction false} GmcpOutputsShow(messages: seq<GmcpMessage>)
    ensures Screen(FlatMap(GmcpOutput, messages)) == []
    ensures GmcpChannel(FlatMap(GmcpOutput, messages)) == messages
    decreases |messages|
  {
    if messages != [] {
      GmcpOutputsShow(messages[1..]);
      var e, rest := GmcpOutput(messages[0]), FlatMap(GmcpOutput, messages[1..]);
      assert e + rest == [e[0]] + rest && (e + rest)[1..] == rest;
    }
  }

  lemma {:induction false} SegmentOutputsShow(segments: seq<Segment>)
    ensures Screen(FlatMap(SegmentOutput, segments)) == Flatten(segments)
    ensures GmcpChannel(FlatMap(SegmentOutput, segments)) == []
    decreases |segments|
  {
    if segments != [] {
      SegmentOutputsShow(segments[1..]);
      var es, rest := SegmentOutput(segments[0]), FlatMap(SegmentOutput, segments[1..]);
      if es == [] {
        assert es + rest == rest && Bytes(segments[0].data) == [];
      } else {
        assert (es + rest)[1..] == rest;
      }
    }
  }

  lemma OutputsShow(r: Result)
    ensures Screen(Outputs(r)) == Flatten(r.segments) && GmcpChannel(Outputs(r)) == r.gmcp
  {
    GmcpOutputsShow(r.gmcp);
    SegmentOutputsShow(r.segments);
    FlatMapConcat(ScreenPart, FlatMap(GmcpOutput, r.gmcp), FlatMap(SegmentOutput, r.segments));
    FlatMapConcat(GmcpPart, FlatMap(GmcpOutput, r.gmcp), FlatMap(SegmentOutput, r.segments));
  }

  /** Text that is not empty, or an echo switch. */
  predicate ForScreen(e: Delivery.Event) {
    e.Output? && !e.kind.Gmcp? && (e.kind.Data? ==> e.data != [])
  }

  ghost predicate AllForScreen(events: seq<Delivery.Event>) {
    forall i | 0 <= i < |events| :: ForScreen(events[i])
  }

  /** One read's GMCP messages are sent before its text, each in their own order, and no empty
      text is sent. */
  lemma GmcpGoesFirst(r: Result)
    ensures var events, n := Outputs(r), |r.gmcp|;
            && n <= |events| && AllForScreen(events[n..])
            && forall i | 0 <= i < n ::
                 events[i] == Delivery.Output(r.gmcp[i].data, Kind.Gmcp(r.gmcp[i].package))
  {
    GmcpOutputsAt(r.gmcp);
    SegmentsForScreen(r.segments);
    assert Outputs(r)[|r.gmcp|..] == FlatMap(SegmentOutput, r.segments);
  }

  lemma {:induction false} GmcpOutputsAt(messages: seq<GmcpMessage>)
    ensures var events := FlatMap(GmcpOutput, messages);
            && |events| == |messages|
            && forall i | 0 <= i < |messages| ::
                 events[i] == Delivery.Output(messages[i].data, Kind.Gmcp(messages[i].package))
    decreases |messages|
  {
    if messages != [] {
      GmcpOutputsAt(messages[1..]);
    }
  }

  lemma {:induction false} SegmentsForScreen(segments: seq<Segment>)
    ensures AllForScreen(FlatMap(SegmentOutput, segments))
    decreases |segments|
  {
    if segments != [] {
      SegmentsForScreen(segments[1..]);
      var here, rest := SegmentOutput(segments[0]), FlatMap(SegmentOutput, segments[1..]);
      assert here == [] || (|here| == 1 && ForScreen(here[0]));
      forall i | 0 <= i < |here + rest| ensures ForScreen((here + rest)[i]) {
        if i >= |here| {
          assert (here + rest)[i] == rest[i - |here|];
        }
      }
    }
  }

  lemma {:induction false} ProducedShows(c: Config, m: Machine, pieces: seq<seq<byte>>)
    ensures Screen(Produced(c, m, pieces)) == Flatten(Calls(c, m, pieces).1.segments)
    ensures GmcpChannel(Produced(c, m, pieces)) == Calls(c, m, pieces).1.gmcp
    decreases |pieces|
  {
    if pieces != [] {
      var (m1, r, _) := Call(c, m, pieces[0]);
      ProducedShows(c, m1, pieces[1..]);
      OutputsShow(r);
      FlatMapConcat(ScreenPart, Outputs(r), Produced(c, m1, pieces[1..]));
      FlatMapConcat(GmcpPart, Outputs(r), Produced(c, m1, pieces[1..]));
      FlatMapConcat(SegmentOut, r.segments, Calls(c, m1, pieces[1..]).1.segments);
    }
  }

  /** Two ways of cutting one stream into reads put the same text and echo switches on a
      client's screen, and the same messages on its GMCP channel. */
  lemma ReadsCannotBeSeen(c: Config, m: Machine, a: seq<seq<byte>>, b: seq<seq<byte>>)
    requires Concat(a) == Concat(b)
    ensures Screen(Produced(c, m, a)) == Screen(Produced(c, m, b))
    ensures GmcpChannel(Produced(c, m, a)) == GmcpChannel(Produced(c, m, b))
  {
    ProducedShows(c, m, a);
    ProducedShows(c, m, b);
    CallsMeaning(c, m, a);
    CallsMeaning(c, m, b);
  }
}
