/** The output side of a session: its attached clients and its replay buffer as objects
    updated in place, proved against Delivery. */
module SessionOutput {
  import opened Wrappers
  import opened Sequences
  import opened ReplayList
  import opened CircularBuffers
  import Delivery
  import TelnetProtocol
  import opened TelnetParsing

  /** What a client is sent about a chunk; replayed marks the ones of a resume. */
  datatype Message = Resumed | OutputMessage(chunk: Chunk, replayed: bool)

  function Live(cs: seq<Chunk>): (ms: seq<Message>)
    ensures |ms| == |cs| && forall i | 0 <= i < |cs| :: ms[i] == OutputMessage(cs[i], false)
  {
    seq(|cs|, i requires 0 <= i < |cs| => OutputMessage(cs[i], false))
  }

  function Replayed(cs: seq<Chunk>): (ms: seq<Message>)
    ensures |ms| == |cs| && forall i | 0 <= i < |cs| :: ms[i] == OutputMessage(cs[i], true)
  {
    seq(|cs|, i requires 0 <= i < |cs| => OutputMessage(cs[i], true))
  }

  /** The sequence numbers among a client's messages. */
  function Heard(ms: seq<Message>): seq<nat> { FlatMap(MessageSequence, ms) }

  function MessageSequence(m: Message): seq<nat> {
    if m.Resumed? then [] else [m.chunk.sequence]
  }

  // ----- what one parser result produces -----

  function GmcpOutput(g: TelnetProtocol.GmcpMessage): seq<Delivery.Event> {
    [Delivery.Output(g.data, Gmcp(g.package))]
  }

  function SegmentOutput(s: TelnetProtocol.Segment): seq<Delivery.Event> {
    match s
    case TextSegment(data) => if |data| == 0 then [] else [Delivery.Output(data, Data)]
    case EchoSegment(suppressed) => [Delivery.Output([], Echo(suppressed))]
  }

  /** GMCP first, then text and echo switches in the order they came. */
  function Outputs(r: TelnetProtocol.Result): seq<Delivery.Event> {
    FlatMap(GmcpOutput, r.gmcp) + FlatMap(SegmentOutput, r.segments)
  }

  lemma OneMoreSegment(done: seq<Delivery.Event>, segments: seq<TelnetProtocol.Segment>, i: nat)
    requires i < |segments|
    ensures done + FlatMap(SegmentOutput, segments[..i + 1])
         == (done + FlatMap(SegmentOutput, segments[..i])) + SegmentOutput(segments[i])
  {
    assert segments[..i + 1] == segments[..i] + [segments[i]];
    FlatMapSnoc(SegmentOutput, segments[..i], segments[i]);
  }

  predicate AllOutputs(events: seq<Delivery.Event>) {
    forall e <- events :: e.Output?
  }

  /** The chunks these outputs become, numbered on from counter. */
  function Numbered(counter: nat, events: seq<Delivery.Event>): (cs: seq<Chunk>)
    requires AllOutputs(events)
    ensures |cs| == |events|
  {
    seq(|events|, i requires 0 <= i < |events| => Chunk(counter + 1 + i, events[i].data, events[i].kind))
  }

  function StoreAll(history: seq<Chunk>, cs: seq<Chunk>, maxSize: nat, capacity: nat): seq<Chunk>
    decreases |cs|
  {
    if cs == [] then history
    else Store(StoreAll(history, cs[..|cs| - 1], maxSize, capacity), cs[|cs| - 1], maxSize, capacity)
  }

  lemma StoreAllSnoc(history: seq<Chunk>, cs: seq<Chunk>, c: Chunk, maxSize: nat, capacity: nat)
    ensures StoreAll(history, cs + [c], maxSize, capacity)
            == Store(StoreAll(history, cs, maxSize, capacity), c, maxSize, capacity)
  {
    assert (cs + [c])[..|cs|] == cs;
  }

  lemma NumberedSnoc(counter: nat, events: seq<Delivery.Event>, e: Delivery.Event)
    requires AllOutputs(events) && e.Output?
    ensures AllOutputs(events + [e])
    ensures Numbered(counter, events + [e])
         == Numbered(counter, events) + [Chunk(counter + |events| + 1, e.data, e.kind)]
  {
  }

  // ----- the objects -----

  class WsClient {
    var open: bool
    var broken: bool             // sending on it throws
    var sent: seq<Message>

    constructor ()
      ensures open && !broken && sent == []
    {
      open, broken, sent := true, false, [];
    }

    predicate Reachable()
      reads `open, `broken
    {
      open && !broken
    }

    method Send(m: Message) returns (ok: bool)
      modifies this`sent
      ensures ok == !broken
      ensures sent == if ok then old(sent) + [m] else old(sent)
    {
      if broken {
        return false;
      }
      sent := sent + [m];
      return true;
    }
  }

  /** A session's output side at some moment. */
  datatype Start = Start(counter: nat, history: seq<Chunk>, clients: set<WsClient>,
                         sent: map<WsClient, seq<Message>>)

  class Session {
    var clients: set<WsClient>
    var clientConnected: bool
    var clientlessSince: Option<int>
    const buffer: CircularBuffer
    const telnetParser: TelnetParser

    constructor (maxSize: nat, capacity: nat, parser: TelnetParser)
      requires capacity > 0
      ensures buffer.Valid() && buffer.contents == [] && buffer.sequenceCounter == 0
      ensures clients == {} && !clientConnected && clientlessSince == None
      ensures buffer.maxSize == maxSize && buffer.capacity == capacity && fresh(buffer) && fresh(buffer.chunks)
      ensures telnetParser == parser
    {
      clients, clientConnected, clientlessSince := {}, false, None;
      buffer := new CircularBuffer(maxSize, capacity);
      telnetParser := parser;
    }

    method AttachClient(client: WsClient)
      modifies this`clients, this`clientConnected, this`clientlessSince
      ensures clients == old(clients) + {client} && clientConnected && clientlessSince == None
    {
      clients := clients + {client};
      clientConnected := true;
      clientlessSince := None;
    }

    /** The clientless clock is stamped when the last client goes. */
    method DetachClient(client: WsClient, now: int)
      modifies this
      ensures clients == old(clients) - {client} && clientConnected == (clients != {})
      ensures clientlessSince == if clients == {} then Some(now) else None
    {
      clients := clients - {client};
      clientConnected := |clients| > 0;
      clientlessSince := if |clients| == 0 then Some(now) else None;
    }

    /** Each open client gets the message once; one that throws is dropped, and one that
        is no longer open stays. */
    method BroadcastToClients(m: Message)
      modifies this`clients, this`clientConnected, clients`sent
      ensures clients == set c | c in old(clients) && (c.open ==> !c.broken)
      ensures clientConnected == (clients != {})
      ensures forall c <- old(clients) :: c.sent == old(c.sent) + if c.Reachable() then [m] else []
    {
      var failedClients := SendToEach(clients, m);
      clients := clients - failedClients;
      clientConnected := |clients| > 0;
    }

    ghost function Now(): Start
      reads this, buffer, clients
    {
      Start(buffer.sequenceCounter, buffer.contents, clients, map c | c in clients :: c.sent)
    }

    /** Since start exactly these outputs were buffered and sent: the buffer holds what a
        history of its size holds, and every reachable client got every one, in order. */
    ghost predicate Since(start: Start, events: seq<Delivery.Event>)
      reads this, buffer, buffer.chunks, start.clients
    {
      && AllOutputs(events) && start.sent.Keys == start.clients
      && BufferSince(start, Numbered(start.counter, events))
      && ClientsSince(start, Numbered(start.counter, events))
    }

    ghost predicate BufferSince(start: Start, chunks: seq<Chunk>)
      reads buffer, buffer.chunks
    {
      && buffer.Valid()
      && buffer.sequenceCounter == start.counter + |chunks|
      && buffer.contents == StoreAll(start.history, chunks, buffer.maxSize, buffer.capacity)
    }

    ghost predicate ClientsSince(start: Start, chunks: seq<Chunk>)
      requires start.sent.Keys == start.clients
      reads `clients, start.clients
    {
      && (forall c <- start.clients :: c.sent == start.sent[c] + if c.Reachable() then Live(chunks) else [])
      && clients == if chunks == [] then start.clients else set c | c in start.clients && (c.open ==> !c.broken)
    }

    /** One chunk into the buffer and out to the clients. */
    method BufferAndBroadcast(data: Payload, kind: Kind, ghost start: Start, ghost done: seq<Delivery.Event>)
      requires Since(start, done)
      modifies this`clients, this`clientConnected, clients`sent, buffer, buffer.chunks
      ensures Since(start, done + [Delivery.Output(data, kind)])
      ensures buffer.chunks == old(buffer.chunks) && clients <= old(clients)
    {
      ghost var chunks := Numbered(start.counter, done);
      NumberedSnoc(start.counter, done, Delivery.Output(data, kind));
      var chunk := buffer.Append(data, kind);
      StoreAllSnoc(start.history, chunks, chunk, buffer.maxSize, buffer.capacity);
      Broadcast(chunk, start, chunks);
    }

    method Broadcast(chunk: Chunk, ghost start: Start, ghost chunks: seq<Chunk>)
      requires start.sent.Keys == start.clients && ClientsSince(start, chunks)
      modifies this`clients, this`clientConnected, clients`sent
      ensures ClientsSince(start, chunks + [chunk]) && clients <= old(clients)
    {
      assert Live(chunks + [chunk]) == Live(chunks) + [OutputMessage(chunk, false)];
      BroadcastToClients(OutputMessage(chunk, false));
    }

    method ProcessMudData(data: seq<TelnetProtocol.byte>) returns (result: TelnetProtocol.Result)
      requires buffer.Valid()
      modifies this`clients, this`clientConnected, clients`sent, buffer, buffer.chunks
      modifies telnetParser, telnetParser.session
      ensures (telnetParser.View(), result)
           == var called := TelnetProtocol.Call(telnetParser.Settings(), old(telnetParser.View()), data);
              (called.0, called.1)
      ensures Since(old(Now()), Outputs(result)) && buffer.chunks == old(buffer.chunks)
    {
      result := telnetParser.Process(data);
      BufferGmcp(result.gmcp, old(Now()));
      BufferSegments(result.segments, old(Now()), FlatMap(GmcpOutput, result.gmcp));
    }

    method BufferGmcp(messages: seq<TelnetProtocol.GmcpMessage>, ghost start: Start)
      requires Since(start, [])
      modifies this`clients, this`clientConnected, clients`sent, buffer, buffer.chunks
      ensures Since(start, FlatMap(GmcpOutput, messages)) && buffer.chunks == old(buffer.chunks)
    {
      for i := 0 to |messages|
        invariant clients <= old(clients)
        invariant Since(start, FlatMap(GmcpOutput, messages[..i])) && buffer.chunks == old(buffer.chunks)
      {
        assert messages[..i + 1] == messages[..i] + [messages[i]];
        FlatMapSnoc(GmcpOutput, messages[..i], messages[i]);
        BufferAndBroadcast(messages[i].data, Gmcp(messages[i].package), start, FlatMap(GmcpOutput, messages[..i]));
      }
      assert messages[..|messages|] == messages;
    }

    method BufferSegments(segments: seq<TelnetProtocol.Segment>, ghost start: Start, ghost done: seq<Delivery.Event>)
      requires Since(start, done)
      modifies this`clients, this`clientConnected, clients`sent, buffer, buffer.chunks
      ensures Since(start, done + FlatMap(SegmentOutput, segments)) && buffer.chunks == old(buffer.chunks)
    {
      ghost var events := done;
      assert done + FlatMap(SegmentOutput, segments[..0]) == done;
      for i := 0 to |segments|
        invariant clients <= old(clients)
        invariant events == done + FlatMap(SegmentOutput, segments[..i])
        invariant Since(start, events) && buffer.chunks == old(buffer.chunks)
      {
        OneMoreSegment(done, segments, i);
        BufferSegment(segments[i], start, events);
        events := events + SegmentOutput(segments[i]);
      }
      assert segments[..|segments|] == segments;
    }

    method BufferSegment(segment: TelnetProtocol.Segment, ghost start: Start, ghost done: seq<Delivery.Event>)
      requires Since(start, done)
      modifies this`clients, this`clientConnected, clients`sent, buffer, buffer.chunks
      ensures Since(start, done + SegmentOutput(segment)) && buffer.chunks == old(buffer.chunks)
      ensures clients <= old(clients)
    {
      if segment.TextSegment? {
        if |segment.data| == 0 {
          assert done + [] == done;
          return;
        }
        BufferAndBroadcast(segment.data, Data, start, done);
      } else {
        BufferAndBroadcast([], Echo(segment.suppressed), start, done);
      }
    }

    /** Attach the client, confirm, and send it everything held after lastSeq.  reach: how
        many of these messages get out before sending on its socket starts to throw; the
        first that throws ends the handler, with the client still attached. */
    method HandleResume(client: WsClient, lastSeq: int, reach: nat) returns (completed: bool)
      requires buffer.Valid()
      modifies this`clients, this`clientConnected, this`clientlessSince, client`sent, client`broken
      ensures clients == old(clients) + {client} && clientConnected && clientlessSince == None
      ensures var messages := [Resumed] + Replayed(Newer(buffer.contents, lastSeq));
              var through := if old(client.broken) then 0 else if reach <= |messages| then reach else |messages|;
              && client.sent == old(client.sent) + messages[..through]
              && completed == (through == |messages|) && client.broken == !completed
    {
      AttachClient(client);
      var replay := buffer.ReplayAfter(lastSeq);
      completed := SendAll(client, [Resumed] + Replayed(replay), reach);
    }
  }

  /** Send these one by one until sending throws. */
  method SendAll(client: WsClient, messages: seq<Message>, reach: nat) returns (completed: bool)
    requires messages != []
    modifies client`sent, client`broken
    ensures var through := if old(client.broken) then 0 else if reach <= |messages| then reach else |messages|;
            && client.sent == old(client.sent) + messages[..through]
            && completed == (through == |messages|) && client.broken == !completed
  {
    for i := 0 to |messages|
      invariant i == 0 || (!old(client.broken) && i <= reach)
      invariant client.broken == old(client.broken)
      invariant client.sent == old(client.sent) + messages[..i]
    {
      if i == reach {
        client.broken := true;
      }
      var ok := client.Send(messages[i]);
      if !ok {
        return false;
      }
      assert messages[..i + 1] == messages[..i] + [messages[i]];
    }
    return true;
  }

  method SendToEach(clients: set<WsClient>, m: Message) returns (failed: set<WsClient>)
    modifies clients`sent
    ensures failed == set c | c in clients && c.open && c.broken
    ensures forall c <- clients :: c.sent == old(c.sent) + if c.Reachable() then [m] else []
  {
    failed := {};
    var todo := clients;
    while todo != {}
      invariant todo <= clients
      invariant forall c <- todo :: c.sent == old(c.sent)
      invariant forall c <- clients - todo :: c.sent == old(c.sent) + if c.Reachable() then [m] else []
      invariant failed == set c | c in clients - todo && c.open && c.broken
      decreases todo
    {
      var client :| client in todo;
      if client.open {
        var ok := client.Send(m);
        if !ok {
          failed := failed + {client};
        }
      }
      todo := todo - {client};
    }
  }
}
