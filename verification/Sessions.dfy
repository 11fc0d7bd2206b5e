/** Whole sessions over the exchange: commands sent by the client, answers of the server, writes the
    proxy answers itself (src/connection_handler.rs:83-177, src/state_handler.rs:23-50). */
module Sessions {
  import opened Outcomes
  import opened Bytes
  import opened Packets
  import opened Framing
  import opened Evaluator
  import opened DiffLog
  import opened Rows
  import opened Responses
  import opened ResponseRuns
  import opened Handshakes
  import opened Connections
  import opened EndToEnd
  import opened ClientView
  import opened Exchanges
  import opened Interceptions

  // ---- A response, read by read

  predicate AllNonEmpty(chunks: seq<seq<byte>>) {
    forall i :: 0 <= i < |chunks| ==> chunks[i] != []
  }

  lemma ServerPiece(cfg: Config, s: System, chunk: seq<byte>)
    requires s.side == ServerSide && Deliverable(s.conn, chunk)
    ensures var (c, out) := Delivered(s.conn, chunk);
      ServerStep(cfg, s, chunk)
      == Done(s.(conn := c, toClient := s.toClient + out,
                 side := if c.phase in SERVER_TRANSITION_PHASES then ClientSide else ServerSide))
  {
    hide Deliverable, Delivered, Receive, Serialize;
    OnePiece(cfg.parser, s.conn, chunk);
  }

  lemma DeliverableIsPending(c: Conn, bytes: seq<byte>)
    requires Deliverable(c, bytes)
    ensures c.phase == PendingResponse
  {
    hide ReadFrames, NextFrame, RespondAll;
  }

  lemma DeliveredKeeps(c: Conn, bytes: seq<byte>)
    requires Deliverable(c, bytes)
    ensures var c' := Delivered(c, bytes).0;
      && c'.clientFlag == c.clientFlag && c'.diff == c.diff && c'.tls == c.tls
      && (Saved(c') == [] ==> c'.partial == None)
  {
    hide ReadFrames, NextFrame, RespondAll;
  }

  /** However a response is cut into reads, the server loop runs until its last byte and then hands
      the turn over. */
  lemma {:induction false} ResponseReads(cfg: Config, s: System, chunks: seq<seq<byte>>, server: seq<seq<byte>>,
      client: seq<ClientRead>)
    requires s.side == ServerSide && chunks != [] && AllNonEmpty(chunks) && Deliverable(s.conn, Flatten(chunks))
    requires Delivered(s.conn, Flatten(chunks)).0.phase == Phase.Command
        && Saved(Delivered(s.conn, Flatten(chunks)).0) == []
    ensures var (c, out) := Delivered(s.conn, Flatten(chunks));
      Exchanges.Run(cfg, s, chunks + server, client)
          == Exchanges.Run(cfg, s.(conn := c, toClient := s.toClient + out, side := ClientSide), server, client)
    decreases |chunks|
  {
    hide Exchanges.Run, ServerStep, Deliverable, Delivered, ReadFrames, NextFrame;
    var tail := Flatten(chunks[1..]);
    RunServer(cfg, s, chunks + server, client);
    assert (chunks + server)[0] == chunks[0] && (chunks + server)[1..] == chunks[1..] + server;
    CutInTwo(s.conn, chunks[0], tail);
    ServerPiece(cfg, s, chunks[0]);
    var (c, out) := Delivered(s.conn, chunks[0]);
    if |chunks| == 1 {
      assert chunks[0] + tail == chunks[0] && chunks[1..] + server == server;
    } else {
      assert chunks[1] == chunks[1..][0] && tail != [];
      if ReadFrames(Saved(c) + tail, None).value.frames == [] {
        assert false;
      } else {
        DeliverableIsPending(c, tail);
        ResponseReads(cfg, s.(conn := c, toClient := s.toClient + out), chunks[1..], server, client);
        var rest := Delivered(c, tail).1;
        assert (s.toClient + out) + rest == s.toClient + (out + rest);
      }
    }
  }

  /** A lone OK or ERR is passed on as it is and ends the response. */
  lemma ClosingBytes(c: Conn, body: seq<byte>, seqNo: byte)
    requires c.response == FRESH && Saved(c) == [] && TextQuery(ContextOf(c))
    requires 0 < |body| < MAX_SIZE && Closes(Pack(body, seqNo), ContextOf(c))
    ensures var bytes := FrameBytes(Frame(Header(|body|, seqNo), body));
      && bytes != [] && Deliverable(c, bytes)
      && Delivered(c, bytes).0.phase == Phase.Command && Saved(Delivered(c, bytes).0) == []
      && Delivered(c, bytes).1 == bytes
  {
    hide ReadFrames, NextFrame, FrameBytes, Closes, Respond;
    var f, p := Frame(Header(|body|, seqNo), body), Pack(body, seqNo);
    var bytes := FrameBytes(f);
    OneFrameRead(f);
    assert Saved(c) + bytes == bytes;
    NothingNext();
    ClosingStep(FRESH, p, ContextOf(c));
    assert TypeAll([f], PendingResponse) == [p];
    EmittedOne(p);
    assert Untyped([p]) == [f];
    assert RespondAll(FRESH, [p], ContextOf(c))
        == Done(ResponseRuns.Run.Run(FRESH.(state := Complete), [p], Phase.Command, [p][1..]));
  }

  lemma OneFrameRead(f: Frame)
    requires WellFormed(f)
    ensures Serialize([f]) == FrameBytes(f)
    ensures ReadFrames(FrameBytes(f), None) == Done(Parsed([f], []))
  {
    hide ReadFrames, FrameBytes;
    OneFrameWritten(f);
    assert FrameBytes(f) + [] == FrameBytes(f);
    NothingNext();
    SerializeThenRead([f], [], None);
  }

  // ---- A query, read by read

  function QueryFrame(text: Text, seqNo: byte, flag: nat): Frame {
    Frame(Header(|QueryPrefix(flag) + text|, seqNo), QueryPrefix(flag) + text)
  }

  function CommandOf(cfg: Config, text: Text): Responses.Command {
    Responses.Command.Command(COM_QUERY, text, cfg.parser(text))
  }

  /** With interception on, every command is logged before its answer. */
  function LogAfter(cfg: Config, diff: DiffMap, text: Text): DiffMap {
    if !cfg.intercept || cfg.parser(text).None? then diff else DiffAfter(diff, cfg.parser(text).value)
  }

  /** The proxy's answer to an intercepted write. */
  function Acknowledgement(cfg: Config, text: Text, seqNo: byte, flag: nat, counter: byte): seq<byte> {
    match WriteResponse(CommandOf(cfg, text), seqNo, flag, counter) case Panic(_) => [] case Done(bytes) => bytes
  }

  /** The system after a whole query: waiting for the server, or done with it. */
  function AfterQuery(cfg: Config, s: System, text: Text, seqNo: byte, flag: nat, counter: byte): System {
    var c := s.conn.(partial := None, lastCommand := Some(CommandOf(cfg, text)), response := FRESH,
                     diff := LogAfter(cfg, s.conn.diff, text));
    if cfg.intercept && WriteText(text) then
      s.(conn := c, toClient := s.toClient + Acknowledgement(cfg, text, seqNo, flag, counter))
    else
      s.(conn := c.(phase := PendingResponse), toServer := s.toServer + FrameBytes(QueryFrame(text, seqNo, flag)),
          side := ServerSide)
  }

  /** A client read that completes no packet is kept, and nothing is forwarded. */
  lemma IdleClientStep(cfg: Config, s: System, read: ClientRead, parsed: Parsed)
    requires s.side == ClientSide && s.conn.phase == Phase.Command
    requires ReadFrames(Saved(s.conn) + read.bytes, None) == Done(parsed) && parsed.frames == []
    ensures ClientStep(cfg, s, read) == Done(s.(conn := WithSaved(s.conn, parsed.rest)))
  {
    hide Receive, ReadFrames;
    IdleRead(cfg.parser, s.conn, read.bytes, parsed);
    assert Serialize(Untyped([])) == [];
    assert s.toServer + [] == s.toServer;
  }

  /** The query packet is consumed as a command and waits for its answer. */
  lemma QueryConsumed(cfg: Config, c: Conn, chunk: seq<byte>, text: Text, seqNo: byte, flag: nat)
    requires c.phase == Phase.Command && c.clientFlag == Some(flag) && Utf8(text)
    requires ReadFrames(Saved(c) + chunk, None) == Done(Parsed([QueryFrame(text, seqNo, flag)], []))
    ensures Receive(cfg.parser, c, chunk) == Done((
      c.(phase := PendingResponse, partial := None, lastCommand := Some(CommandOf(cfg, text)), response := FRESH),
      [Typed(QueryFrame(text, seqNo, flag), Phase.Command)]))
  {
    hide ReadFrames, ReadCommand, Utf8;
    var f := QueryFrame(text, seqNo, flag);
    var p := Typed(f, Phase.Command);
    QueryRoundTrip(text, flag, cfg.parser);
    assert TypeAll([f], Phase.Command) == [p];
    var c0 := WithSaved(c, []);
    var c1 := c0.(phase := PendingResponse, lastCommand := Some(CommandOf(cfg, text)), response := FRESH);
    assert ConsumePacket(cfg.parser, c0, p) == Done((c1, p));
    assert [p][1..] == [];
    assert ConsumeAll(cfg.parser, c1, [p][1..]) == Done((c1, []));
    assert ConsumeAll(cfg.parser, c0, [p]) == Done((c1, [p] + []));
    EmittedOne(p);
  }

  lemma QueryIsCommand(text: Text, seqNo: byte, flag: nat)
    ensures QueryFrame(text, seqNo, flag).body != []
    ensures Typed(QueryFrame(text, seqNo, flag), Phase.Command).pType == CommandPacket
  {
  }

  lemma QueryStep(cfg: Config, s: System, read: ClientRead, text: Text, seqNo: byte, flag: nat)
    requires s.side == ClientSide && s.conn.phase == Phase.Command && s.conn.clientFlag == Some(flag)
    requires HasBit(flag, PROTOCOL_41) && Utf8(text)
    requires ReadFrames(Saved(s.conn) + read.bytes, None) == Done(Parsed([QueryFrame(text, seqNo, flag)], []))
    ensures ClientStep(cfg, s, read) == Done(AfterQuery(cfg, s, text, seqNo, flag, read.counter))
  {
    hide Receive, ReadFrames, Utf8, Intercept, Classify, Acknowledgement, WriteText, Serialize, FrameBytes, DiffAfter;
    var f, p := QueryFrame(text, seqNo, flag), Typed(QueryFrame(text, seqNo, flag), Phase.Command);
    QueryConsumed(cfg, s.conn, read.bytes, text, seqNo, flag);
    if cfg.intercept {
      QueryIntercepted(cfg, Receive(cfg.parser, s.conn, read.bytes).value.0, text, seqNo, flag, read.counter);
    } else {
      assert LogAfter(cfg, s.conn.diff, text) == s.conn.diff;
    }
    OneFrameWritten(f);
    assert Untyped([p]) == [f];
  }

  lemma OneFrameWritten(f: Frame)
    ensures Serialize([f]) == FrameBytes(f)
  {
    var none: seq<Frame> := [];
    assert [f][1..] == none && Serialize(none) == [];
  }

  /** Interception answers the query if it begins like a write, and logs it either way. */
  lemma QueryIntercepted(cfg: Config, c: Conn, text: Text, seqNo: byte, flag: nat, counter: byte)
    requires c.phase == PendingResponse && c.lastCommand == Some(CommandOf(cfg, text)) && c.clientFlag == Some(flag)
    requires HasBit(flag, PROTOCOL_41) && QueryFrame(text, seqNo, flag).body != [] && cfg.intercept
    ensures var logged := c.(diff := LogAfter(cfg, c.diff, text));
      Intercept(c, [Typed(QueryFrame(text, seqNo, flag), Phase.Command)], counter)
      == Done(if WriteText(text) then
                (logged.(phase := Phase.Command), Some(Acknowledgement(cfg, text, seqNo, flag, counter)))
              else (logged, None))
  {
    hide WriteResponse, LowerCase, QueryPrefix, Classify, DiffAfter;
    QueryIsCommand(text, seqNo, flag);
    WriteIsAcknowledged(CommandOf(cfg, text), seqNo, flag, counter, PendingResponse, []);
  }

  /** However a query is cut into reads, the client loop runs until its last byte. */
  lemma {:induction false} QueryReads(cfg: Config, s: System, parts: seq<ClientRead>, text: Text, seqNo: byte,
      flag: nat,
                                      server: seq<seq<byte>>, client: seq<ClientRead>)
    requires s.side == ClientSide && s.conn.phase == Phase.Command && s.conn.clientFlag == Some(flag)
    requires HasBit(flag, PROTOCOL_41) && Utf8(text) && |QueryPrefix(flag) + text| < MAX_SIZE
    requires parts != [] && forall i :: 0 <= i < |parts| ==> parts[i].bytes != []
    requires Saved(s.conn) + Sent(parts) == FrameBytes(QueryFrame(text, seqNo, flag))
    ensures Exchanges.Run(cfg, s, server, parts + client)
         == Exchanges.Run(cfg, AfterQuery(cfg, s, text, seqNo, flag, parts[|parts| - 1].counter), server, client)
    decreases |parts|
  {
    hide Exchanges.Run, ClientStep, ReadFrames, NextFrame, FrameBytes, Utf8, QueryPrefix, Acknowledgement, LogAfter;
    var f, head := QueryFrame(text, seqNo, flag), Saved(s.conn) + parts[0].bytes;
    QueryIsFramed(text, seqNo, flag);
    RunClient(cfg, s, server, parts + client);
    assert (parts + client)[0] == parts[0] && (parts + client)[1..] == parts[1..] + client;
    assert head + Sent(parts[1..]) == FrameBytes(f);
    if |parts| == 1 {
      assert head + [] == head && parts[1..] + client == client;
      OneFrameRead(f);
      QueryStep(cfg, s, parts[0], text, seqNo, flag);
    } else {
      assert parts[1..][0] == parts[1];
      NoFrameYet(f, head, Sent(parts[1..]));
      ReadNothing(head, None);
      IdleClientStep(cfg, s, parts[0], Parsed([], head));
      QueryReads(cfg, s.(conn := WithSaved(s.conn, head)), parts[1..], text, seqNo, flag, server, client);
    }
  }

  lemma QueryIsFramed(text: Text, seqNo: byte, flag: nat)
    requires |QueryPrefix(flag) + text| < MAX_SIZE
    ensures WellFormed(QueryFrame(text, seqNo, flag))
  {
  }

  lemma NoFrameYet(f: Frame, head: seq<byte>, tail: seq<byte>)
    requires WellFormed(f) && head + tail == FrameBytes(f) && tail != []
    ensures NextFrame(head) == None
  {
    hide NextFrame, FrameBytes;
    FrameRoundTrip(f, []);
    assert FrameBytes(f) + [] == FrameBytes(f);
    if NextFrame(head).Some? {
      NextFrameStable(head, tail);
    }
  }

  // ---- Sessions

  /** A command and how it is answered: a result set, an OK or ERR, or the proxy's own OK. */
  datatype Cycle =
    | Answered(text: Text, seqNo: byte, parts: seq<ClientRead>, answer: Answer, first: int, chunks: seq<seq<byte>>)
    | Closed(text: Text, seqNo: byte, parts: seq<ClientRead>, body: seq<byte>, number: byte, chunks: seq<seq<byte>>)
    | Intercepted(text: Text, seqNo: byte, parts: seq<ClientRead>)

  /** What the server's answer to a query is read under. */
  function QueryContext(cfg: Config, flag: nat, diff: DiffMap, text: Text): Context {
    Context(PendingResponse, Some(CommandOf(cfg, text)), Some(flag), LogAfter(cfg, diff, text))
  }

  /** The bytes both peers send make up a query and, unless it is intercepted, its answer. */
  ghost predicate Proper(cfg: Config, flag: nat, diff: DiffMap, x: Cycle) {
    && Utf8(x.text) && |QueryPrefix(flag) + x.text| < MAX_SIZE
    && (forall i :: 0 <= i < |x.parts| ==> x.parts[i].bytes != [])
    && Sent(x.parts) == FrameBytes(QueryFrame(x.text, x.seqNo, flag))
    && match x
       case Answered(text, _, _, answer, first, chunks) =>
         && !(cfg.intercept && WriteText(text)) && AllNonEmpty(chunks)
         && Answers(answer, QueryContext(cfg, flag, diff, text))
         && Flatten(chunks) == Serialize(NumberedFrames(Bodies(answer, answer.rows), first))
       case Closed(text, _, _, body, number, chunks) =>
         && !(cfg.intercept && WriteText(text)) && AllNonEmpty(chunks)
         && TextQuery(QueryContext(cfg, flag, diff, text))
         && 0 < |body| < MAX_SIZE && Closes(Pack(body, number), QueryContext(cfg, flag, diff, text))
         && Flatten(chunks) == FrameBytes(Frame(Header(|body|, number), body))
       case Intercepted(text, _, _) => cfg.intercept && WriteText(text)
  }

  function ServerReads(x: Cycle): seq<seq<byte>> {
    if x.Intercepted? then [] else x.chunks
  }

  /** What the client is sent: the table it is to see, the server's OK or ERR, or the proxy's OK. */
  ghost function ToClient(cfg: Config, flag: nat, diff: DiffMap, x: Cycle): seq<byte>
    requires Proper(cfg, flag, diff, x)
  {
    match x
    case Answered(text, _, _, answer, first, _) =>
      Serialize(NumberedFrames(Bodies(answer, ClientTable(answer, QueryContext(cfg, flag, diff, text))), first))
    case Closed(_, _, _, body, number, _) => FrameBytes(Frame(Header(|body|, number), body))
    case Intercepted(text, seqNo, parts) =>
      if parts == [] then [] else Acknowledgement(cfg, text, seqNo, flag, parts[|parts| - 1].counter)
  }

  function ToServer(flag: nat, x: Cycle): seq<byte> {
    if x.Intercepted? then [] else FrameBytes(QueryFrame(x.text, x.seqNo, flag))
  }

  /** Waiting for a command of the client. */
  predicate Ready(s: System, flag: nat, diff: DiffMap) {
    && s.side == ClientSide && s.conn.phase == Phase.Command && s.conn.partial == None
    && s.conn.clientFlag == Some(flag) && s.conn.diff == diff && HasBit(flag, PROTOCOL_41)
  }

  lemma {:induction false} SomethingSent(parts: seq<ClientRead>, f: Frame)
    requires Sent(parts) == FrameBytes(f)
    ensures parts != []
  {
    hide HeaderToBytes;
  }

  /** One cycle, whatever comes after it. */
  lemma OneCycle(cfg: Config, flag: nat, s: System, diff: DiffMap, x: Cycle, server: seq<seq<byte>>,
      client: seq<ClientRead>)
    returns (end: System)
    requires Ready(s, flag, diff) && Proper(cfg, flag, diff, x)
    ensures Exchanges.Run(cfg, s, ServerReads(x) + server, x.parts + client) == Exchanges.Run(cfg, end, server, client)
    ensures Ready(end, flag, LogAfter(cfg, diff, x.text))
    ensures end.toClient == s.toClient + ToClient(cfg, flag, diff, x)
    ensures end.toServer == s.toServer + ToServer(flag, x) && end.switches == s.switches
  {
    hide Exchanges.Run, Utf8, QueryPrefix, FrameBytes, WriteText, LogAfter, Acknowledgement, Answers, Closes,
        TextQuery, Serialize,
      NumberedFrames, Bodies, ClientTable, AllNonEmpty, Deliverable, Delivered, QueryFrame;
    SomethingSent(x.parts, QueryFrame(x.text, x.seqNo, flag));
    assert Saved(s.conn) + Sent(x.parts) == Sent(x.parts);
    QueryReads(cfg, s, x.parts, x.text, x.seqNo, flag, ServerReads(x) + server, client);
    var s1 := AfterQuery(cfg, s, x.text, x.seqNo, flag, x.parts[|x.parts| - 1].counter);
    if x.Intercepted? {
      assert ServerReads(x) + server == server;
      end := s1;
      assert s.toServer + [] == s.toServer;
    } else {
      assert ContextOf(s1.conn) == QueryContext(cfg, flag, diff, x.text);
      if x.Answered? {
        AnswerBytes(s1.conn, x.answer, x.first);
      } else {
        ClosingBytes(s1.conn, x.body, x.number);
      }
      assert x.chunks != [];
      ResponseReads(cfg, s1, x.chunks, server, client);
      DeliveredKeeps(s1.conn, Flatten(x.chunks));
      var (c, out) := Delivered(s1.conn, Flatten(x.chunks));
      end := s1.(conn := c, toClient := s1.toClient + out, side := ClientSide);
    }
  }

  /** Each cycle is proper under the log the ones before leave. */
  ghost predicate AllProper(cfg: Config, flag: nat, diff: DiffMap, xs: seq<Cycle>)
    decreases |xs|
  {
    xs != [] ==> Proper(cfg, flag, diff, xs[0]) && AllProper(cfg, flag, LogAfter(cfg, diff, xs[0].text), xs[1..])
  }

  function AllServerReads(xs: seq<Cycle>): seq<seq<byte>> {
    if xs == [] then [] else ServerReads(xs[0]) + AllServerReads(xs[1..])
  }

  function AllClientReads(xs: seq<Cycle>): seq<ClientRead> {
    if xs == [] then [] else xs[0].parts + AllClientReads(xs[1..])
  }

  ghost function AllToClient(cfg: Config, flag: nat, diff: DiffMap, xs: seq<Cycle>): seq<byte>
    requires AllProper(cfg, flag, diff, xs)
    decreases |xs|
  {
    if xs == [] then [] else
    ToClient(cfg, flag, diff, xs[0]) + AllToClient(cfg, flag, LogAfter(cfg, diff, xs[0].text), xs[1..])
  }

  function AllToServer(flag: nat, xs: seq<Cycle>): seq<byte> {
    if xs == [] then [] else ToServer(flag, xs[0]) + AllToServer(flag, xs[1..])
  }

  function LogAfterAll(cfg: Config, diff: DiffMap, xs: seq<Cycle>): DiffMap
    decreases |xs|
  {
    if xs == [] then diff else LogAfterAll(cfg, LogAfter(cfg, diff, xs[0].text), xs[1..])
  }

  lemma {:induction false} SessionRun(cfg: Config, flag: nat, s: System, diff: DiffMap, xs: seq<Cycle>)
      returns (end: System)
    requires Ready(s, flag, diff) && AllProper(cfg, flag, diff, xs)
    ensures Exchanges.Run(cfg, s, AllServerReads(xs), AllClientReads(xs)) == Exchanges.Run(cfg, end, [], [])
    ensures Ready(end, flag, LogAfterAll(cfg, diff, xs))
    ensures end.toClient == s.toClient + AllToClient(cfg, flag, diff, xs)
    ensures end.toServer == s.toServer + AllToServer(flag, xs) && end.switches == s.switches
    decreases |xs|
  {
    hide Exchanges.Run, Proper, ToClient, ToServer, LogAfter, Ready;
    if xs == [] {
      end := s;
      assert s.toClient + [] == s.toClient && s.toServer + [] == s.toServer;
    } else {
      var next := OneCycle(cfg, flag, s, diff, xs[0], AllServerReads(xs[1..]), AllClientReads(xs[1..]));
      var after := LogAfter(cfg, diff, xs[0].text);
      end := SessionRun(cfg, flag, next, after, xs[1..]);
      var here, there := ToClient(cfg, flag, diff, xs[0]), AllToClient(cfg, flag, after, xs[1..]);
      assert (s.toClient + here) + there == s.toClient + (here + there);
      var here', there' := ToServer(flag, xs[0]), AllToServer(flag, xs[1..]);
      assert (s.toServer + here') + there' == s.toServer + (here' + there');
    }
  }

  /** Whole sessions: from a client's turn in the command phase, any number of queries, statements and
      intercepted writes, cut into reads in any way, are all exchanged. The client is sent, for each
      in turn, the table it is to see under the log of that moment, the server's own OK or ERR, or
      the proxy's; the server gets the queries not intercepted; and the client's turn comes again. */
  lemma Session(cfg: Config, flag: nat, s: System, diff: DiffMap, xs: seq<Cycle>)
    requires Ready(s, flag, diff) && AllProper(cfg, flag, diff, xs)
    ensures var r := Exchanges.Run(cfg, s, AllServerReads(xs), AllClientReads(xs));
      && r.Done? && Ready(r.value, flag, LogAfterAll(cfg, diff, xs))
      && r.value.toClient == s.toClient + AllToClient(cfg, flag, diff, xs)
      && r.value.toServer == s.toServer + AllToServer(flag, xs)
  {
    hide AllProper, AllToClient, AllToServer, LogAfterAll;
    var end := SessionRun(cfg, flag, s, diff, xs);
    RunClient(cfg, end, [], []);
  }

  // ---- Read your writes

  /** The log entries of a table a session adds. */
  function EntriesIn(cfg: Config, xs: seq<Cycle>, table: Text): Log {
    if xs == [] then [] else
    (if !cfg.intercept || cfg.parser(xs[0].text).None? then []
     else EntriesFor(Scanned(cfg.parser(xs[0].text).value), table))
    + EntriesIn(cfg, xs[1..], table)
  }

  lemma {:induction false} LogAlongSession(cfg: Config, diff: DiffMap, xs: seq<Cycle>, table: Text)
    ensures LogOf(LogAfterAll(cfg, diff, xs), table) == LogOf(diff, table) + EntriesIn(cfg, xs, table)
    decreases |xs|
  {
    hide DiffAfter, EntriesFor, Scanned;
    if xs != [] {
      if cfg.intercept && cfg.parser(xs[0].text).Some? {
        LogGrows(diff, cfg.parser(xs[0].text).value, table);
      }
      LogAlongSession(cfg, LogAfter(cfg, diff, xs[0].text), xs[1..], table);
    }
  }

  lemma {:induction false} LogAfterMore(cfg: Config, diff: DiffMap, xs: seq<Cycle>, x: Cycle)
    ensures LogAfterAll(cfg, diff, xs + [x]) == LogAfter(cfg, LogAfterAll(cfg, diff, xs), x.text)
    decreases |xs|
  {
    hide LogAfter;
    if xs == [] {
      assert (xs + [x])[1..] == [];
    } else {
      assert (xs + [x])[1..] == xs[1..] + [x];
      LogAfterMore(cfg, LogAfter(cfg, diff, xs[0].text), xs[1..], x);
    }
  }

  lemma {:induction false} LastIsProper(cfg: Config, flag: nat, diff: DiffMap, xs: seq<Cycle>, x: Cycle)
    requires AllProper(cfg, flag, diff, xs + [x])
    ensures Proper(cfg, flag, LogAfterAll(cfg, diff, xs), x)
    decreases |xs|
  {
    hide LogAfter, Proper;
    if xs != [] {
      assert (xs + [x])[1..] == xs[1..] + [x];
      LastIsProper(cfg, flag, LogAfter(cfg, diff, xs[0].text), xs[1..], x);
    }
  }

  lemma RewritableIsMatched(columns: seq<Column>, log: Log, selection: Option<Expr>, fs: seq<Field>)
    requires DistinctNames(columns) && |fs| == |columns| && Encodable(fs)
        && Rewritable(columns, Some(log), selection, fs)
    ensures LastMatch(RowOf(columns, WidenAll(fs)), log).Done?
  {
    hide RowOf, LastMatch, EncodeRow;
    PointwiseRewrite(columns, fs, log, selection);
  }

  /** An UPDATE the proxy intercepts, as it is logged. */
  predicate Updates(cfg: Config, x: Cycle, table: Text, e: Entry) {
    && x.Intercepted? && cfg.parser(x.text).Some? && |cfg.parser(x.text).value| == 1
    && var u := cfg.parser(x.text).value[0];
    u.Update? && u.table == Some(table) && u.selection == e.selection && Processed(u.assignments) == Some(e.assignments)
  }

  /** Read your writes, along any session: until the next UPDATE of the table, the table a client is
      sent for a query shows the intercepted UPDATE in every row whose values at the server satisfy
      its condition, and every other row as the earlier log has it. */
  lemma WritesAreRead(cfg: Config, flag: nat, diff: DiffMap, update: Cycle, later: seq<Cycle>, query: Cycle,
      table: Text, e: Entry)
    requires AllProper(cfg, flag, diff, [update] + later + [query]) && cfg.intercept && Updates(cfg, update, table, e)
    requires query.Answered? && EntriesIn(cfg, later + [query], table) == []
    requires query.answer.columns != [] && query.answer.columns[0].orgTable == table
    ensures var c := QueryContext(cfg, flag, LogAfterAll(cfg, diff, [update] + later), query.text);
      var columns, log, selection := query.answer.columns, LogOf(diff, table), SelectionOf(c.command.value);
      && Answers(query.answer, c)
      && (forall i :: 0 <= i < |query.answer.rows| ==>
            var fs := query.answer.rows[i];
            && |fs| == |columns|
            && LastMatch(RowOf(columns, WidenAll(fs)), log).Done? && Matches(RowOf(columns, WidenAll(fs)), e).Done?
            && Survivor(columns, Some(log + [e]), selection, fs) == ShownAfter(columns, log, e, selection, fs))
      && ClientTable(query.answer, c) == Survivors(columns, Some(log + [e]), selection, query.answer.rows)
  {
    hide AllProper, Proper, LogAfter, EntriesFor, Scanned, RowOf, LastMatch, Survivors, Survivor, Rewritable, Matches;
    var before := [update] + later;
    var c := QueryContext(cfg, flag, LogAfterAll(cfg, diff, before), query.text);
    LastIsProper(cfg, flag, diff, before, query);
    ProperAnswers(cfg, flag, LogAfterAll(cfg, diff, before), query);
    LogAfterMore(cfg, diff, before, query);
    LogAlongSession(cfg, diff, before + [query], table);
    OneEntry(cfg, update, later, query, table, e);
    var columns, log, selection := query.answer.columns, LogOf(diff, table), SelectionOf(c.command.value);
    assert LogOf(c.diff, table) == log + [e];
    forall i | 0 <= i < |query.answer.rows|
      ensures var fs := query.answer.rows[i];
        && |fs| == |columns|
        && LastMatch(RowOf(columns, WidenAll(fs)), log).Done? && Matches(RowOf(columns, WidenAll(fs)), e).Done?
        && Survivor(columns, Some(log + [e]), selection, fs) == ShownAfter(columns, log, e, selection, fs)
    {
      var fs := query.answer.rows[i];
      assert CanonicalRow(fs, |columns|) && Rewritable(columns, Some(log + [e]), selection, fs);
      RewritableIsMatched(columns, log + [e], selection, fs);
      SurvivorAfter(columns, log, e, selection, fs);
    }
  }

  lemma ProperAnswers(cfg: Config, flag: nat, diff: DiffMap, x: Cycle)
    requires Proper(cfg, flag, diff, x) && x.Answered?
    ensures Answers(x.answer, QueryContext(cfg, flag, diff, x.text))
  {
    hide Utf8, Answers;
  }

  lemma OneEntry(cfg: Config, update: Cycle, later: seq<Cycle>, query: Cycle, table: Text, e: Entry)
    requires cfg.intercept && Updates(cfg, update, table, e) && EntriesIn(cfg, later + [query], table) == []
    ensures EntriesIn(cfg, [update] + later + [query], table) == [e]
  {
    hide Processed;
    var xs, statements := [update] + later + [query], cfg.parser(update.text).value;
    assert xs[1..] == later + [query];
    assert statements[1..] == [];
    assert Scanned(statements) == [statements[0]] + [];
    assert Scanned(statements)[1..] == [];
    assert EntriesFor(Scanned(statements), table) == [e] + [];
  }

  /** A server's error is relayed: a statement answered by an ERR packet with any code, state and
      message, cut into reads in any way, makes a proper cycle, and the client is sent that packet. */
  lemma ErrorCycle(cfg: Config, flag: nat, diff: DiffMap, x: Cycle, code: seq<byte>, state: Text, message: Text)
    requires x.Closed? && x.body == ErrBody(code, 35, state, message)
    requires |code| == 2 && |state| == 5 && Ascii(state) && Utf8(message) && |x.body| < MAX_SIZE
    requires HasBit(flag, PROTOCOL_41) && !HasBit(flag, OPTIONAL_METADATA) && !(cfg.intercept && WriteText(x.text))
    requires Utf8(x.text) && |QueryPrefix(flag) + x.text| < MAX_SIZE
    requires forall i :: 0 <= i < |x.parts| ==> x.parts[i].bytes != []
    requires Sent(x.parts) == FrameBytes(QueryFrame(x.text, x.seqNo, flag))
    requires AllNonEmpty(x.chunks) && Flatten(x.chunks) == FrameBytes(Frame(Header(|x.body|, x.number), x.body))
    ensures Closes(Pack(x.body, x.number), QueryContext(cfg, flag, diff, x.text))
    ensures Proper(cfg, flag, diff, x) && ToClient(cfg, flag, diff, x) == Flatten(x.chunks)
  {
    hide Utf8, FrameBytes, WriteText, LogAfter, ErrorCheck, QueryPrefix, Ascii;
    AsciiIsUtf8(state);
    MarkerIsAscii();
    AsciiIsUtf8([35]);
    ErrorsAreRead(code, 35, state, message, flag, PendingResponse);
  }

  lemma MarkerIsAscii()
    ensures Ascii([35])
  {
  }
}
