/** What holds along every run of a connection: stored data, phase history and turn-taking. */
module Invariants {
  import opened Outcomes
  import opened Bytes
  import opened Types
  import opened Packets
  import opened Framing
  import opened DiffLog
  import opened Rows
  import opened Responses
  import opened Greetings
  import opened Handshakes
  import opened Connections
  import opened Exchanges

  /** The client's handshake response has been consumed. */
  predicate Introduced(phase: Phase) {
    phase !in {Handshake, HandshakeResponse}
  }

  /** After the handshake response its 4.1 capability word is stored; a pending response has its
      command and, unless executed in the binary protocol, an accumulator that is not complete. */
  predicate Inv(c: Conn) {
    && (Introduced(c.phase) ==> c.clientFlag.Some? && HasBit(c.clientFlag.value, PROTOCOL_41))
    && (c.phase == PendingResponse ==>
          && c.lastCommand.Some?
          && (c.lastCommand.value.code != COM_STMT_EXECUTE ==> c.response.state != Complete))
    && (c.phase == TlsExchange ==> !c.tls)
  }

  /** The faults of unwrapping stored data that is not there. */
  const MISSING_DATA := {NoCommand, NoHandshakeResponse}

  /** Order of the phases; command and pending response alternate and share a rank. */
  function PhaseRank(c: Conn): nat {
    (if c.tls then 7 else 0) +
    match c.phase
    case Handshake => 0
    case HandshakeResponse => 1
    case TlsExchange => 2
    case AuthInit => 3
    case AuthSwitchResponse => 4
    case AuthComplete => 5
    case _ => 6
  }

  predicate InCommand(phase: Phase) {
    phase in {Phase.Command, PendingResponse}
  }

  /** How a packet may move a connection. */
  predicate Advances(c: Conn, c': Conn) {
    && c'.tls == c.tls && PhaseRank(c) <= PhaseRank(c')
    && (InCommand(c.phase) ==> InCommand(c'.phase))
    && c.phase != AuthFailed
  }

  lemma CleanDecoding(p: Packet, c: Context)
    requires c.command.Some? && c.clientFlag.Some?
    ensures OkFromBody(p.body, c.clientFlag).Panic? ==> OkFromBody(p.body, c.clientFlag).fault !in MISSING_DATA
    ensures ErrorCheck(p.body, c.clientFlag).Panic? ==> ErrorCheck(p.body, c.clientFlag).fault !in MISSING_DATA
  {
    hide FromLittleEndian, Utf8;
  }

  /** A response with its command and capability word never misses them, and while it stays
      pending it is not complete. */
  lemma RespondIsClean(r: Response, p: Packet, c: Context)
    requires c.command.Some? && c.clientFlag.Some? && c.phase == PendingResponse
    ensures var re := Respond(r, p, c);
      && (re.Panic? ==> re.fault !in MISSING_DATA)
      && (re.Done? ==> InCommand(re.value.phase))
      && (re.Done? && re.value.phase == PendingResponse && c.command.value.code != COM_STMT_EXECUTE ==>
            re.value.response.state != Complete)
  {
    hide Rewrite, ColumnFromBody, OkFromBody, ErrorCheck, FromLittleEndian;
    CleanDecoding(p, c);
    if c.command.value.code == COM_STMT_PREPARE {
      PrepareIsClean(r, p, c);
    } else if Screen(r, p, c).Done? {
      TextIsClean(Screen(r, p, c).value, p, c);
    }
  }

  lemma TextIsClean(r: Response, p: Packet, c: Context)
    requires c.command.Some? && c.clientFlag.Some? && c.phase == PendingResponse
    ensures var re := RespondText(r, p, c);
      && (re.Panic? ==> re.fault !in MISSING_DATA)
      && (re.Done? ==> InCommand(re.value.phase))
      && (re.Done? && re.value.phase == PendingResponse ==> re.value.response.state != Complete)
  {
    hide ColumnFromBody, RespondRow, DecodeLenEnc;
    RowIsClean(r, p, c);
    RowIsClean(r.(state := HydrateRows), p, c);
  }

  lemma RowIsClean(r: Response, p: Packet, c: Context)
    requires c.command.Some? && c.clientFlag.Some? && c.phase == PendingResponse
    ensures var re := RespondRow(r, p, c);
      && (re.Panic? ==> re.fault !in MISSING_DATA)
      && (re.Done? ==> InCommand(re.value.phase))
      && (re.Done? && re.value.phase == PendingResponse ==> re.value.response.state != Complete)
  {
    hide Rewrite, FromLittleEndian, DecodeLenEnc;
  }

  lemma PrepareIsClean(r: Response, p: Packet, c: Context)
    requires c.command.Some? && c.clientFlag.Some? && c.phase == PendingResponse
    ensures var re := RespondPrepare(r, p, c);
      && (re.Panic? ==> re.fault !in MISSING_DATA)
      && (re.Done? ==> InCommand(re.value.phase))
      && (re.Done? && re.value.phase == PendingResponse ==> re.value.response.state != Complete)
  {
    hide ColumnFromBody, FromLittleEndian;
  }

  lemma AuthPhases(p: Packet)
    requires p.body != []
    ensures AuthInitPhase(p).Panic? ==> AuthInitPhase(p).fault !in MISSING_DATA
    ensures AuthInitPhase(p).Done? ==>
      AuthInitPhase(p).value in {AuthInit, AuthSwitchResponse, AuthComplete, AuthFailed, Phase.Command}
    ensures AuthCompletePhase(p).Panic? ==> AuthCompletePhase(p).fault !in MISSING_DATA
    ensures AuthCompletePhase(p).Done? ==> AuthCompletePhase(p).value in {AuthFailed, Phase.Command}
  {
    hide DecodeNul, Utf8;
  }

  lemma CommandPhases(body: seq<byte>, flag: Option<nat>, parser: Parser)
    requires body != [] && flag.Some?
    ensures ReadCommand(body, flag, parser).Panic? ==> ReadCommand(body, flag, parser).fault !in MISSING_DATA
    ensures ReadCommand(body, flag, parser).Done? ==> InCommand(ReadCommand(body, flag, parser).value.1)
  {
    hide DecodeLenEnc, Utf8;
  }

  /** One packet keeps the invariant, moves forward, and misses no stored data. */
  lemma ConsumeKeepsInv(parser: Parser, c: Conn, p: Packet)
    requires Inv(c) && p.body != []
    ensures var r := ConsumePacket(parser, c, p);
      && (r.Panic? ==> r.fault !in MISSING_DATA)
      && (r.Done? ==> Inv(r.value.0) && Advances(c, r.value.0))
  {
    hide Respond, ReadReply, CheckGreeting, ReadCommand, AuthInitPhase, AuthCompletePhase;
    match c.phase
    case HandshakeResponse => if ReadReply(p.body, !c.tls).Done? { ReplyChoice(p.body, !c.tls); }
    case AuthInit => AuthPhases(p);
    case AuthComplete => AuthPhases(p);
    case Command => CommandPhases(p.body, c.clientFlag, parser);
    case PendingResponse => RespondIsClean(c.response, p, ContextOf(c));
    case _ =>
  }

  /** The gate: the command phase is first entered from authentication, on a packet classified OK. */
  lemma CommandNeedsOk(parser: Parser, c: Conn, p: Packet)
    requires p.body != [] && ConsumePacket(parser, c, p).Done?
    ensures !InCommand(c.phase) && InCommand(ConsumePacket(parser, c, p).value.0.phase) ==>
      p.pType == OkPacket && c.phase in {AuthInit, AuthComplete}
  {
    hide Respond, ReadCommand, ReadReply, Utf8, DecodeNul;
    if c.phase == HandshakeResponse {
      ReplyChoice(p.body, !c.tls);
    }
  }

  /** How reads may move a connection: never back, out of the command phase or out of a failure. */
  predicate Forward(c: Conn, c': Conn) {
    && PhaseRank(c) <= PhaseRank(c') && (c.tls ==> c'.tls)
    && (InCommand(c.phase) ==> InCommand(c'.phase))
    && (c.phase == AuthFailed ==> c'.phase == AuthFailed)
  }

  lemma {:induction false} ConsumeAllKeepsInv(parser: Parser, c: Conn, ps: seq<Packet>)
    requires Inv(c) && NonEmpty(ps)
    ensures var r := ConsumeAll(parser, c, ps);
      && (r.Panic? ==> r.fault !in MISSING_DATA)
      && (r.Done? ==> Inv(r.value.0) && Forward(c, r.value.0) && r.value.0.tls == c.tls)
    decreases |ps|
  {
    hide ConsumePacket, Inv, PhaseRank;
    if ps != [] {
      ConsumeKeepsInv(parser, c, ps[0]);
      if ConsumePacket(parser, c, ps[0]).Done? {
        ConsumeAllKeepsInv(parser, ConsumePacket(parser, c, ps[0]).value.0, ps[1..]);
      }
    }
  }

  lemma {:induction false} ReadFaults(bytes: seq<byte>, last: Option<byte>)
    ensures ReadFrames(bytes, last).Panic? ==> ReadFrames(bytes, last).fault !in MISSING_DATA
    decreases |bytes|
  {
    hide NextFrame;
    if bytes != [] && NextFrame(bytes).Some? {
      var f := NextFrame(bytes).value;
      ReadFaults(bytes[4 + |f.body|..], Some(f.header.seqNo));
    }
  }

  lemma ReceiveKeepsInv(parser: Parser, c: Conn, chunk: seq<byte>)
    requires Inv(c)
    ensures var r := Receive(parser, c, chunk);
      && (r.Panic? ==> r.fault !in MISSING_DATA)
      && (r.Done? ==> Inv(r.value.0) && Forward(c, r.value.0) && r.value.0.tls == c.tls)
  {
    hide ReadFrames, ConsumeAll, TypeAll;
    ReadFaults(Saved(c) + chunk, None);
    var parsed := ReadFrames(Saved(c) + chunk, None);
    if parsed.Done? {
      ConsumeAllKeepsInv(parser, WithSaved(c, parsed.value.rest), TypeAll(parsed.value.frames, c.phase));
    }
  }

  /** Interception needs the client's capability word, which is there whenever it looks for it. */
  lemma InterceptKeepsInv(c: Conn, packets: seq<Packet>, counter: byte)
    requires Inv(c)
    ensures var r := Intercept(c, packets, counter);
      && (r.Panic? ==> r.fault !in MISSING_DATA)
      && (r.Done? ==> Inv(r.value.0) && Forward(c, r.value.0) && r.value.0.tls == c.tls)
  {
    hide DiffAfter, IsWrite, EncodeLenEnc, LittleEndian, LowerCase;
  }

  /** The switch count is one exactly when the connection is encrypted. */
  predicate SystemInv(s: System) {
    Inv(s.conn) && s.switches == (if s.conn.tls then 1 else 0)
  }

  lemma ClientStepKeepsInv(cfg: Config, s: System, read: ClientRead)
    requires SystemInv(s)
    ensures SystemInv(SwitchToTls(cfg, s)) && Forward(s.conn, SwitchToTls(cfg, s).conn)
    ensures var r := ClientStep(cfg, s, read);
      && (r.Panic? ==> r.fault !in MISSING_DATA)
      && (r.Done? ==> SystemInv(r.value) && Forward(s.conn, r.value.conn))
  {
    hide Receive, Intercept;
    var c := SwitchToTls(cfg, s).conn;
    ReceiveKeepsInv(cfg.parser, c, read.bytes);
    var got := Receive(cfg.parser, c, read.bytes);
    if got.Done? {
      InterceptKeepsInv(got.value.0, got.value.1, read.counter);
    }
  }

  lemma ServerStepKeepsInv(cfg: Config, s: System, chunk: seq<byte>)
    requires SystemInv(s)
    ensures var r := ServerStep(cfg, s, chunk);
      && (r.Panic? ==> r.fault !in MISSING_DATA)
      && (r.Done? ==> SystemInv(r.value) && Forward(s.conn, r.value.conn))
  {
    hide Receive;
    ReceiveKeepsInv(cfg.parser, s.conn, chunk);
  }

  /** Every run, whatever the peers send and however it is cut into reads: the invariant holds,
      stored data is never missed where it is unwrapped (interception included), the phase only
      moves forward, TLS is switched at most once, the command phase is never left and a failed
      authentication is final. */
  lemma {:induction false} EveryRun(cfg: Config, s: System, server: seq<seq<byte>>, client: seq<ClientRead>)
    requires SystemInv(s)
    ensures var r := Run(cfg, s, server, client);
      && (r.Panic? ==> r.fault !in MISSING_DATA)
      && (r.Done? ==> SystemInv(r.value) && Forward(s.conn, r.value.conn) && r.value.switches <= 1)
    decreases |server| + |client|
  {
    hide Run, ServerStep, ClientStep, SwitchToTls, Inv, PhaseRank;
    if s.side == ServerSide {
      RunServer(cfg, s, server, client);
      if server != [] && server[0] != [] {
        ServerStepKeepsInv(cfg, s, server[0]);
        if ServerStep(cfg, s, server[0]).Done? {
          EveryRun(cfg, ServerStep(cfg, s, server[0]).value, server[1..], client);
        }
      }
    } else {
      RunClient(cfg, s, server, client);
      ClientStepKeepsInv(cfg, s, if client == [] then ClientRead([], 0) else client[0]);
      if client != [] && client[0].bytes != [] && ClientStep(cfg, s, client[0]).Done? {
        EveryRun(cfg, ClientStep(cfg, s, client[0]).value, server, client[1..]);
      }
    }
  }

  lemma InvAtStart(diff: DiffMap)
    ensures SystemInv(Start(NewConn(diff)))
  {
  }

  // ---- Turn-taking

  /** Phases in which the proxy waits for the server. */
  predicate ServersTurn(phase: Phase) {
    phase in {Handshake, AuthInit, AuthComplete, PendingResponse, AuthFailed}
  }

  /** No packet of the read follows one that hands the turn over. */
  predicate StopsAtTurn(parser: Parser, c: Conn, ps: seq<Packet>)
    requires NonEmpty(ps)
    decreases |ps|
  {
    |ps| > 1 && ConsumePacket(parser, c, ps[0]).Done? ==>
      var next := ConsumePacket(parser, c, ps[0]).value.0;
      (ServersTurn(next.phase) <==> ServersTurn(c.phase)) && StopsAtTurn(parser, next, ps[1..])
  }

  predicate PoliteRead(parser: Parser, c: Conn, chunk: seq<byte>) {
    var parsed := ReadFrames(Saved(c) + chunk, None);
    parsed.Done? ==> StopsAtTurn(parser, WithSaved(c, parsed.value.rest), TypeAll(parsed.value.frames, c.phase))
  }

  /** Both peers stop at turn boundaries for the whole run. */
  predicate Polite(cfg: Config, s: System, server: seq<seq<byte>>, client: seq<ClientRead>)
    decreases |server| + |client|
  {
    if s.side == ServerSide then
      server != [] && server[0] != [] ==>
        && PoliteRead(cfg.parser, s.conn, server[0])
        && (ServerStep(cfg, s, server[0]).Done? ==>
           Polite(cfg, ServerStep(cfg, s, server[0]).value, server[1..], client))
    else
      client != [] && client[0].bytes != [] ==>
        && PoliteRead(cfg.parser, SwitchToTls(cfg, s).conn, client[0].bytes)
        && (ClientStep(cfg, s, client[0]).Done? ==>
           Polite(cfg, ClientStep(cfg, s, client[0]).value, server, client[1..]))
  }

  /** The proxy listens to the server exactly in the phases in which it waits for it. */
  predicate RightSide(s: System) {
    s.side == ServerSide <==> ServersTurn(s.conn.phase)
  }

  /** A packet hands the turn over only into a phase one of the loops breaks on. */
  lemma HandOver(parser: Parser, c: Conn, p: Packet)
    requires p.body != [] && ConsumePacket(parser, c, p).Done?
    ensures var next := ConsumePacket(parser, c, p).value.0;
      && (ServersTurn(c.phase) ==> (next.phase in SERVER_TRANSITION_PHASES <==> !ServersTurn(next.phase)))
      && (!ServersTurn(c.phase) ==> (next.phase in CLIENT_TRANSITION_PHASES <==> ServersTurn(next.phase)))
  {
    hide Respond, ReadReply, Utf8, DecodeNul, CommandOffset;
    if c.phase == HandshakeResponse {
      ReplyChoice(p.body, !c.tls);
    } else if c.phase == PendingResponse {
      PendingPhases(c.response, p, ContextOf(c));
    }
  }

  lemma PendingPhases(r: Response, p: Packet, c: Context)
    requires c.phase == PendingResponse && Respond(r, p, c).Done?
    ensures InCommand(Respond(r, p, c).value.phase)
  {
    hide RespondText, RespondPrepare, OkFromBody, ErrorCheck;
    if c.command.value.code == COM_STMT_PREPARE {
      PreparePhases(r, p, c);
    } else if Screen(r, p, c).Done? && RespondText(Screen(r, p, c).value, p, c).Done? {
      TextPhases(Screen(r, p, c).value, p, c);
    }
  }

  lemma PreparePhases(r: Response, p: Packet, c: Context)
    requires c.phase == PendingResponse && RespondPrepare(r, p, c).Done?
    ensures InCommand(RespondPrepare(r, p, c).value.phase)
  {
    hide ColumnFromBody, FromLittleEndian;
  }

  lemma TextPhases(r: Response, p: Packet, c: Context)
    requires c.phase == PendingResponse && c.command.Some? && RespondText(r, p, c).Done?
    ensures InCommand(RespondText(r, p, c).value.phase)
  {
    hide ColumnFromBody, RespondRow, DecodeLenEnc;
    RowPhases(r, p, c);
    RowPhases(r.(state := HydrateRows), p, c);
  }

  lemma RowPhases(r: Response, p: Packet, c: Context)
    requires c.phase == PendingResponse && c.command.Some?
    ensures RespondRow(r, p, c).Done? ==> InCommand(RespondRow(r, p, c).value.phase)
  {
    hide Rewrite, FromLittleEndian, DecodeLenEnc;
  }

  lemma {:induction false} HandOverAll(parser: Parser, c: Conn, ps: seq<Packet>)
    requires NonEmpty(ps) && ConsumeAll(parser, c, ps).Done? && StopsAtTurn(parser, c, ps)
    ensures var next := ConsumeAll(parser, c, ps).value.0;
      && (ServersTurn(c.phase) ==> (next.phase in SERVER_TRANSITION_PHASES <==> !ServersTurn(next.phase)))
      && (!ServersTurn(c.phase) ==> (next.phase in CLIENT_TRANSITION_PHASES <==> ServersTurn(next.phase)))
    decreases |ps|
  {
    hide ConsumePacket;
    if ps != [] {
      HandOver(parser, c, ps[0]);
      if |ps| > 1 {
        HandOverAll(parser, ConsumePacket(parser, c, ps[0]).value.0, ps[1..]);
      }
    }
  }

  lemma HandOverRead(parser: Parser, c: Conn, chunk: seq<byte>)
    requires PoliteRead(parser, c, chunk) && Receive(parser, c, chunk).Done?
    ensures var next := Receive(parser, c, chunk).value.0;
      && (ServersTurn(c.phase) ==> (next.phase in SERVER_TRANSITION_PHASES <==> !ServersTurn(next.phase)))
      && (!ServersTurn(c.phase) ==> (next.phase in CLIENT_TRANSITION_PHASES <==> ServersTurn(next.phase)))
  {
    hide ReadFrames, ConsumeAll, StopsAtTurn, TypeAll;
    var parsed := ReadFrames(Saved(c) + chunk, None).value;
    HandOverAll(parser, WithSaved(c, parsed.rest), TypeAll(parsed.frames, c.phase));
  }

  /** Every read of the run, and its end, find the proxy listening to the right side. */
  predicate TurnsKept(cfg: Config, s: System, server: seq<seq<byte>>, client: seq<ClientRead>)
    decreases |server| + |client|
  {
    && RightSide(s)
    && if s.side == ServerSide then
         server != [] && server[0] != [] && ServerStep(cfg, s, server[0]).Done? ==>
           TurnsKept(cfg, ServerStep(cfg, s, server[0]).value, server[1..], client)
       else
         client != [] && client[0].bytes != [] && ClientStep(cfg, s, client[0]).Done? ==>
           TurnsKept(cfg, ClientStep(cfg, s, client[0]).value, server, client[1..])
  }

  /** Turn-taking: with peers that stop at turn boundaries, every read is from the peer whose turn
      it is, and the two break sets hand over exactly when the phase changes side. */
  lemma {:induction false} TurnsAreKept(cfg: Config, s: System, server: seq<seq<byte>>, client: seq<ClientRead>)
    requires RightSide(s) && Polite(cfg, s, server, client)
    ensures TurnsKept(cfg, s, server, client)
    decreases |server| + |client|
  {
    hide Receive, PoliteRead, Intercept;
    if s.side == ServerSide {
      if server != [] && server[0] != [] && ServerStep(cfg, s, server[0]).Done? {
        HandOverRead(cfg.parser, s.conn, server[0]);
        TurnsAreKept(cfg, ServerStep(cfg, s, server[0]).value, server[1..], client);
      }
    } else {
      if client != [] && client[0].bytes != [] && ClientStep(cfg, s, client[0]).Done? {
        ClientTurn(cfg, s, client[0]);
        TurnsAreKept(cfg, ClientStep(cfg, s, client[0]).value, server, client[1..]);
      }
    }
  }

  lemma ClientTurn(cfg: Config, s: System, read: ClientRead)
    requires s.side == ClientSide && RightSide(s) && ClientStep(cfg, s, read).Done?
    requires PoliteRead(cfg.parser, SwitchToTls(cfg, s).conn, read.bytes)
    ensures RightSide(ClientStep(cfg, s, read).value)
  {
    hide Receive, PoliteRead, IsWrite, WriteResponse, DiffAfter;
    HandOverRead(cfg.parser, SwitchToTls(cfg, s).conn, read.bytes);
  }

  /** The command phase is entered only over a packet classified OK. */
  lemma {:induction false} CommandIsGranted(parser: Parser, c: Conn, ps: seq<Packet>)
    requires NonEmpty(ps) && ConsumeAll(parser, c, ps).Done?
    requires !InCommand(c.phase) && InCommand(ConsumeAll(parser, c, ps).value.0.phase)
    ensures exists i :: 0 <= i < |ps| && ps[i].pType == OkPacket
    ensures StopsAtTurn(parser, c, ps) ==> ServersTurn(c.phase)
    decreases |ps|
  {
    hide ConsumePacket;
    CommandNeedsOk(parser, c, ps[0]);
    var next := ConsumePacket(parser, c, ps[0]).value.0;
    if InCommand(next.phase) {
      assert ps[0].pType == OkPacket;
    } else {
      CommandIsGranted(parser, next, ps[1..]);
      var i :| 0 <= i < |ps[1..]| && ps[1..][i].pType == OkPacket;
      assert ps[i + 1].pType == OkPacket;
    }
  }

  /** The read completes a packet classified OK. */
  predicate HoldsOk(c: Conn, chunk: seq<byte>) {
    var parsed := ReadFrames(Saved(c) + chunk, None);
    parsed.Done? &&
    var fs := parsed.value.frames;
    exists i :: 0 <= i < |fs| && Classify(fs[i].body, c.phase) == OkPacket
  }

  /** The first step of the run into the command phase is a read that completes a packet classified
      OK, one from the server if `fromServer`; before it no step gets there. */
  predicate Granted(cfg: Config, s: System, server: seq<seq<byte>>, client: seq<ClientRead>, fromServer: bool)
    decreases |server| + |client|
  {
    if InCommand(s.conn.phase) then true
    else if s.side == ServerSide then
      server != [] && server[0] != [] && ServerStep(cfg, s, server[0]).Done? ==>
        var next := ServerStep(cfg, s, server[0]).value;
        && (InCommand(next.conn.phase) ==> HoldsOk(s.conn, server[0]))
        && Granted(cfg, next, server[1..], client, fromServer)
    else
      client != [] && client[0].bytes != [] && ClientStep(cfg, s, client[0]).Done? ==>
        var next := ClientStep(cfg, s, client[0]).value;
        && (InCommand(next.conn.phase) ==> !fromServer && HoldsOk(SwitchToTls(cfg, s).conn, client[0].bytes))
        && Granted(cfg, next, server, client[1..], fromServer)
  }

  lemma GrantingRead(parser: Parser, c: Conn, chunk: seq<byte>)
    requires Receive(parser, c, chunk).Done?
    requires !InCommand(c.phase) && InCommand(Receive(parser, c, chunk).value.0.phase)
    ensures HoldsOk(c, chunk)
    ensures PoliteRead(parser, c, chunk) ==> ServersTurn(c.phase)
  {
    hide ReadFrames, ConsumeAll, StopsAtTurn, TypeAll, Classify;
    var parsed := ReadFrames(Saved(c) + chunk, None).value;
    var ps := TypeAll(parsed.frames, c.phase);
    CommandIsGranted(parser, WithSaved(c, parsed.rest), ps);
    var i :| 0 <= i < |ps| && ps[i].pType == OkPacket;
    assert ps[i] == Typed(parsed.frames[i], c.phase);
  }

  /** On every run, whatever the peers send, no one gets to issue commands before an OK packet. */
  lemma {:induction false} OkIsNeeded(cfg: Config, s: System, server: seq<seq<byte>>, client: seq<ClientRead>)
    ensures Granted(cfg, s, server, client, false)
    decreases |server| + |client|
  {
    hide Receive, PoliteRead, HoldsOk, IsWrite, WriteResponse, DiffAfter;
    if InCommand(s.conn.phase) {
    } else if s.side == ServerSide {
      if server != [] && server[0] != [] && ServerStep(cfg, s, server[0]).Done? {
        var next := ServerStep(cfg, s, server[0]).value;
        if InCommand(next.conn.phase) {
          GrantingRead(cfg.parser, s.conn, server[0]);
        }
        OkIsNeeded(cfg, next, server[1..], client);
      }
    } else if client != [] && client[0].bytes != [] && ClientStep(cfg, s, client[0]).Done? {
      var c := SwitchToTls(cfg, s).conn;
      if InCommand(Receive(cfg.parser, c, client[0].bytes).value.0.phase) {
        GrantingRead(cfg.parser, c, client[0].bytes);
      }
      OkIsNeeded(cfg, ClientStep(cfg, s, client[0]).value, server, client[1..]);
    }
  }

  /** With peers that keep their turns it is the server's OK. */
  lemma {:induction false} AccessIsGranted(cfg: Config, s: System, server: seq<seq<byte>>, client: seq<ClientRead>)
    requires RightSide(s) && Polite(cfg, s, server, client)
    ensures Granted(cfg, s, server, client, true)
    decreases |server| + |client|
  {
    hide Receive, PoliteRead, HoldsOk, IsWrite, WriteResponse, DiffAfter;
    if InCommand(s.conn.phase) {
    } else if s.side == ServerSide {
      if server != [] && server[0] != [] && ServerStep(cfg, s, server[0]).Done? {
        var next := ServerStep(cfg, s, server[0]).value;
        if InCommand(next.conn.phase) {
          GrantingRead(cfg.parser, s.conn, server[0]);
        }
        HandOverRead(cfg.parser, s.conn, server[0]);
        AccessIsGranted(cfg, next, server[1..], client);
      }
    } else if client != [] && client[0].bytes != [] && ClientStep(cfg, s, client[0]).Done? {
      var c := SwitchToTls(cfg, s).conn;
      if InCommand(Receive(cfg.parser, c, client[0].bytes).value.0.phase) {
        GrantingRead(cfg.parser, c, client[0].bytes);
        assert false;
      }
      ClientTurn(cfg, s, client[0]);
      AccessIsGranted(cfg, ClientStep(cfg, s, client[0]).value, server, client[1..]);
    }
  }
}
