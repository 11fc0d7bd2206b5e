/** From a new connection to the command phase, and on through a session (src/connection_handler.rs:83-177,
    src/mysql/accumulator). */
module Logins {
  import opened Outcomes
  import opened Bytes
  import opened Types
  import opened Packets
  import opened Framing
  import opened DiffLog
  import opened Responses
  import opened Greetings
  import opened Handshakes
  import opened Connections
  import opened EndToEnd
  import opened Exchanges
  import opened Invariants
  import opened Sessions

  /** A packet and the reads it arrives in; the counters matter to client reads only. */
  datatype Message = Message(frame: Frame, parts: seq<ClientRead>)

  predicate Whole(m: Message) {
    && Framing.WellFormed(m.frame) && Sent(m.parts) == FrameBytes(m.frame)
    && forall i :: 0 <= i < |m.parts| ==> m.parts[i].bytes != []
  }

  function Chunks(parts: seq<ClientRead>): (chunks: seq<seq<byte>>)
    ensures |chunks| == |parts| && forall i :: 0 <= i < |parts| ==> chunks[i] == parts[i].bytes
  {
    if parts == [] then [] else [parts[0].bytes] + Chunks(parts[1..])
  }

  /** The TLS switch, as far as the connection is concerned. */
  function Switched(cfg: Config, c: Conn): Conn {
    if cfg.tls && c.phase == TlsExchange then c.(phase := HandshakeResponse, tls := true) else c
  }

  /** What one packet makes of the connection. */
  function After(cfg: Config, c: Conn, f: Frame): Outcome<Conn>
    requires f.body != []
  {
    var t := Switched(cfg, c);
    var r :- ConsumePacket(cfg.parser, t, Typed(f, t.phase));
    Done(r.0)
  }

  /** A packet is passed on as it is before the command phase. */
  lemma PassedOn(cfg: Config, c: Conn, f: Frame)
    requires f.body != [] && c.phase != PendingResponse && ConsumePacket(cfg.parser, c, Typed(f, c.phase)).Done?
    ensures var r := ConsumePacket(cfg.parser, c, Typed(f, c.phase)).value;
      r.1 == Typed(f, c.phase) && r.0.partial == c.partial && r.0.diff == c.diff
  {
    hide ReadReply, ReadCommand, AuthInitPhase, AuthCompletePhase, CheckGreeting;
  }

  /** The read that completes a packet consumes it. */
  lemma FrameReceived(cfg: Config, c: Conn, chunk: seq<byte>, f: Frame)
    requires f.body != [] && c.phase != PendingResponse
    requires ReadFrames(Saved(c) + chunk, None) == Done(Parsed([f], []))
    requires ConsumePacket(cfg.parser, c.(partial := None), Typed(f, c.phase)).Done?
    ensures Receive(cfg.parser, c, chunk)
         == Done((ConsumePacket(cfg.parser, c.(partial := None), Typed(f, c.phase)).value.0, [Typed(f, c.phase)]))
  {
    hide ReadFrames, ConsumePacket;
    var c0, p := c.(partial := None), Typed(f, c.phase);
    PassedOn(cfg, c0, f);
    var c1 := ConsumePacket(cfg.parser, c0, p).value.0;
    assert TypeAll([f], c.phase) == [p];
    assert [p][1..] == [];
    assert ConsumeAll(cfg.parser, c1, [p][1..]) == Done((c1, []));
    assert ConsumeAll(cfg.parser, c0, [p]) == Done((c1, [p] + []));
    EmittedOne(p);
  }

  // ---- A packet from the server

  lemma IdleServerStep(cfg: Config, s: System, chunk: seq<byte>, parsed: Parsed)
    requires s.side == ServerSide && s.conn.phase !in SERVER_TRANSITION_PHASES
    requires ReadFrames(Saved(s.conn) + chunk, None) == Done(parsed) && parsed.frames == []
    ensures ServerStep(cfg, s, chunk) == Done(s.(conn := WithSaved(s.conn, parsed.rest)))
  {
    hide Receive, ReadFrames;
    IdleRead(cfg.parser, s.conn, chunk, parsed);
    assert Serialize(Untyped([])) == [];
    assert s.toClient + [] == s.toClient;
  }

  lemma ServerFrameStep(cfg: Config, s: System, chunk: seq<byte>, f: Frame)
    requires s.side == ServerSide && s.conn.phase != PendingResponse && f.body != []
    requires ReadFrames(Saved(s.conn) + chunk, None) == Done(Parsed([f], []))
    requires ConsumePacket(cfg.parser, s.conn.(partial := None), Typed(f, s.conn.phase)).Done?
    ensures var c := ConsumePacket(cfg.parser, s.conn.(partial := None), Typed(f, s.conn.phase)).value.0;
      ServerStep(cfg, s, chunk) == Done(s.(conn := c, toClient := s.toClient + FrameBytes(f),
        side := if c.phase in SERVER_TRANSITION_PHASES then ClientSide else ServerSide))
  {
    hide Receive, ReadFrames, ConsumePacket, Serialize, FrameBytes;
    FrameReceived(cfg, s.conn, chunk, f);
    OneFrameWritten(f);
    assert Untyped([Typed(f, s.conn.phase)]) == [f];
  }

  /** However a packet of the server is cut into reads, it is consumed by the last of them. */
  lemma {:induction false} ServerMessage(cfg: Config, s: System, parts: seq<ClientRead>, f: Frame,
                                         server: seq<seq<byte>>, client: seq<ClientRead>)
    requires s.side == ServerSide && s.conn.phase !in SERVER_TRANSITION_PHASES && s.conn.phase != PendingResponse
    requires Framing.WellFormed(f) && parts != [] && forall i :: 0 <= i < |parts| ==> parts[i].bytes != []
    requires Saved(s.conn) + Sent(parts) == FrameBytes(f)
    requires ConsumePacket(cfg.parser, s.conn.(partial := None), Typed(f, s.conn.phase)).Done?
    ensures var c := ConsumePacket(cfg.parser, s.conn.(partial := None), Typed(f, s.conn.phase)).value.0;
      Run(cfg, s, Chunks(parts) + server, client) == Run(cfg, s.(conn := c, toClient := s.toClient + FrameBytes(f),
        side := if c.phase in SERVER_TRANSITION_PHASES then ClientSide else ServerSide), server, client)
    decreases |parts|
  {
    hide Run, ServerStep, ConsumePacket, ReadFrames, NextFrame, FrameBytes, Typed, SERVER_TRANSITION_PHASES;
    var head := Saved(s.conn) + parts[0].bytes;
    var all := Chunks(parts) + server;
    RunServer(cfg, s, all, client);
    assert all[0] == parts[0].bytes && all[1..] == Chunks(parts[1..]) + server;
    assert head + Sent(parts[1..]) == FrameBytes(f);
    if |parts| == 1 {
      assert head + [] == head && Chunks(parts[1..]) + server == server;
      OneFrameRead(f);
      ServerFrameStep(cfg, s, parts[0].bytes, f);
    } else {
      assert parts[1..][0] == parts[1];
      NoFrameYet(f, head, Sent(parts[1..]));
      ReadNothing(head, None);
      IdleServerStep(cfg, s, parts[0].bytes, Parsed([], head));
      ServerMessage(cfg, s.(conn := WithSaved(s.conn, head)), parts[1..], f, server, client);
    }
  }

  // ---- A packet from the client

  lemma IdleClientRead(cfg: Config, s: System, read: ClientRead, parsed: Parsed)
    requires s.side == ClientSide && s.conn.phase !in CLIENT_TRANSITION_PHASES && SwitchToTls(cfg, s) == s
    requires ReadFrames(Saved(s.conn) + read.bytes, None) == Done(parsed) && parsed.frames == []
    ensures ClientStep(cfg, s, read) == Done(s.(conn := WithSaved(s.conn, parsed.rest)))
  {
    hide Receive, ReadFrames;
    IdleRead(cfg.parser, s.conn, read.bytes, parsed);
    assert Serialize(Untyped([])) == [];
    assert s.toServer + [] == s.toServer;
  }

  lemma ClientFrameStep(cfg: Config, s: System, read: ClientRead, f: Frame)
    requires s.side == ClientSide && s.conn.phase != PendingResponse && f.body != [] && SwitchToTls(cfg, s) == s
    requires ReadFrames(Saved(s.conn) + read.bytes, None) == Done(Parsed([f], []))
    requires ConsumePacket(cfg.parser, s.conn.(partial := None), Typed(f, s.conn.phase)).Done?
    requires ConsumePacket(cfg.parser, s.conn.(partial := None),
        Typed(f, s.conn.phase)).value.0.phase != PendingResponse
    ensures var c := ConsumePacket(cfg.parser, s.conn.(partial := None), Typed(f, s.conn.phase)).value.0;
      ClientStep(cfg, s, read) == Done(s.(conn := c, toServer := s.toServer + FrameBytes(f),
        side := if c.phase in CLIENT_TRANSITION_PHASES then ServerSide else ClientSide))
  {
    hide Receive, ReadFrames, ConsumePacket, Serialize, FrameBytes;
    FrameReceived(cfg, s.conn, read.bytes, f);
    OneFrameWritten(f);
    assert Untyped([Typed(f, s.conn.phase)]) == [f];
  }

  /** However a packet of the client is cut into reads, it is consumed by the last of them. */
  lemma {:induction false} ClientMessage(cfg: Config, s: System, parts: seq<ClientRead>, f: Frame,
                                         server: seq<seq<byte>>, client: seq<ClientRead>)
    requires s.side == ClientSide && s.conn.phase !in CLIENT_TRANSITION_PHASES && SwitchToTls(cfg, s) == s
    requires Framing.WellFormed(f) && parts != [] && forall i :: 0 <= i < |parts| ==> parts[i].bytes != []
    requires Saved(s.conn) + Sent(parts) == FrameBytes(f)
    requires ConsumePacket(cfg.parser, s.conn.(partial := None), Typed(f, s.conn.phase)).Done?
    requires ConsumePacket(cfg.parser, s.conn.(partial := None),
        Typed(f, s.conn.phase)).value.0.phase != PendingResponse
    ensures var c := ConsumePacket(cfg.parser, s.conn.(partial := None), Typed(f, s.conn.phase)).value.0;
      Run(cfg, s, server, parts + client) == Run(cfg, s.(conn := c, toServer := s.toServer + FrameBytes(f),
        side := if c.phase in CLIENT_TRANSITION_PHASES then ServerSide else ClientSide), server, client)
    decreases |parts|
  {
    hide Run, ClientStep, ConsumePacket, ReadFrames, NextFrame, FrameBytes, Typed;
    var head := Saved(s.conn) + parts[0].bytes;
    RunClient(cfg, s, server, parts + client);
    assert (parts + client)[0] == parts[0] && (parts + client)[1..] == parts[1..] + client;
    assert head + Sent(parts[1..]) == FrameBytes(f);
    if |parts| == 1 {
      assert head + [] == head && parts[1..] + client == client;
      OneFrameRead(f);
      ClientFrameStep(cfg, s, parts[0], f);
    } else {
      assert parts[1..][0] == parts[1];
      NoFrameYet(f, head, Sent(parts[1..]));
      ReadNothing(head, None);
      IdleClientRead(cfg, s, parts[0], Parsed([], head));
      ClientMessage(cfg, s.(conn := WithSaved(s.conn, head)), parts[1..], f, server, client);
    }
  }

  /** The TLS switch may as well come before the read. */
  lemma SwitchFirst(cfg: Config, s: System, server: seq<seq<byte>>, client: seq<ClientRead>)
    requires s.side == ClientSide && client != [] && client[0].bytes != []
    ensures Run(cfg, s, server, client) == Run(cfg, SwitchToTls(cfg, s), server, client)
  {
    hide Run, Relay;
    RunClient(cfg, s, server, client);
    RunClient(cfg, SwitchToTls(cfg, s), server, client);
    assert SwitchToTls(cfg, SwitchToTls(cfg, s)) == SwitchToTls(cfg, s);
  }

  // ---- Logging in

  /** The packets come one by one before the command phase, each consumed without a panic. */
  predicate LogsIn(cfg: Config, c: Conn, ms: seq<Message>)
    decreases |ms|
  {
    ms != [] ==>
      && !InCommand(c.phase) && Whole(ms[0])
      && After(cfg, c, ms[0].frame).Done? && LogsIn(cfg, After(cfg, c, ms[0].frame).value, ms[1..])
  }

  /** Where the packets leave the connection. */
  function LoggedIn(cfg: Config, c: Conn, ms: seq<Message>): Conn
    requires LogsIn(cfg, c, ms)
    decreases |ms|
  {
    if ms == [] then c else LoggedIn(cfg, After(cfg, c, ms[0].frame).value, ms[1..])
  }

  /** The reads from the server, the reads from the client, and the bytes of either's packets: a
      packet comes from the side whose turn the phase makes it. */
  function LoginServerReads(cfg: Config, c: Conn, ms: seq<Message>): seq<seq<byte>>
    requires LogsIn(cfg, c, ms)
    decreases |ms|
  {
    if ms == [] then [] else
    (if ServersTurn(c.phase) then Chunks(ms[0].parts) else [])
    + LoginServerReads(cfg, After(cfg, c, ms[0].frame).value, ms[1..])
  }

  function LoginClientReads(cfg: Config, c: Conn, ms: seq<Message>): seq<ClientRead>
    requires LogsIn(cfg, c, ms)
    decreases |ms|
  {
    if ms == [] then [] else
    (if ServersTurn(c.phase) then [] else ms[0].parts)
    + LoginClientReads(cfg, After(cfg, c, ms[0].frame).value, ms[1..])
  }

  function LoginBytes(cfg: Config, c: Conn, ms: seq<Message>, fromServer: bool): seq<byte>
    requires LogsIn(cfg, c, ms)
    decreases |ms|
  {
    if ms == [] then [] else
    (if ServersTurn(c.phase) == fromServer then FrameBytes(ms[0].frame) else [])
    + LoginBytes(cfg, After(cfg, c, ms[0].frame).value, ms[1..], fromServer)
  }

  lemma AfterKeeps(cfg: Config, c: Conn, f: Frame)
    requires f.body != [] && !InCommand(c.phase) && After(cfg, c, f).Done? && Inv(c)
    ensures var c' := After(cfg, c, f).value;
      && Inv(c') && c'.partial == c.partial && c'.diff == c.diff
      && (ServersTurn(c.phase) ==> (c'.phase in SERVER_TRANSITION_PHASES <==> !ServersTurn(c'.phase)))
      && (!ServersTurn(c.phase) ==> (c'.phase in CLIENT_TRANSITION_PHASES <==> ServersTurn(c'.phase)))
  {
    hide ConsumePacket, SERVER_TRANSITION_PHASES, CLIENT_TRANSITION_PHASES;
    var t := Switched(cfg, c);
    PassedOn(cfg, t, f);
    ConsumeKeepsInv(cfg.parser, t, Typed(f, t.phase));
    HandOver(cfg.parser, t, Typed(f, t.phase));
  }

  lemma NotPending(cfg: Config, c: Conn, f: Frame)
    requires f.body != [] && !InCommand(c.phase) && !ServersTurn(c.phase)
    ensures var t := Switched(cfg, c);
      ConsumePacket(cfg.parser, t, Typed(f, t.phase)).Done? ==>
        ConsumePacket(cfg.parser, t, Typed(f, t.phase)).value.0.phase != PendingResponse
  {
    hide ReadReply, CheckGreeting;
    var t := Switched(cfg, c);
    if t.phase == HandshakeResponse && ReadReply(f.body, !t.tls).Done? {
      ReplyChoice(f.body, !t.tls);
    }
  }

  /** One packet of the login, whatever comes after it. */
  lemma OneMessage(cfg: Config, s: System, m: Message, server: seq<seq<byte>>, client: seq<ClientRead>)
      returns (end: System)
    requires RightSide(s) && !InCommand(s.conn.phase) && s.conn.partial == None && Inv(s.conn)
    requires Whole(m) && After(cfg, s.conn, m.frame).Done?
    ensures var turn := ServersTurn(s.conn.phase);
      && Run(cfg, s, (if turn then Chunks(m.parts) else []) + server, (if turn then [] else m.parts) + client)
         == Run(cfg, end, server, client)
      && end.toClient == s.toClient + (if turn then FrameBytes(m.frame) else [])
      && end.toServer == s.toServer + (if turn then [] else FrameBytes(m.frame))
    ensures RightSide(end) && end.conn == After(cfg, s.conn, m.frame).value
  {
    hide Run, ConsumePacket, Inv, FrameBytes;
    AfterKeeps(cfg, s.conn, m.frame);
    SomethingSent(m.parts, m.frame);
    var c := After(cfg, s.conn, m.frame).value;
    assert [] + client == client && [] + server == server;
    assert s.toClient + [] == s.toClient && s.toServer + [] == s.toServer;
    assert Saved(s.conn) + Sent(m.parts) == Sent(m.parts);
    if s.side == ServerSide {
      assert Switched(cfg, s.conn) == s.conn && s.conn.(partial := None) == s.conn;
      ServerMessage(cfg, s, m.parts, m.frame, server, client);
      end := s.(conn := c, toClient := s.toClient + FrameBytes(m.frame),
                side := if c.phase in SERVER_TRANSITION_PHASES then ClientSide else ServerSide);
    } else {
      var t := SwitchToTls(cfg, s);
      assert t.conn == Switched(cfg, s.conn) && t.conn.(partial := None) == t.conn;
      assert (m.parts + client)[0] == m.parts[0];
      SwitchFirst(cfg, s, server, m.parts + client);
      NotPending(cfg, s.conn, m.frame);
      ClientMessage(cfg, t, m.parts, m.frame, server, client);
      end := t.(conn := c, toServer := s.toServer + FrameBytes(m.frame),
                side := if c.phase in CLIENT_TRANSITION_PHASES then ServerSide else ClientSide);
    }
  }

  /** All packets of the login, whatever comes after them: each is passed on to the other side. */
  lemma {:induction false} AllMessages(cfg: Config, s: System, ms: seq<Message>, server: seq<seq<byte>>,
      client: seq<ClientRead>)
    returns (end: System)
    requires RightSide(s) && s.conn.partial == None && Inv(s.conn) && LogsIn(cfg, s.conn, ms)
    ensures Run(cfg, s, LoginServerReads(cfg, s.conn, ms) + server, LoginClientReads(cfg, s.conn, ms) + client)
         == Run(cfg, end, server, client)
    ensures end.toClient == s.toClient + LoginBytes(cfg, s.conn, ms, true)
    ensures end.toServer == s.toServer + LoginBytes(cfg, s.conn, ms, false)
    ensures RightSide(end) && end.conn == LoggedIn(cfg, s.conn, ms)
    ensures Inv(end.conn) && end.conn.partial == None && end.conn.diff == s.conn.diff
    decreases |ms|
  {
    hide Run, After, Inv, RightSide, ServersTurn, InCommand, Whole, FrameBytes;
    if ms == [] {
      end := s;
      assert [] + server == server && [] + client == client;
      assert s.toClient + [] == s.toClient && s.toServer + [] == s.toServer;
    } else {
      FrameIsNotEmpty(ms[0]);
      AfterKeeps(cfg, s.conn, ms[0].frame);
      var c, turn := After(cfg, s.conn, ms[0].frame).value, ServersTurn(s.conn.phase);
      var chunks, parts := if turn then Chunks(ms[0].parts) else [], if turn then [] else ms[0].parts;
      var server', client' := LoginServerReads(cfg, c, ms[1..]), LoginClientReads(cfg, c, ms[1..]);
      var next := OneMessage(cfg, s, ms[0], server' + server, client' + client);
      end := AllMessages(cfg, next, ms[1..], server, client);
      assert (chunks + server') + server == chunks + (server' + server);
      assert (parts + client') + client == parts + (client' + client);
      Joined(s.toClient, if turn then FrameBytes(ms[0].frame) else [], LoginBytes(cfg, c, ms[1..], true));
      Joined(s.toServer, if turn then [] else FrameBytes(ms[0].frame), LoginBytes(cfg, c, ms[1..], false));
    }
  }

  lemma FrameIsNotEmpty(m: Message)
    requires Whole(m)
    ensures m.frame.body != []
  {
  }

  lemma Joined(a: seq<byte>, b: seq<byte>, c: seq<byte>)
    ensures (a + b) + c == a + (b + c)
  {
  }

  /** From a new connection: any dialogue of packets the proxy consumes up to the command phase, by
      whatever authentication, and any session after it, each packet cut into reads in any way, are
      exchanged: login packets pass unchanged to the other side, and the session goes as sessions do. */
  lemma LoginThenSession(cfg: Config, diff: DiffMap, ms: seq<Message>, flag: nat, xs: seq<Cycle>)
    requires LogsIn(cfg, NewConn(diff), ms)
    requires var c := LoggedIn(cfg, NewConn(diff), ms); c.phase == Phase.Command && c.clientFlag == Some(flag)
    requires AllProper(cfg, flag, diff, xs)
    ensures var c := NewConn(diff);
      var r := Run(cfg, Start(c), LoginServerReads(cfg, c, ms) + AllServerReads(xs),
          LoginClientReads(cfg, c, ms) + AllClientReads(xs));
      && r.Done? && Ready(r.value, flag, LogAfterAll(cfg, diff, xs))
      && r.value.toClient == LoginBytes(cfg, c, ms, true) + AllToClient(cfg, flag, diff, xs)
      && r.value.toServer == LoginBytes(cfg, c, ms, false) + AllToServer(flag, xs)
  {
    hide Run, AllProper, AllToClient, AllToServer, AllServerReads, AllClientReads, LogAfterAll, LogsIn, LoggedIn,
      LoginServerReads, LoginClientReads, LoginBytes;
    InvAtStart(diff);
    var s := Start(NewConn(diff));
    var end := AllMessages(cfg, s, ms, AllServerReads(xs), AllClientReads(xs));
    assert Ready(end, flag, diff);
    Session(cfg, flag, end, diff, xs);
    assert [] + LoginBytes(cfg, s.conn, ms, true) == LoginBytes(cfg, s.conn, ms, true);
    assert [] + LoginBytes(cfg, s.conn, ms, false) == LoginBytes(cfg, s.conn, ms, false);
  }

  // ---- Two dialogues of the protocol

  /** The body of a handshake response in the protocol's layout. */
  function ResponseBody(flag: nat, sizeAndSet: seq<byte>, r: Credentials): seq<byte>
    requires |sizeAndSet| == 5 && Sendable(r, flag)
  {
    var attributes := if HasBit(flag, CONNECT_ATTRS) then EncodeText(EncodePairs(r.pairs)) else [];
    EncodeFixedPart(flag, sizeAndSet) + (EncodeCredentials(r, flag) + attributes)
  }

  /** A client the server knows: its response is answered by an OK packet. */
  predicate Accepted(response: Message, ok: Message, flag: nat, sizeAndSet: seq<byte>, r: Credentials, data: OkData) {
    && |sizeAndSet| == 5 && flag < 0x1_0000_0000 && HasBit(flag, PROTOCOL_41) && !HasBit(flag, ZSTD)
       && Sendable(r, flag)
    && Whole(response) && response.frame.body == ResponseBody(flag, sizeAndSet, r)
    && Whole(ok) && Representable(data) && data.header == 0
    && OkToPacket(data, ok.frame.header.seqNo, flag).Done?
    && ok.frame.body == OkToPacket(data, ok.frame.header.seqNo, flag).value.body
  }

  lemma OkOpens(cfg: Config, c: Conn, ok: Frame, data: OkData, flag: nat)
    requires c.phase == AuthInit && Representable(data) && data.header == 0 && HasBit(flag, PROTOCOL_41)
    requires OkToPacket(data, ok.header.seqNo, flag).Done?
    requires ok.body == OkToPacket(data, ok.header.seqNo, flag).value.body
    ensures ok.body != [] && After(cfg, c, ok) == Done(c.(phase := Phase.Command))
  {
    hide OkFromBody, EncodeLenEnc, LittleEndian;
    OkRoundTrip(data, ok.header.seqNo, flag, AuthInit);
  }

  lemma MessageFirst(cfg: Config, c: Conn, m: Message, ms: seq<Message>)
    requires !InCommand(c.phase) && Whole(m) && After(cfg, c, m.frame).Done?
        && LogsIn(cfg, After(cfg, c, m.frame).value, ms)
    ensures LogsIn(cfg, c, [m] + ms) && LoggedIn(cfg, c, [m] + ms) == LoggedIn(cfg, After(cfg, c, m.frame).value, ms)
  {
    hide After, Whole;
    assert ([m] + ms)[1..] == ms;
  }

  lemma MessageLast(cfg: Config, c: Conn, m: Message)
    requires !InCommand(c.phase) && Whole(m) && After(cfg, c, m.frame).Done?
    ensures LogsIn(cfg, c, [m]) && LoggedIn(cfg, c, [m]) == After(cfg, c, m.frame).value
  {
    hide After, Whole;
    var none: seq<Message> := [];
    assert [m] == [m] + none;
    MessageFirst(cfg, c, m, none);
  }

  /** The end of every dialogue without further authentication packets. */
  lemma ResponseAndOk(cfg: Config, c: Conn, response: Message, ok: Message, flag: nat, sizeAndSet: seq<byte>,
      r: Credentials, data: OkData)
    requires Accepted(response, ok, flag, sizeAndSet, r, data)
    requires var t := Switched(cfg, c); t.phase == HandshakeResponse && (!t.tls ==> !HasBit(flag, SSL))
    ensures LogsIn(cfg, c, [response, ok])
    ensures var end := LoggedIn(cfg, c, [response, ok]); end.phase == Phase.Command && end.clientFlag == Some(flag)
  {
    hide Sendable, ReadReply, ResponseBody, OkToPacket, Whole, Representable, LogsIn, LoggedIn;
    var t := Switched(cfg, c);
    ResponseIsRead(flag, sizeAndSet, r, !t.tls);
    FrameIsNotEmpty(response);
    FrameIsNotEmpty(ok);
    var next := After(cfg, c, response.frame).value;
    assert next == t.(phase := AuthInit, clientFlag := Some(flag));
    OkOpens(cfg, next, ok.frame, data, flag);
    MessageLast(cfg, next, ok);
    MessageFirst(cfg, c, response, [ok]);
    assert [response, ok] == [response] + [ok];
  }

  lemma ResponseIsRead(flag: nat, sizeAndSet: seq<byte>, r: Credentials, plain: bool)
    requires |sizeAndSet| == 5 && flag < 0x1_0000_0000 && HasBit(flag, PROTOCOL_41) && !HasBit(flag, ZSTD)
    requires Sendable(r, flag) && !(plain && HasBit(flag, SSL))
    ensures var reply := ReadReply(ResponseBody(flag, sizeAndSet, r), plain);
      reply.Done? && reply.value.phase == AuthInit && reply.value.clientFlag == flag
  {
    hide ReadReply, EncodeCredentials, EncodeFixedPart, EncodePairs, EncodeText, MapOf, Covered, Sendable;
    HandshakeResponseRoundTrip(flag, sizeAndSet, r, plain);
  }

  /** Greeting, handshake response, OK. */
  lemma PlainLogin(cfg: Config, diff: DiffMap, greeting: Message, response: Message, ok: Message,
                   g: Greeting, flag: nat, sizeAndSet: seq<byte>, r: Credentials, data: OkData)
    requires Whole(greeting) && greeting.frame.body == EncodeGreeting(g) && Fits(g) && LengthsAgree(g)
    requires Accepted(response, ok, flag, sizeAndSet, r, data) && !HasBit(flag, SSL)
    ensures LogsIn(cfg, NewConn(diff), [greeting, response, ok])
    ensures var c := LoggedIn(cfg, NewConn(diff), [greeting, response, ok]);
      c.phase == Phase.Command && c.clientFlag == Some(flag)
  {
    hide EncodeGreeting, CheckGreeting, Fits, LengthsAgree, Accepted, Whole, LogsIn, LoggedIn, After;
    GreetingOpens(cfg, diff, greeting, g);
    ResponseAndOk(cfg, NewConn(diff).(phase := HandshakeResponse), response, ok, flag, sizeAndSet, r, data);
    MessageFirst(cfg, NewConn(diff), greeting, [response, ok]);
    assert [greeting, response, ok] == [greeting] + [response, ok];
  }

  lemma GreetingOpens(cfg: Config, diff: DiffMap, greeting: Message, g: Greeting)
    requires Whole(greeting) && greeting.frame.body == EncodeGreeting(g) && Fits(g) && LengthsAgree(g)
    ensures greeting.frame.body != []
    ensures After(cfg, NewConn(diff), greeting.frame) == Done(NewConn(diff).(phase := HandshakeResponse))
  {
    hide EncodeGreeting, CheckGreeting, Fits;
    GreetingIsAccepted(g);
  }

  // ---- Further packets of authentication

  /** How the server goes on after the handshake response: with its verdict; with word that the password
      is cached (AuthMoreData 3) or is to be sent (AuthMoreData 4); or with an auth switch request. */
  datatype Proof =
    | Known
    | Cached
    | FullAuthentication(data: Message)
    | Switch(plugin: Text, challenge: Text, data: Message)

  /** The packet the server sends before its verdict. */
  function Question(proof: Proof): seq<byte> {
    match proof
    case Known => []
    case Cached => [0x01, 0x03]
    case FullAuthentication(_) => [0x01, 0x04]
    case Switch(plugin, challenge, _) => [0xFE] + (plugin + [0] + challenge)
  }

  predicate Asked(proof: Proof, question: Message) {
    && Whole(question) && question.frame.body == Question(proof)
    && match proof
       case Known => false
       case Cached => true
       case FullAuthentication(data) => Whole(data)
       case Switch(plugin, challenge, data) => NulFree(plugin) && Utf8(challenge) && Whole(data)
  }

  /** The packets from the server's question up to its verdict. */
  function Dialogue(proof: Proof, question: Message, verdict: Message): seq<Message> {
    match proof
    case Known => [verdict]
    case Cached => [question] + [verdict]
    case FullAuthentication(data) => [question] + ([data] + [verdict])
    case Switch(_, _, data) => [question] + ([data] + [verdict])
  }

  /** The client's part of it. */
  function Password(proof: Proof): seq<byte> {
    match proof
    case Known => []
    case Cached => []
    case FullAuthentication(data) => FrameBytes(data.frame)
    case Switch(_, _, data) => FrameBytes(data.frame)
  }

  /** Whose turn a question leaves it: the server's for a cached password, the client's otherwise. */
  lemma QuestionOpens(cfg: Config, c: Conn, proof: Proof, question: Message)
    requires c.phase == AuthInit && Asked(proof, question)
    ensures question.frame.body != []
    ensures After(cfg, c, question.frame)
        == Done(c.(phase := if proof.Cached? then AuthComplete else AuthSwitchResponse))
  {
    hide Utf8, DecodeNul, FrameBytes;
    if proof.Switch? {
      NulRoundTrip(proof.plugin, proof.challenge);
      var body := question.frame.body;
      assert body[1..] == proof.plugin + [0] + proof.challenge;
      assert body[1..][|proof.plugin| + 1..] == proof.challenge;
    }
  }

  lemma PasswordOpens(cfg: Config, c: Conn, data: Message)
    requires c.phase == AuthSwitchResponse && Whole(data)
    ensures data.frame.body != []
    ensures After(cfg, c, data.frame) == Done(c.(phase := AuthComplete))
  {
  }

  /** The server's verdict: OK or ERR, as the packet is classified. */
  lemma VerdictCloses(cfg: Config, c: Conn, verdict: Message)
    requires c.phase in {AuthInit, AuthComplete} && Whole(verdict)
    requires var t := Classify(verdict.frame.body, c.phase);
        t == OkPacket || (t == ErrorPacket && c.phase == AuthComplete)
    ensures After(cfg, c, verdict.frame)
         == Done(c.(phase := if Classify(verdict.frame.body, c.phase) == OkPacket then Phase.Command else AuthFailed))
  {
  }

  lemma BytesFirst(cfg: Config, c: Conn, m: Message, ms: seq<Message>, fromServer: bool)
    requires LogsIn(cfg, c, [m] + ms) && Whole(m) && After(cfg, c, m.frame).Done?
    ensures LogsIn(cfg, After(cfg, c, m.frame).value, ms)
    ensures LoginBytes(cfg, c, [m] + ms, fromServer)
         == (if ServersTurn(c.phase) == fromServer then FrameBytes(m.frame) else [])
            + LoginBytes(cfg, After(cfg, c, m.frame).value, ms, fromServer)
  {
    hide After, Whole, FrameBytes;
    assert ([m] + ms)[1..] == ms;
  }

  /** Authentication after the handshake response, however the server goes about it: it ends in the
      command phase on its OK and in a final failure on its ERR, having passed the server's packets to
      the client and the client's to the server. An ERR at once, without a question, leaves it waiting. */
  lemma Authentication(cfg: Config, c: Conn, proof: Proof, question: Message, verdict: Message)
    requires c.phase == AuthInit && (proof.Known? || Asked(proof, question)) && Whole(verdict)
    requires var body := verdict.frame.body; (|body| >= 7 && body[0] == 0x00) || (body[0] == 0xFF && !proof.Known?)
    ensures var ms := Dialogue(proof, question, verdict);
      && LogsIn(cfg, c, ms)
      && LoggedIn(cfg, c, ms) == c.(phase := if verdict.frame.body[0] == 0x00 then Phase.Command else AuthFailed)
      && LoginBytes(cfg, c, ms, true)
         == (if proof.Known? then [] else FrameBytes(question.frame)) + FrameBytes(verdict.frame)
      && LoginBytes(cfg, c, ms, false) == Password(proof)
  {
    hide After, LogsIn, LoggedIn, LoginBytes, FrameBytes, Whole, Question, Asked;
    FrameIsNotEmpty(verdict);
    if proof.Known? {
      OneVerdict(cfg, c, verdict);
    } else {
      QuestionOpens(cfg, c, proof, question);
      AskedIsWhole(proof, question);
      var next := After(cfg, c, question.frame).value;
      if proof.Cached? {
        OneVerdict(cfg, next, verdict);
        Ahead(cfg, c, question, [verdict]);
      } else {
        var done := next.(phase := AuthComplete);
        PasswordOpens(cfg, next, proof.data);
        OneVerdict(cfg, done, verdict);
        Ahead(cfg, next, proof.data, [verdict]);
        Ahead(cfg, c, question, [proof.data] + [verdict]);
      }
    }
  }

  lemma AskedIsWhole(proof: Proof, question: Message)
    requires Asked(proof, question)
    ensures Whole(question)
    ensures proof.FullAuthentication? || proof.Switch? ==> Whole(proof.data)
  {
    hide Whole, Question;
  }

  lemma OneVerdict(cfg: Config, c: Conn, verdict: Message)
    requires c.phase in {AuthInit, AuthComplete} && Whole(verdict) && verdict.frame.body != []
    requires var body := verdict.frame.body;
        (|body| >= 7 && body[0] == 0x00) || (body[0] == 0xFF && c.phase == AuthComplete)
    ensures LogsIn(cfg, c, [verdict])
    ensures LoggedIn(cfg, c, [verdict])
        == c.(phase := if verdict.frame.body[0] == 0x00 then Phase.Command else AuthFailed)
    ensures LoginBytes(cfg, c, [verdict], true) == FrameBytes(verdict.frame)
        && LoginBytes(cfg, c, [verdict], false) == []
  {
    hide After, FrameBytes, Whole;
    VerdictCloses(cfg, c, verdict);
    MessageLast(cfg, c, verdict);
    var none: seq<Message> := [];
    assert [verdict] == [verdict] + none;
    BytesFirst(cfg, c, verdict, none, true);
    BytesFirst(cfg, c, verdict, none, false);
    assert FrameBytes(verdict.frame) + [] == FrameBytes(verdict.frame);
  }

  /** One packet ahead of a dialogue. */
  lemma Ahead(cfg: Config, c: Conn, m: Message, ms: seq<Message>)
    requires !InCommand(c.phase) && Whole(m) && m.frame.body != [] && After(cfg, c, m.frame).Done?
    requires LogsIn(cfg, After(cfg, c, m.frame).value, ms)
    ensures LogsIn(cfg, c, [m] + ms) && LoggedIn(cfg, c, [m] + ms) == LoggedIn(cfg, After(cfg, c, m.frame).value, ms)
    ensures var next := After(cfg, c, m.frame).value; var turn := ServersTurn(c.phase);
      && LoginBytes(cfg, c, [m] + ms, true)
         == (if turn then FrameBytes(m.frame) else []) + LoginBytes(cfg, next, ms, true)
      && LoginBytes(cfg, c, [m] + ms, false)
         == (if turn then [] else FrameBytes(m.frame)) + LoginBytes(cfg, next, ms, false)
  {
    hide After, FrameBytes, Whole, LogsIn, LoggedIn, LoginBytes;
    MessageFirst(cfg, c, m, ms);
    BytesFirst(cfg, c, m, ms, true);
    BytesFirst(cfg, c, m, ms, false);
  }

  /** A whole login in the protocol's layout, without TLS: greeting, handshake response, and the
      authentication the server asks for. Its packets reach the other side each, and it ends in the
      command phase or in a final failure as the server says. */
  lemma LoginDialogue(cfg: Config, diff: DiffMap, greeting: Message, response: Message, g: Greeting, flag: nat,
                      sizeAndSet: seq<byte>, r: Credentials, proof: Proof, question: Message, verdict: Message)
    requires Whole(greeting) && greeting.frame.body == EncodeGreeting(g) && Fits(g) && LengthsAgree(g)
    requires |sizeAndSet| == 5 && flag < 0x1_0000_0000 && HasBit(flag, PROTOCOL_41) && !HasBit(flag, ZSTD)
        && Sendable(r, flag)
    requires !HasBit(flag, SSL) && Whole(response) && response.frame.body == ResponseBody(flag, sizeAndSet, r)
    requires (proof.Known? || Asked(proof, question)) && Whole(verdict)
    requires var body := verdict.frame.body; (|body| >= 7 && body[0] == 0x00) || (body[0] == 0xFF && !proof.Known?)
    ensures var c, ms := NewConn(diff), [greeting] + ([response] + Dialogue(proof, question, verdict));
      && LogsIn(cfg, c, ms)
      && LoggedIn(cfg, c, ms).phase == (if verdict.frame.body[0] == 0x00 then Phase.Command else AuthFailed)
      && LoggedIn(cfg, c, ms).clientFlag == Some(flag)
      && LoginBytes(cfg, c, ms, true)
         == FrameBytes(greeting.frame) + ((if proof.Known? then []
             else FrameBytes(question.frame)) + FrameBytes(verdict.frame))
      && LoginBytes(cfg, c, ms, false) == FrameBytes(response.frame) + Password(proof)
  {
    hide After, LogsIn, LoggedIn, LoginBytes, FrameBytes, Whole, Question, Asked, Sendable, ResponseBody, ReadReply,
      EncodeGreeting, Fits, LengthsAgree, Dialogue, Password;
    GreetingOpens(cfg, diff, greeting, g);
    var c := NewConn(diff).(phase := HandshakeResponse);
    ResponseOpens(cfg, c, response, flag, sizeAndSet, r);
    var d := c.(phase := AuthInit, clientFlag := Some(flag));
    Authentication(cfg, d, proof, question, verdict);
    var rest := Dialogue(proof, question, verdict);
    Ahead(cfg, c, response, rest);
    Ahead(cfg, NewConn(diff), greeting, [response] + rest);
    NothingBefore(LoginBytes(cfg, d, rest, true), LoginBytes(cfg, c, [response] + rest, false));
  }

  lemma NothingBefore(a: seq<byte>, b: seq<byte>)
    ensures [] + a == a && [] + b == b
  {
  }

  lemma ResponseOpens(cfg: Config, c: Conn, response: Message, flag: nat, sizeAndSet: seq<byte>, r: Credentials)
    requires c.phase == HandshakeResponse && Whole(response)
    requires |sizeAndSet| == 5 && flag < 0x1_0000_0000 && HasBit(flag, PROTOCOL_41) && !HasBit(flag, ZSTD)
        && Sendable(r, flag)
    requires response.frame.body == ResponseBody(flag, sizeAndSet, r) && (!c.tls ==> !HasBit(flag, SSL))
    ensures response.frame.body != []
    ensures After(cfg, c, response.frame) == Done(c.(phase := AuthInit, clientFlag := Some(flag)))
  {
    hide Sendable, ReadReply, ResponseBody;
    ResponseIsRead(flag, sizeAndSet, r, !c.tls);
  }

  /** Greeting, SSL request, and after the switch handshake response and OK, encrypted. */
  lemma TlsLogin(cfg: Config, diff: DiffMap, greeting: Message, request: Message, response: Message, ok: Message,
                 g: Greeting, asked: nat, flag: nat, sizeAndSet: seq<byte>, r: Credentials, data: OkData)
    requires cfg.tls && Whole(greeting) && greeting.frame.body == EncodeGreeting(g) && Fits(g) && LengthsAgree(g)
    requires asked < 0x1_0000_0000 && HasBit(asked, PROTOCOL_41) && HasBit(asked, SSL)
    requires |sizeAndSet| == 5 && Whole(request) && request.frame.body == EncodeFixedPart(asked, sizeAndSet)
    requires Accepted(response, ok, flag, sizeAndSet, r, data)
    ensures LogsIn(cfg, NewConn(diff), [greeting, request, response, ok])
    ensures var c := LoggedIn(cfg, NewConn(diff), [greeting, request, response, ok]);
      c.phase == Phase.Command && c.clientFlag == Some(flag) && c.tls
  {
    hide EncodeGreeting, CheckGreeting, Fits, LengthsAgree, Accepted, Whole, LogsIn, LoggedIn, After;
    GreetingOpens(cfg, diff, greeting, g);
    RequestOpens(cfg, NewConn(diff).(phase := HandshakeResponse), request, asked, sizeAndSet);
    var c := NewConn(diff).(phase := TlsExchange, clientFlag := Some(asked));
    ResponseAndOk(cfg, c, response, ok, flag, sizeAndSet, r, data);
    StaysEncrypted(cfg, c, [response, ok]);
    MessageFirst(cfg, NewConn(diff).(phase := HandshakeResponse), request, [response, ok]);
    MessageFirst(cfg, NewConn(diff), greeting, [request] + [response, ok]);
    assert [greeting, request, response, ok] == [greeting] + ([request] + [response, ok]);
  }

  lemma RequestOpens(cfg: Config, c: Conn, request: Message, asked: nat, sizeAndSet: seq<byte>)
    requires c.phase == HandshakeResponse && !c.tls
    requires asked < 0x1_0000_0000 && HasBit(asked, PROTOCOL_41) && HasBit(asked, SSL)
    requires |sizeAndSet| == 5 && Whole(request) && request.frame.body == EncodeFixedPart(asked, sizeAndSet)
    ensures request.frame.body != []
    ensures After(cfg, c, request.frame) == Done(c.(phase := TlsExchange, clientFlag := Some(asked)))
  {
    hide EncodeFixedPart, ReadFixedPart, CredentialsLength, AttributesOf;
    FixedPartRoundTrip(asked, sizeAndSet, []);
    assert EncodeFixedPart(asked, sizeAndSet) + [] == EncodeFixedPart(asked, sizeAndSet);
  }

  /** Once the switch has been due, the connection stays encrypted. */
  lemma {:induction false} StaysEncrypted(cfg: Config, c: Conn, ms: seq<Message>)
    requires LogsIn(cfg, c, ms) && ms != [] && Switched(cfg, c).tls
    ensures LoggedIn(cfg, c, ms).tls
    decreases |ms|
  {
    hide ReadReply, ReadCommand, AuthInitPhase, AuthCompletePhase, CheckGreeting, Whole, Respond;
    FrameIsNotEmpty(ms[0]);
    if |ms| > 1 {
      StaysEncrypted(cfg, After(cfg, c, ms[0].frame).value, ms[1..]);
    }
  }

  /** What else the server may send after the handshake response: an ERR and every packet that begins
      neither with 0x00, 0x01 nor 0xFE leaves the proxy waiting as it was; an OK too short to be
      classified, and AuthMoreData other than 3 and 4, panic. */
  lemma OtherAnswers(cfg: Config, c: Conn, m: Message)
    requires c.phase == AuthInit && Whole(m)
    ensures m.frame.body != []
    ensures var body := m.frame.body;
      && (body[0] !in {0x00, 0x01, 0xFE} ==> After(cfg, c, m.frame) == Done(c))
      && (body[0] == 0x00 && |body| < 7 ==> After(cfg, c, m.frame) == Panic(Unsupported))
      && (body[0] == 0x01 && (|body| == 1 || body[1] !in {0x03, 0x04}) ==> After(cfg, c, m.frame) == Panic(Unsupported))
  {
    hide FrameBytes, DecodeNul;
  }

  /** An auth switch request is taken if and only if plugin name and challenge are UTF-8. */
  lemma SwitchExactness(cfg: Config, c: Conn, m: Message, plugin: seq<byte>, challenge: seq<byte>)
    requires c.phase == AuthInit && Whole(m) && 0 !in plugin && m.frame.body == [0xFE] + (plugin + [0] + challenge)
    ensures After(cfg, c, m.frame)
         == if Utf8(plugin) && Utf8(challenge) then Done(c.(phase := AuthSwitchResponse)) else Panic(Malformed)
  {
    hide Utf8, DecodeNul, FrameBytes;
    NulRoundTrip(plugin, challenge);
    assert m.frame.body[1..] == plugin + [0] + challenge;
    assert m.frame.body[1..][|plugin| + 1..] == challenge;
  }
}
