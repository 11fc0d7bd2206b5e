/** The half-duplex exchange: two nested loops that hand the turn over by phase, and the
    interception of writes (src/connection_handler.rs:38-177, 317-440). */
module Exchanges {
  import opened Outcomes
  import opened Bytes
  import opened Packets
  import opened Framing
  import opened DiffLog
  import opened Responses
  import opened Connections

  datatype Side = ServerSide | ClientSide

  /** Build and environment switches; `parser` is the SQL parser. */
  datatype Config = Config(parser: Parser, tls: bool, intercept: bool)

  /** One read from the client, with the value the shared insert counter would have then. */
  datatype ClientRead = ClientRead(bytes: seq<byte>, counter: byte)

  /** The bytes of some reads, in order. */
  function Sent(parts: seq<ClientRead>): seq<byte> {
    if parts == [] then [] else parts[0].bytes + Sent(parts[1..])
  }

  /** A connection, whose turn it is, and everything written so far. */
  datatype System = System(conn: Conn, side: Side, toClient: seq<byte>, toServer: seq<byte>, switches: nat)

  const SERVER_TRANSITION_PHASES := {HandshakeResponse, Phase.Command, AuthSwitchResponse}
  const CLIENT_TRANSITION_PHASES := {AuthInit, PendingResponse, AuthComplete}

  function Start(c: Conn): System {
    System(c, ServerSide, [], [], 0)
  }

  function ServerStep(cfg: Config, s: System, chunk: seq<byte>): Outcome<System> {
    var got :- Receive(cfg.parser, s.conn, chunk);
    Done(s.(conn := got.0, toClient := s.toClient + Serialize(Untyped(got.1)),
            side := if got.0.phase in SERVER_TRANSITION_PHASES then ClientSide else ServerSide))
  }

  /** `switch_to_tls`, at the head of the client loop. */
  function SwitchToTls(cfg: Config, s: System): System {
    if cfg.tls && s.conn.phase == TlsExchange then
      s.(conn := s.conn.(phase := HandshakeResponse, tls := true),
         switches := if s.conn.tls then s.switches else s.switches + 1)
    else s
  }

  function LowerCase(t: Text): (r: Text)
    ensures |r| == |t|
  {
    if t == [] then [] else [if 65 <= t[0] <= 90 then t[0] + 32 else t[0]] + LowerCase(t[1..])
  }

  const INSERT: Text := [105, 110, 115, 101, 114, 116]
  const UPDATE: Text := [117, 112, 100, 97, 116, 101]
  const DELETE: Text := [100, 101, 108, 101, 116, 101]

  /** Does the text begin like a write? */
  predicate WriteText(text: Text) {
    var arg := LowerCase(text);
    INSERT <= arg || UPDATE <= arg || DELETE <= arg
  }

  predicate IsWrite(command: Responses.Command, p: Packet) {
    p.pType == CommandPacket && command.code == COM_QUERY && WriteText(command.arg)
  }

  lemma {:induction false} LowerCaseAt(t: Text, i: nat)
    requires i < |t|
    ensures LowerCase(t)[i] == if 65 <= t[i] <= 90 then t[i] + 32 else t[i]
  {
    if i > 0 {
      LowerCaseAt(t[1..], i - 1);
    }
  }

  /** The text begins with the lower-case word, each letter of it in either case. */
  predicate Begins(text: Text, word: Text) {
    |word| <= |text| && forall i :: 0 <= i < |word| ==> text[i] == word[i] || Capital(text[i], word[i])
  }

  /** ASCII capitals stand 32 places before their small letters. */
  predicate Capital(a: int, b: int) {
    a + 32 == b
  }

  lemma BeginsInLowerCase(text: Text, word: Text)
    requires forall i :: 0 <= i < |word| ==> 97 <= word[i] <= 122
    ensures Begins(text, word) <==> word <= LowerCase(text)
  {
    hide LowerCase;
    forall i | 0 <= i < |text|
      ensures LowerCase(text)[i] == if 65 <= text[i] <= 90 then text[i] + 32 else text[i]
    {
      LowerCaseAt(text, i);
    }
    if word <= LowerCase(text) {
      assert forall i :: 0 <= i < |word| ==> LowerCase(text)[..|word|][i] == word[i];
    }
    if Begins(text, word) {
      assert LowerCase(text)[..|word|] == word;
    }
  }

  /** A query is a write if and only if it begins with insert, update or delete, in whatever mix of
      cases; it is given an insert id if a space follows the first of these. */
  lemma WritesBegin(text: Text)
    ensures WriteText(text) <==> Begins(text, INSERT) || Begins(text, UPDATE) || Begins(text, DELETE)
    ensures INSERT + [32] <= LowerCase(text) <==> Begins(text, INSERT) && |text| > 6 && text[6] == 32
  {
    hide LowerCase;
    BeginsInLowerCase(text, INSERT);
    BeginsInLowerCase(text, UPDATE);
    BeginsInLowerCase(text, DELETE);
    if |text| > 6 {
      LowerCaseAt(text, 6);
      assert INSERT + [32] <= LowerCase(text) <==> INSERT <= LowerCase(text) && LowerCase(text)[6] == 32;
    }
  }

  /** The OK packet answering an intercepted write; an insert reports the counter as its id. */
  function WriteResponse(command: Responses.Command, seqNo: byte, flag: nat, counter: byte): Outcome<seq<byte>> {
    var insertId := if INSERT + [32] <= LowerCase(command.arg) then counter else 0;
    var ok :- OkToPacket(OkData(0, 1, insertId, None, None), (seqNo + 1) % 256, flag);
    Done(HeaderToBytes(ok.header) + ok.body)
  }

  /** `intercept_command`: a lone command packet is logged, and answered if it is a write. */
  function Intercept(c: Conn, packets: seq<Packet>, counter: byte): Outcome<(Conn, Option<seq<byte>>)> {
    if c.phase != PendingResponse || |packets| != 1 || c.lastCommand.None? then Done((c, None)) else
    var command := c.lastCommand.value;
    var logged := c.(diff := match command.ast case None => c.diff case Some(ss) => DiffAfter(c.diff, ss));
    if !IsWrite(command, packets[0]) then Done((logged, None)) else
    var flag :- Unwrap(c.clientFlag, NoHandshakeResponse);
    var answer :- WriteResponse(command, packets[0].header.seqNo, flag, counter);
    Done((logged.(phase := Phase.Command), Some(answer)))
  }

  /** What a client read leads to: an answer to an intercepted write, or bytes for the server. */
  datatype Relayed = Relayed(conn: Conn, answer: Option<seq<byte>>, forwarded: seq<byte>)

  function Relay(cfg: Config, c: Conn, read: ClientRead): Outcome<Relayed> {
    var got :- Receive(cfg.parser, c, read.bytes);
    var done :- if cfg.intercept then Intercept(got.0, got.1, read.counter) else Done((got.0, None));
    Done(Relayed(done.0, done.1, Serialize(Untyped(got.1))))
  }

  function ClientStep(cfg: Config, s: System, read: ClientRead): Outcome<System> {
    var s1 := SwitchToTls(cfg, s);
    var relayed :- Relay(cfg, s1.conn, read);
    if relayed.answer.Some? then Done(s1.(conn := relayed.conn, toClient := s1.toClient + relayed.answer.value))
    else Done(s1.(conn := relayed.conn, toServer := s1.toServer + relayed.forwarded,
                  side := if relayed.conn.phase in CLIENT_TRANSITION_PHASES then ServerSide else ClientSide))
  }

  /** The exchange as one machine that reads from whoever has the turn, until an empty read. */
  function Run(cfg: Config, s: System, server: seq<seq<byte>>, client: seq<ClientRead>): Outcome<System>
    decreases |server| + |client|
  {
    if s.side == ServerSide then
      if server == [] || server[0] == [] then Done(s) else
      var next :- ServerStep(cfg, s, server[0]);
      Run(cfg, next, server[1..], client)
    else
      // the TLS switch precedes the read that finds the client gone
      if client == [] || client[0].bytes == [] then Done(SwitchToTls(cfg, s)) else
      var next :- ClientStep(cfg, s, client[0]);
      Run(cfg, next, server, client[1..])
  }

  const BUFFER_SIZE := 4096

  /** A socket read: copy the next chunk of the script into the shared buffer. */
  method ReadBytes(buf: array<byte>, chunk: seq<byte>) returns (n: nat)
    requires |chunk| <= buf.Length
    modifies buf
    ensures n == |chunk| && buf[..n] == chunk
  {
    n := |chunk|;
    forall i | 0 <= i < n {
      buf[i] := chunk[i];
    }
  }

  /** `exchange`, its reads scripted. The nested loops are the flat machine. */
  method Exchange(cfg: Config, connection: Connection, server: seq<seq<byte>>, client: seq<ClientRead>)
    returns (r: Outcome<(seq<byte>, seq<byte>)>)
    requires connection.parser == cfg.parser
    requires forall i :: 0 <= i < |server| ==> |server[i]| <= BUFFER_SIZE
    requires forall i :: 0 <= i < |client| ==> |client[i].bytes| <= BUFFER_SIZE
    modifies connection, connection.diffLog
    ensures match Run(cfg, Start(old(connection.View())), server, client)
      case Panic(f) => r == Panic(f)
      case Done(end) => r == Done((end.toClient, end.toServer)) && connection.View() == end.conn
  {
    hide Receive, Relay, Run;
    var buf := new byte[BUFFER_SIZE];
    ghost var s := Start(connection.View());
    ghost var spec := Run(cfg, s, server, client);
    var toClient, toServer: seq<byte> := [], [];
    var i, j := 0, 0;
    assert server[0..] == server && client[0..] == client;
    while true
      invariant 0 <= i <= |server| && 0 <= j <= |client|
      invariant s.side == ServerSide && s.conn == connection.View() && s.toClient == toClient && s.toServer == toServer
      invariant Run(cfg, s, server[i..], client[j..]) == spec
      decreases |server| - i, |client| - j
    {
      ghost var i0 := i;
      while true
        invariant i0 <= i <= |server|
        invariant s.side == ServerSide && s.conn == connection.View() && s.toClient == toClient
            && s.toServer == toServer
        invariant Run(cfg, s, server[i..], client[j..]) == spec
        decreases |server| - i
      {
        RunServer(cfg, s, server[i..], client[j..]);
        if i == |server| || server[i] == [] {
          return Done((toClient, toServer));
        }
        assert server[i..][1..] == server[i + 1..];
        var encoded := ReadServer(connection, buf, server[i]);
        if encoded.Panic? {
          return Panic(encoded.fault);
        }
        toClient := toClient + encoded.value;
        s := ServerStep(cfg, s, server[i]).value;
        i := i + 1;
        if connection.phase in SERVER_TRANSITION_PHASES {
          break;
        }
      }
      while true
        invariant i0 < i <= |server| && 0 <= j <= |client|
        invariant s.side == ClientSide && s.conn == connection.View() && s.toClient == toClient
            && s.toServer == toServer
        invariant Run(cfg, s, server[i..], client[j..]) == spec
        decreases |client| - j
      {
        RunClient(cfg, s, server[i..], client[j..]);
        if cfg.tls && connection.phase == TlsExchange {
          connection.tls, connection.phase := true, HandshakeResponse;
        }
        if j == |client| || client[j].bytes == [] {
          return Done((toClient, toServer));
        }
        assert client[j..][1..] == client[j + 1..];
        var relayed := ReadClient(cfg, connection, buf, client[j]);
        if relayed.Panic? {
          return Panic(relayed.fault);
        }
        s := ClientStep(cfg, s, client[j]).value;
        j := j + 1;
        if relayed.value.0.Some? {
          toClient := toClient + relayed.value.0.value;
          continue;
        }
        toServer := toServer + relayed.value.1;
        if connection.phase in CLIENT_TRANSITION_PHASES {
          break;
        }
      }
    }
  }

  lemma RunServer(cfg: Config, s: System, server: seq<seq<byte>>, client: seq<ClientRead>)
    requires s.side == ServerSide
    ensures server == [] || server[0] == [] ==> Run(cfg, s, server, client) == Done(s)
    ensures server != [] && server[0] != [] ==>
      var step := ServerStep(cfg, s, server[0]);
      Run(cfg, s, server, client) == if step.Panic? then Panic(step.fault)
          else Run(cfg, step.value, server[1..], client)
  {
    hide ServerStep, ClientStep, SwitchToTls;
  }

  lemma RunClient(cfg: Config, s: System, server: seq<seq<byte>>, client: seq<ClientRead>)
    requires s.side == ClientSide
    ensures client == [] || client[0].bytes == [] ==> Run(cfg, s, server, client) == Done(SwitchToTls(cfg, s))
    ensures client != [] && client[0].bytes != [] ==>
      var step := ClientStep(cfg, s, client[0]);
      Run(cfg, s, server, client) == if step.Panic? then Panic(step.fault)
          else Run(cfg, step.value, server, client[1..])
  {
    hide ServerStep, ClientStep, SwitchToTls;
  }

  /** One round of the server loop up to the write. */
  method ReadServer(connection: Connection, buf: array<byte>, chunk: seq<byte>) returns (r: Outcome<seq<byte>>)
    requires |chunk| <= buf.Length
    modifies connection, buf
    ensures match Receive(connection.parser, old(connection.View()), chunk)
      case Panic(f) => r == Panic(f)
      case Done(got) => r == Done(Serialize(Untyped(got.1))) && connection.View() == got.0
  {
    hide Receive;
    var n := ReadBytes(buf, chunk);
    var packets := connection.ProcessIncomingFrame(buf, n);
    if packets.Panic? {
      return Panic(packets.fault);
    }
    var encoded := GenerateOutgoingFrame(packets.value);
    r := Done(encoded);
  }

  /** One round of the client loop up to the write: an answer, or bytes to forward. */
  method ReadClient(cfg: Config, connection: Connection, buf: array<byte>, read: ClientRead)
    returns (r: Outcome<(Option<seq<byte>>, seq<byte>)>)
    requires connection.parser == cfg.parser && |read.bytes| <= buf.Length
    modifies connection, connection.diffLog, buf
    ensures match Relay(cfg, old(connection.View()), read)
      case Panic(f) => r == Panic(f)
      case Done(end) => r == Done((end.answer, end.forwarded)) && connection.View() == end.conn
  {
    hide Receive, Intercept;
    var n := ReadBytes(buf, read.bytes);
    var packets := connection.ProcessIncomingFrame(buf, n);
    if packets.Panic? {
      return Panic(packets.fault);
    }
    var encoded := GenerateOutgoingFrame(packets.value);
    if cfg.intercept {
      var answer := InterceptCommand(connection, packets.value, read.counter);
      if answer.Panic? {
        return Panic(answer.fault);
      }
      return Done((answer.value, encoded));
    }
    r := Done((None, encoded));
  }

  method InterceptCommand(connection: Connection, packets: seq<Packet>, counter: byte)
      returns (r: Outcome<Option<seq<byte>>>)
    modifies connection`phase, connection.diffLog
    ensures match Intercept(old(connection.View()), packets, counter)
      case Panic(f) => r == Panic(f)
      case Done(end) => r == Done(end.1) && connection.View() == end.0
  {
    hide WriteResponse, IsWrite, DiffAfter;
    if connection.phase != PendingResponse || |packets| != 1 || connection.lastCommand.None? {
      return Done(None);
    }
    var command := connection.lastCommand.value;
    connection.diffLog.GetDiff(command.ast);
    if !IsWrite(command, packets[0]) {
      return Done(None);
    }
    if connection.clientFlag.None? {
      return Panic(NoHandshakeResponse);
    }
    var answer := WriteResponse(command, packets[0].header.seqNo, connection.clientFlag.value, counter);
    if answer.Panic? {
      return Panic(answer.fault);
    }
    connection.phase := Phase.Command;
    r := Done(Some(answer.value));
  }

  /** The answer to an intercepted write is one whole OK frame, numbered after the command: it
      parses back from the front of the stream, reports one affected row, and carries the counter
      as the insert id of an insert. */
  lemma WriteIsAcknowledged(command: Responses.Command, seqNo: byte, flag: nat, counter: byte, phase: Phase,
      tail: seq<byte>)
    requires HasBit(flag, PROTOCOL_41)
    ensures var r := WriteResponse(command, seqNo, flag, counter);
      && r.Done?
      && var f := NextFrame(r.value + tail);
      && f.Some?
      && f.value.header.seqNo == (seqNo + 1) % 256
      && (r.value + tail)[4 + |f.value.body|..] == tail
      && f.value.body != [] && Classify(f.value.body, phase) == OkPacket
      && OkFromBody(f.value.body, Some(flag))
         == Done(OkData(0, 1, if Begins(command.arg, INSERT) && |command.arg| > 6
             && command.arg[6] == 32 then counter else 0, Some(0), Some(0)))
  {
    WritesBegin(command.arg);
    hide OkToPacket, OkFromBody, Classify, LowerCase, NextFrame, HeaderToBytes;
    var ok := OkData(0, 1, if INSERT + [32] <= LowerCase(command.arg) then counter else 0, None, None);
    OkRoundTrip(ok, (seqNo + 1) % 256, flag, phase);
    var p := OkToPacket(ok, (seqNo + 1) % 256, flag).value;
    FrameRoundTrip(Frame(p.header, p.body), tail);
  }
}
