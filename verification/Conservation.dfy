/** Byte conservation over whole runs of the exchange (src/connection_handler.rs:83-177,
    src/state_handler.rs:23-50). */
module Conservation {
  import opened Outcomes
  import opened Bytes
  import opened Packets
  import opened Framing
  import opened Connections
  import opened Delivery
  import opened Exchanges

  /** The saved suffix, on the side it was read from. */
  function Kept(s: System, side: Side): seq<byte> {
    if s.side == side then Saved(s.conn) else []
  }

  /** How many reads of the server and of the client a run takes. */
  function Taken(cfg: Config, s: System, server: seq<seq<byte>>, client: seq<ClientRead>): (r: (nat, nat))
    ensures r.0 <= |server| && r.1 <= |client|
    decreases |server| + |client|
  {
    if s.side == ServerSide then
      if server == [] || server[0] == [] || ServerStep(cfg, s, server[0]).Panic? then (0, 0) else
      var (i, j) := Taken(cfg, ServerStep(cfg, s, server[0]).value, server[1..], client);
      (i + 1, j)
    else
      if client == [] || client[0].bytes == [] || ClientStep(cfg, s, client[0]).Panic? then (0, 0) else
      var (i, j) := Taken(cfg, ClientStep(cfg, s, client[0]).value, server, client[1..]);
      (i, j + 1)
  }

  /** Nothing is rewritten by a read: the table queried is unlogged whenever a packet is consumed. */
  predicate UnloggedRead(cfg: Config, c: Conn, chunk: seq<byte>) {
    var parsed := ReadFrames(Saved(c) + chunk, None);
    parsed.Done? ==>
      UnloggedThroughout(cfg.parser, WithSaved(c, parsed.value.rest), TypeAll(parsed.value.frames, c.phase))
  }

  /** No read is left in the middle of a packet when the turn changes hands. */
  predicate CleanTurn(s: System, next: System) {
    s.side != next.side ==> Saved(next.conn) == []
  }

  /** Along the whole run no queried table is logged, no write is intercepted and turns are clean. */
  predicate Untouched(cfg: Config, s: System, server: seq<seq<byte>>, client: seq<ClientRead>)
    decreases |server| + |client|
  {
    if s.side == ServerSide then
      server != [] && server[0] != [] && ServerStep(cfg, s, server[0]).Done? ==>
        var next := ServerStep(cfg, s, server[0]).value;
        && UnloggedRead(cfg, s.conn, server[0]) && CleanTurn(s, next)
        && Untouched(cfg, next, server[1..], client)
    else
      client != [] && client[0].bytes != [] && ClientStep(cfg, s, client[0]).Done? ==>
        var next := ClientStep(cfg, s, client[0]).value;
        && UnloggedRead(cfg, SwitchToTls(cfg, s).conn, client[0].bytes) && CleanTurn(s, next)
        && !Answered(cfg, s, client[0])
        && Untouched(cfg, next, server, client[1..])
  }

  /** The proxy answers a write itself. */
  predicate Answered(cfg: Config, s: System, read: ClientRead) {
    var relayed := Relay(cfg, SwitchToTls(cfg, s).conn, read);
    relayed.Done? && relayed.value.answer.Some?
  }

  lemma Associative(a: seq<byte>, b: seq<byte>, c: seq<byte>)
    ensures (a + b) + c == a + (b + c)
  {
  }

  /** Each side has been sent, or is still to be sent, what it had been and what has just been read. */
  predicate Conserves(s: System, next: System, fromServer: seq<byte>, fromClient: seq<byte>) {
    && next.toClient + Kept(next, ServerSide) == (s.toClient + Kept(s, ServerSide)) + fromServer
    && next.toServer + Kept(next, ClientSide) == (s.toServer + Kept(s, ClientSide)) + fromClient
  }

  /** One server read without a log conserves the bytes of both sides if and only if its turn is
      clean: a suffix saved when the turn changes is taken for the client's. */
  lemma ServerStepConserves(cfg: Config, s: System, chunk: seq<byte>)
    requires s.side == ServerSide && s.conn.response.skipped == 0 && ServerStep(cfg, s, chunk).Done?
    requires UnloggedRead(cfg, s.conn, chunk)
    ensures var next := ServerStep(cfg, s, chunk).value;
      && next.conn.response.skipped == 0 && next.conn.diff == s.conn.diff
      && (Conserves(s, next, chunk, []) <==> CleanTurn(s, next))
  {
    hide ReadFrames, Receive, Serialize, UnloggedThroughout, TypeAll, Saved;
    ReceiveParses(cfg.parser, s.conn, chunk);
    UnloggedReceive(cfg.parser, s.conn, chunk);
    var next := ServerStep(cfg, s, chunk).value;
    var out := Serialize(Untyped(Receive(cfg.parser, s.conn, chunk).value.1));
    Associative(s.toClient, out, Saved(next.conn));
    Associative(s.toClient, Saved(s.conn), chunk);
    assert next.toClient == s.toClient + out;
    assert next.toClient + Saved(next.conn) == (s.toClient + Saved(s.conn)) + chunk;
    if s.side != next.side && Saved(next.conn) != [] {
      assert |next.toServer + Kept(next, ClientSide)| > |(s.toServer + Kept(s, ClientSide)) + []|;
    }
  }

  /** One client read likewise, unless the proxy answers it. */
  lemma ClientStepConserves(cfg: Config, s: System, read: ClientRead)
    requires s.side == ClientSide && s.conn.response.skipped == 0 && ClientStep(cfg, s, read).Done?
    requires UnloggedRead(cfg, SwitchToTls(cfg, s).conn, read.bytes) && !Answered(cfg, s, read)
    ensures var next := ClientStep(cfg, s, read).value;
      && next.conn.response.skipped == 0 && (!cfg.intercept ==> next.conn.diff == s.conn.diff)
      && (Conserves(s, next, [], read.bytes) <==> CleanTurn(s, next))
  {
    hide ReadFrames, Receive, Serialize, UnloggedThroughout, TypeAll, Saved, IsWrite, WriteResponse;
    var c := SwitchToTls(cfg, s).conn;
    SavedThroughSwitch(cfg, s);
    ReceiveParses(cfg.parser, c, read.bytes);
    UnloggedReceive(cfg.parser, c, read.bytes);
    var next := ClientStep(cfg, s, read).value;
    var got := Receive(cfg.parser, c, read.bytes).value;
    var out := Serialize(Untyped(got.1));
    InterceptKeepsSaved(got.0, got.1, read.counter);
    assert Saved(next.conn) == Saved(got.0);
    Associative(s.toServer, out, Saved(next.conn));
    Associative(s.toServer, Saved(s.conn), read.bytes);
    assert next.toServer == s.toServer + out;
    assert next.toServer + Saved(next.conn) == (s.toServer + Saved(s.conn)) + read.bytes;
    if s.side != next.side && Saved(next.conn) != [] {
      assert |next.toClient + Kept(next, ServerSide)| > |(s.toClient + Kept(s, ServerSide)) + []|;
    }
  }

  lemma SavedThroughSwitch(cfg: Config, s: System)
    ensures var c := SwitchToTls(cfg, s).conn;
      Saved(c) == Saved(s.conn) && c.response == s.conn.response && c.diff == s.conn.diff
  {
  }

  lemma InterceptKeepsSaved(c: Conn, packets: seq<Packet>, counter: byte)
    ensures var r := Intercept(c, packets, counter);
      r.Done? ==> Saved(r.value.0) == Saved(c) && r.value.0.response == c.response
  {
    hide IsWrite, WriteResponse;
  }

  /** Byte conservation over whole runs: while no queried table is logged, no write is intercepted
      and turns end on packet boundaries, the bytes written to each side so far, followed by what is
      saved of the other side's, are the bytes read from that other side, in order. */
  lemma {:induction false} RunConservesBytes(cfg: Config, s: System, server: seq<seq<byte>>, client: seq<ClientRead>)
    requires s.conn.response.skipped == 0 && Untouched(cfg, s, server, client) && Run(cfg, s, server, client).Done?
    ensures var (i, j) := Taken(cfg, s, server, client);
      Conserves(s, Run(cfg, s, server, client).value, Flatten(server[..i]), Sent(client[..j]))
    decreases |server| + |client|
  {
    hide Run, ServerStep, ClientStep, UnloggedRead, Answered, CleanTurn, Conserves;
    var (i, j) := Taken(cfg, s, server, client);
    if s.side == ServerSide {
      RunServer(cfg, s, server, client);
      if server != [] && server[0] != [] {
        var next := ServerStep(cfg, s, server[0]).value;
        ServerStepConserves(cfg, s, server[0]);
        RunConservesBytes(cfg, next, server[1..], client);
        ConservesTwice(s, next, Run(cfg, s, server, client).value, server[0], [], Flatten(server[1..][..i - 1]),
            Sent(client[..j]));
        assert server[..i][0] == server[0] && server[..i][1..] == server[1..][..i - 1];
        assert [] + Sent(client[..j]) == Sent(client[..j]);
      } else {
        ConservesNothing(cfg, s);
      }
    } else {
      RunClient(cfg, s, server, client);
      if client != [] && client[0].bytes != [] {
        var next := ClientStep(cfg, s, client[0]).value;
        ClientStepConserves(cfg, s, client[0]);
        RunConservesBytes(cfg, next, server, client[1..]);
        ConservesTwice(s, next, Run(cfg, s, server, client).value, [], client[0].bytes, Flatten(server[..i]),
            Sent(client[1..][..j - 1]));
        assert client[..j][0] == client[0] && client[..j][1..] == client[1..][..j - 1];
        assert [] + Flatten(server[..i]) == Flatten(server[..i]);
      } else {
        ConservesNothing(cfg, s);
      }
    }
  }

  lemma ConservesTwice(s: System, next: System, e: System, a: seq<byte>, b: seq<byte>, a': seq<byte>, b': seq<byte>)
    requires Conserves(s, next, a, b) && Conserves(next, e, a', b')
    ensures Conserves(s, e, a + a', b + b')
  {
    Associative(s.toClient + Kept(s, ServerSide), a, a');
    Associative(s.toServer + Kept(s, ClientSide), b, b');
  }

  lemma ConservesNothing(cfg: Config, s: System)
    ensures Flatten<byte>([]) == [] && Sent([]) == []
    ensures Conserves(s, s, [], []) && Conserves(s, SwitchToTls(cfg, s), [], [])
  {
    assert (s.toClient + Kept(s, ServerSide)) + [] == s.toClient + Kept(s, ServerSide);
    assert (s.toServer + Kept(s, ClientSide)) + [] == s.toServer + Kept(s, ClientSide);
  }

  /** Turns are clean along the run. */
  predicate CleanTurns(cfg: Config, s: System, server: seq<seq<byte>>, client: seq<ClientRead>)
    decreases |server| + |client|
  {
    if s.side == ServerSide then
      server != [] && server[0] != [] && ServerStep(cfg, s, server[0]).Done? ==>
        var next := ServerStep(cfg, s, server[0]).value;
        CleanTurn(s, next) && CleanTurns(cfg, next, server[1..], client)
    else
      client != [] && client[0].bytes != [] && ClientStep(cfg, s, client[0]).Done? ==>
        var next := ClientStep(cfg, s, client[0]).value;
        CleanTurn(s, next) && CleanTurns(cfg, next, server, client[1..])
  }

  lemma EmptyLogRead(cfg: Config, c: Conn, chunk: seq<byte>)
    requires c.diff == map[]
    ensures UnloggedRead(cfg, c, chunk)
  {
    hide ReadFrames, UnloggedThroughout, TypeAll;
    var parsed := ReadFrames(Saved(c) + chunk, None);
    if parsed.Done? {
      EmptyLogThroughout(cfg.parser, WithSaved(c, parsed.value.rest), TypeAll(parsed.value.frames, c.phase));
    }
  }

  lemma {:induction false} EmptyLogUntouched(cfg: Config, s: System, server: seq<seq<byte>>, client: seq<ClientRead>)
    requires !cfg.intercept && s.conn.diff == map[] && s.conn.response.skipped == 0
        && CleanTurns(cfg, s, server, client)
    ensures Untouched(cfg, s, server, client)
    decreases |server| + |client|
  {
    hide ServerStep, ClientStep, UnloggedRead, Answered, CleanTurn;
    if s.side == ServerSide {
      if server != [] && server[0] != [] && ServerStep(cfg, s, server[0]).Done? {
        EmptyLogRead(cfg, s.conn, server[0]);
        ServerStepConserves(cfg, s, server[0]);
        EmptyLogUntouched(cfg, ServerStep(cfg, s, server[0]).value, server[1..], client);
      }
    } else if client != [] && client[0].bytes != [] && ClientStep(cfg, s, client[0]).Done? {
      SavedThroughSwitch(cfg, s);
      EmptyLogRead(cfg, SwitchToTls(cfg, s).conn, client[0].bytes);
      NothingAnswered(cfg, s, client[0]);
      ClientStepConserves(cfg, s, client[0]);
      EmptyLogUntouched(cfg, ClientStep(cfg, s, client[0]).value, server, client[1..]);
    }
  }

  lemma NothingAnswered(cfg: Config, s: System, read: ClientRead)
    requires !cfg.intercept
    ensures !Answered(cfg, s, read)
  {
    hide Receive;
  }

  /** From a new connection with nothing logged and no interception, the proxy is transparent: each
      side has been sent a prefix of what the other has sent, short of the suffix still saved. */
  lemma TransparentFromStart(cfg: Config, server: seq<seq<byte>>, client: seq<ClientRead>)
    requires !cfg.intercept
    requires CleanTurns(cfg, Start(NewConn(map[])), server, client)
    requires Run(cfg, Start(NewConn(map[])), server, client).Done?
    ensures var s := Start(NewConn(map[]));
      var e, (i, j) := Run(cfg, s, server, client).value, Taken(cfg, s, server, client);
      && e.toClient + Kept(e, ServerSide) == Flatten(server[..i])
      && e.toServer + Kept(e, ClientSide) == Sent(client[..j])
  {
    hide Run, Taken, CleanTurns, Untouched;
    var s := Start(NewConn(map[]));
    EmptyLogUntouched(cfg, s, server, client);
    RunConservesBytes(cfg, s, server, client);
    assert ([] + []) + Flatten(server[..Taken(cfg, s, server, client).0])
        == Flatten(server[..Taken(cfg, s, server, client).0]);
    assert ([] + []) + Sent(client[..Taken(cfg, s, server, client).1])
        == Sent(client[..Taken(cfg, s, server, client).1]);
  }
}
