/** One connection: reads are cut into packets and each packet is consumed in the phase the one
    before left (src/state_handler.rs, src/connection.rs). */
module Connections {
  import opened Outcomes
  import opened Bytes
  import opened Packets
  import opened Framing
  import opened DiffLog
  import opened Responses
  import opened ResponseAccumulators
  import opened Greetings
  import opened Handshakes
  import opened Coherence

  type Parser = Text -> Option<seq<Statement>>

  /** The state of a connection. `tls` says that both sides are encrypted. */
  datatype Conn = Conn(phase: Phase, partial: Option<seq<byte>>, lastCommand: Option<Responses.Command>,
                       clientFlag: Option<nat>, tls: bool, response: Response, diff: DiffMap)

  function NewConn(diff: DiffMap): Conn {
    Conn(Handshake, None, None, None, false, FRESH, diff)
  }

  function Saved(c: Conn): seq<byte> {
    match c.partial case None => [] case Some(bytes) => bytes
  }

  function ContextOf(c: Conn): Context {
    Context(c.phase, c.lastCommand, c.clientFlag, c.diff)
  }

  /** Consume one packet: dispatch on the phase, then store what the accumulator hands back. */
  function ConsumePacket(parser: Parser, c: Conn, p: Packet): Outcome<(Conn, Packet)>
    requires p.body != []
  {
    match c.phase
    case Handshake =>
      var _ :- CheckGreeting(p.body); Done((c.(phase := HandshakeResponse), p))
    case HandshakeResponse =>
      var reply :- ReadReply(p.body, !c.tls);
      Done((c.(phase := reply.phase, clientFlag := Some(reply.clientFlag)), p))
    case AuthInit =>
      var phase :- AuthInitPhase(p); Done((c.(phase := phase), p))
    case AuthSwitchResponse => Done((c.(phase := AuthComplete), p))
    case AuthComplete =>
      var phase :- AuthCompletePhase(p); Done((c.(phase := phase), p))
    case Command =>
      var read :- ReadCommand(p.body, c.clientFlag, parser);
      Done((c.(phase := read.1, lastCommand := Some(read.0), response := FRESH), p))
    case PendingResponse =>
      var re :- Respond(c.response, p, ContextOf(c));
      Done((c.(phase := re.phase, response := re.response), re.packet))
    case TlsExchange => Panic(WrongPhase)
    case AuthFailed => Panic(WrongPhase)
  }

  predicate NonEmpty(ps: seq<Packet>) {
    forall i :: 0 <= i < |ps| ==> ps[i].body != []
  }

  function ConsumeAll(parser: Parser, c: Conn, ps: seq<Packet>): Outcome<(Conn, seq<Packet>)>
    requires NonEmpty(ps)
    decreases |ps|
  {
    if ps == [] then Done((c, [])) else
    var first :- ConsumePacket(parser, c, ps[0]);
    var rest :- ConsumeAll(parser, first.0, ps[1..]);
    Done((rest.0, [first.1] + rest.1))
  }

  /** The saved suffix is absent when nothing was left over. */
  function WithSaved(c: Conn, rest: seq<byte>): Conn {
    c.(partial := if rest == [] then None else Some(rest))
  }

  /** One read: cut, classify by the phase at its start, consume, and keep what is not skipped. */
  function Receive(parser: Parser, c: Conn, chunk: seq<byte>): Outcome<(Conn, seq<Packet>)> {
    var parsed :- ReadFrames(Saved(c) + chunk, None);
    var end :- ConsumeAll(parser, WithSaved(c, parsed.rest), TypeAll(parsed.frames, c.phase));
    Done((end.0, Emitted(end.1)))
  }

  class Connection {
    var phase: Phase
    var partialBytes: Option<seq<byte>>
    var lastCommand: Option<Responses.Command>
    var clientFlag: Option<nat>
    var tls: bool
    var queryResponse: Response
    const diffLog: StateDiffLog
    const parser: Parser

    constructor (diffLog: StateDiffLog, parser: Parser)
      ensures this.diffLog == diffLog && this.parser == parser
      ensures View() == NewConn(diffLog.tables)
    {
      this.diffLog, this.parser := diffLog, parser;
      phase, partialBytes, lastCommand, clientFlag, tls, queryResponse := Handshake, None, None, None, false, FRESH;
    }

    function View(): Conn
      reads this, diffLog
    {
      Conn(phase, partialBytes, lastCommand, clientFlag, tls, queryResponse, diffLog.tables)
    }

    method ProcessIncomingFrame(buf: array<byte>, n: nat) returns (r: Outcome<seq<Packet>>)
      requires n <= buf.Length
      modifies this
      ensures match Receive(parser, old(View()), buf[..n])
        case Panic(f) => r == Panic(f)
        case Done(end) => r == Done(end.1) && View() == end.0
    {
      hide ConsumePacket, ReadFrames;
      var inPackets := MakePackets(buf, n);
      if inPackets.Panic? {
        return Panic(inPackets.fault);
      }
      var ps := inPackets.value;
      var outPackets: seq<Packet> := [];
      ghost var start, consumed: seq<Packet> := View(), [];
      EmittedNothing();
      Resume([], ConsumeAll(parser, start, ps));
      assert ps[0..] == ps;
      for i := 0 to |ps|
        invariant outPackets == Emitted(consumed)
        invariant ConsumeAll(parser, start, ps) == Resumed(consumed, ConsumeAll(parser, View(), ps[i..]))
      {
        ghost var before := View();
        var packet := Consume(ps[i]);
        ResumeStep(parser, consumed, before, ps[i..]);
        if packet.Panic? {
          return Panic(packet.fault);
        }
        EmittedAppend(consumed, [packet.value]);
        EmittedOne(packet.value);
        if !packet.value.skip {
          outPackets := outPackets + [packet.value];
        }
        consumed := consumed + [packet.value];
        assert ps[i..][1..] == ps[i + 1..];
      }
      ResumeDone(parser, consumed, View(), ps[|ps|..]);
      r := Done(outPackets);
    }

    /** `make_packets`: parse at a moving offset; the suffix left over replaces the saved one. */
    method MakePackets(buf: array<byte>, n: nat) returns (r: Outcome<seq<Packet>>)
      requires n <= buf.Length
      modifies this`partialBytes
      ensures match ReadFrames(Saved(old(View())) + buf[..n], None)
        case Panic(f) => r == Panic(f)
        case Done(parsed) => r == Done(TypeAll(parsed.frames, phase)) && View() == WithSaved(old(View()), parsed.rest)
      ensures r.Done? ==> NonEmpty(r.value)
    {
      hide NextFrame, ReadFrames, Parsing, TypeAll, Classify;
      ghost var whole := Saved(View()) + buf[..n];
      ghost var frames: seq<Frame> := [];
      var ret: seq<Packet> := [];
      var offset := 0;
      ParseFrom([], ReadFrames(whole, None));
      assert whole[0..] == whole;
      TypeNothing(phase);
      while true
        invariant 0 <= offset <= |whole|
        invariant Saved(View()) + buf[..n] == whole
        invariant View() == old(View())
        invariant forall i :: 0 <= i < |frames| ==> frames[i].body != []
        invariant ret == TypeAll(frames, phase)
        invariant ReadFrames(whole, None) == Parsing(frames, ReadFrames(whole[offset..], LastSeq(frames)))
        decreases |whole| - offset
      {
        var bytes := (match partialBytes case None => [] case Some(saved) => saved) + buf[..n];
        if offset == |bytes| {
          partialBytes := None;
          ParseEnd(frames, whole[offset..]);
          break;
        }
        var next := NextFrame(bytes[offset..]);
        if next.None? {
          partialBytes := Some(bytes[offset..]);
          ParseTail(frames, whole[offset..]);
          break;
        }
        var f := next.value;
        ParseOne(frames, whole[offset..], f);
        if f.body == [] {
          return Panic(Malformed);
        }
        if !Follows(LastSeqOf(ret), f.header.seqNo) {
          return Panic(OutOfOrder);
        }
        TypeOneMore(frames, f, phase);
        assert whole[offset..][4 + |f.body|..] == whole[offset + 4 + |f.body|..];
        frames := frames + [f];
        ret := ret + [Typed(f, phase)];
        offset := offset + 4 + f.header.size;
      }
      r := Done(ret);
    }

    /** One round of the packet loop: get the accumulator, consume, synchronise. */
    method Consume(p: Packet) returns (r: Outcome<Packet>)
      requires p.body != []
      modifies this
      ensures match ConsumePacket(parser, old(View()), p)
        case Panic(f) => r == Panic(f)
        case Done(end) => r == Done(end.1) && View() == end.0
    {
      hide Respond, ReadReply, ReadCommand, AuthInitPhase;
      r := Done(p);
      match phase {
        case Handshake =>
          var greeting := CheckGreeting(p.body);
          if greeting.Panic? {
            return Panic(greeting.fault);
          }
          phase := HandshakeResponse;
        case HandshakeResponse =>
          var reply := ConsumeHandshakeResponse(p.body, !tls);
          if reply.Panic? {
            return Panic(reply.fault);
          }
          phase, clientFlag := reply.value.phase, Some(reply.value.clientFlag);
        case AuthInit =>
          var next := AuthInitPhase(p);
          if next.Panic? {
            return Panic(next.fault);
          }
          phase := next.value;
        case AuthSwitchResponse =>
          phase := AuthComplete;
        case AuthComplete =>
          var next := AuthCompletePhase(p);
          if next.Panic? {
            return Panic(next.fault);
          }
          phase := next.value;
        case Command =>
          var read := ReadCommand(p.body, clientFlag, parser);
          if read.Panic? {
            return Panic(read.fault);
          }
          phase, lastCommand, queryResponse := read.value.1, Some(read.value.0), FRESH;
        case PendingResponse =>
          var accumulator := new ResponseAccumulator(queryResponse);
          var got := accumulator.Consume(p, Context(phase, lastCommand, clientFlag, diffLog.tables));
          if got.Panic? {
            return Panic(got.fault);
          }
          phase, queryResponse := got.value.1, accumulator.View();
          r := Done(got.value.0);
        case _ =>
          return Panic(WrongPhase);
      }
    }
  }

  // ---- Steps of the two loops above

  function Resumed(done: seq<Packet>, rest: Outcome<(Conn, seq<Packet>)>): Outcome<(Conn, seq<Packet>)> {
    var r :- rest; Done((r.0, done + r.1))
  }

  lemma Resume(done: seq<Packet>, rest: Outcome<(Conn, seq<Packet>)>)
    requires done == []
    ensures Resumed(done, rest) == rest
  {
    if rest.Done? {
      assert done + rest.value.1 == rest.value.1;
    }
  }

  lemma ResumeStep(parser: Parser, done: seq<Packet>, c: Conn, ps: seq<Packet>)
    requires ps != [] && NonEmpty(ps)
    ensures Resumed(done, ConsumeAll(parser, c, ps)) == match ConsumePacket(parser, c, ps[0])
      case Panic(f) => Panic(f)
      case Done(first) => Resumed(done + [first.1], ConsumeAll(parser, first.0, ps[1..]))
  {
    hide ConsumePacket;
    var first := ConsumePacket(parser, c, ps[0]);
    if first.Done? && ConsumeAll(parser, first.value.0, ps[1..]).Done? {
      var rest := ConsumeAll(parser, first.value.0, ps[1..]).value.1;
      assert done + ([first.value.1] + rest) == done + [first.value.1] + rest;
    }
  }

  lemma ResumeDone(parser: Parser, done: seq<Packet>, c: Conn, ps: seq<Packet>)
    requires ps == []
    ensures Resumed(done, ConsumeAll(parser, c, ps)) == Done((c, done))
  {
    assert done + [] == done;
  }

  lemma EmittedNothing()
    ensures Emitted([]) == []
  {
  }

  lemma EmittedOne(p: Packet)
    ensures Emitted([p]) == if p.skip then [] else [p]
  {
    EmittedNothing();
    assert [p][1..] == [];
  }

  function Parsing(done: seq<Frame>, rest: Outcome<Parsed>): Outcome<Parsed> {
    var r :- rest; Done(Parsed(done + r.frames, r.rest))
  }

  function LastSeq(fs: seq<Frame>): Option<byte> {
    if fs == [] then None else Some(fs[|fs| - 1].header.seqNo)
  }

  function LastSeqOf(ps: seq<Packet>): Option<byte> {
    if ps == [] then None else Some(ps[|ps| - 1].header.seqNo)
  }

  lemma TypeNothing(phase: Phase)
    ensures TypeAll([], phase) == []
  {
  }

  lemma TypeOneMore(fs: seq<Frame>, f: Frame, phase: Phase)
    requires f.body != [] && forall i :: 0 <= i < |fs| ==> fs[i].body != []
    ensures TypeAll(fs + [f], phase) == TypeAll(fs, phase) + [Typed(f, phase)]
    ensures LastSeqOf(TypeAll(fs, phase)) == LastSeq(fs)
  {
    hide TypeAll, Classify;
  }

  lemma ParseFrom(done: seq<Frame>, rest: Outcome<Parsed>)
    requires done == []
    ensures Parsing(done, rest) == rest
  {
    if rest.Done? {
      assert done + rest.value.frames == rest.value.frames;
    }
  }

  lemma ParseEnd(done: seq<Frame>, bytes: seq<byte>)
    requires bytes == []
    ensures Parsing(done, ReadFrames(bytes, LastSeq(done))) == Done(Parsed(done, []))
  {
    assert done + [] == done;
  }

  lemma ParseTail(done: seq<Frame>, bytes: seq<byte>)
    requires NextFrame(bytes) == None
    ensures Parsing(done, ReadFrames(bytes, LastSeq(done))) == Done(Parsed(done, bytes))
  {
    ReadNothing(bytes, LastSeq(done));
    assert done + [] == done;
  }

  lemma ParseOne(done: seq<Frame>, bytes: seq<byte>, f: Frame)
    requires bytes != [] && NextFrame(bytes) == Some(f)
    ensures Parsing(done, ReadFrames(bytes, LastSeq(done))) ==
      if f.body == [] then Panic(Malformed)
      else if !Follows(LastSeq(done), f.header.seqNo) then Panic(OutOfOrder)
      else Parsing(done + [f], ReadFrames(bytes[4 + |f.body|..], LastSeq(done + [f])))
  {
    hide NextFrame;
    var rest := ReadFrames(bytes[4 + |f.body|..], Some(f.header.seqNo));
    if rest.Done? {
      assert done + ([f] + rest.value.frames) == done + [f] + rest.value.frames;
    }
  }
}
