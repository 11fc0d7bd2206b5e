/** A text result set from the server's bytes, split into reads in any way, to the frames the
    client parses. */
module EndToEnd {
  import opened Outcomes
  import opened Bytes
  import opened Packets
  import opened Framing
  import opened Responses
  import opened ResponseRuns
  import opened Coherence
  import opened Connections
  import opened Delivery

  // ---- Any split into reads

  lemma {:induction false} ConsumePending(parser: Parser, c: Conn, ps: seq<Packet>)
    requires c.phase == PendingResponse && NonEmpty(ps)
    requires RespondAll(c.response, ps, ContextOf(c)).Done? && RespondAll(c.response, ps, ContextOf(c)).value.rest == []
    ensures var run := RespondAll(c.response, ps, ContextOf(c)).value;
      ConsumeAll(parser, c, ps) == Done((c.(phase := run.phase, response := run.response), run.packets))
    decreases |ps|
  {
    hide Respond;
    if ps != [] {
      var re := Respond(c.response, ps[0], ContextOf(c)).value;
      var next := c.(phase := re.phase, response := re.response);
      assert ConsumePacket(parser, c, ps[0]) == Done((next, re.packet));
      if re.phase == PendingResponse {
        ConsumePending(parser, next, ps[1..]);
      } else {
        assert ps[1..] == [];
        assert ConsumeAll(parser, next, ps[1..]) == Done((next, []));
        assert [re.packet] + [] == [re.packet];
      }
    }
  }

  /** A response that ends on its last packet is pending on every earlier one. */
  lemma {:induction false} PendingBefore(r: Response, a: seq<Packet>, b: seq<Packet>, c: Context)
    requires b != [] && RespondAll(r, a + b, c).Done? && RespondAll(r, a + b, c).value.rest == []
    ensures StaysPending(r, a, c)
    decreases |a|
  {
    hide Respond;
    if a != [] {
      assert (a + b)[0] == a[0] && (a + b)[1..] == a[1..] + b;
      assert a[1..] + b != [];
      var re := Respond(r, a[0], c).value;
      if re.phase == PendingResponse {
        PendingBefore(re.response, a[1..], b, c);
      }
    }
  }

  lemma EmittedBytesAppend(a: seq<Packet>, b: seq<Packet>)
    ensures Serialize(Untyped(Emitted(a + b))) == Serialize(Untyped(Emitted(a))) + Serialize(Untyped(Emitted(b)))
  {
    hide Emitted, Serialize, Untyped;
    EmittedAppend(a, b);
    assert Untyped(Emitted(a) + Emitted(b)) == Untyped(Emitted(a)) + Untyped(Emitted(b));
    SerializeAppend(Untyped(Emitted(a)), Untyped(Emitted(b)));
  }

  /** Reads that complete no frame change nothing but the saved suffix. */
  lemma {:induction false} IdleReads(parser: Parser, c: Conn, chunks: seq<seq<byte>>)
    requires ReadFrames(Saved(c) + Flatten(chunks), None).Done?
    requires ReadFrames(Saved(c) + Flatten(chunks), None).value.frames == []
    requires NextFrame(Saved(c)) == None
    requires c.partial != Some([])
    ensures ReceiveAll(parser, c, chunks) == Done((WithSaved(c, Saved(c) + Flatten(chunks)), []))
    decreases |chunks|
  {
    hide ReadFrames, NextFrame, Receive;
    if chunks == [] {
      assert Saved(c) + Flatten(chunks) == Saved(c);
    } else {
      var whole := Saved(c) + chunks[0];
      assert Saved(c) + Flatten(chunks) == whole + Flatten(chunks[1..]);
      ReadAppend(whole, Flatten(chunks[1..]), None);
      ReadThenSerialize(whole, None);
      ReadIsComplete(whole, None);
      var parsed := ReadFrames(whole, None).value;
      assert parsed.frames == [];
      SerializeNothing();
      assert [] + parsed.rest == parsed.rest;
      IdleRead(parser, c, chunks[0], parsed);
      OneMoreRead(parser, c, chunks);
      IdleReads(parser, WithSaved(c, whole), chunks[1..]);
    }
  }

  lemma IdleRead(parser: Parser, c: Conn, chunk: seq<byte>, parsed: Parsed)
    requires ReadFrames(Saved(c) + chunk, None) == Done(parsed) && parsed.frames == []
    ensures Receive(parser, c, chunk) == Done((WithSaved(c, parsed.rest), []))
  {
    hide ReadFrames, ConsumePacket;
    EmittedNothing();
  }

  /** The saved suffix and `bytes` hold, frame by frame, the rest of a pending response or a part of it. */
  ghost predicate Deliverable(c: Conn, bytes: seq<byte>) {
    && c.phase == PendingResponse && NextFrame(Saved(c)) == None
    && ReadFrames(Saved(c) + bytes, None).Done?
    && var run := RespondAll(c.response, TypeAll(ReadFrames(Saved(c) + bytes, None).value.frames, PendingResponse),
       ContextOf(c));
    run.Done? && run.value.rest == []
  }

  /** Where the connection ends and what is written when `bytes` arrive in one read. */
  ghost function Delivered(c: Conn, bytes: seq<byte>): (Conn, seq<byte>)
    requires Deliverable(c, bytes)
  {
    var parsed := ReadFrames(Saved(c) + bytes, None).value;
    var run := RespondAll(c.response, TypeAll(parsed.frames, PendingResponse), ContextOf(c)).value;
    (WithSaved(c, parsed.rest).(phase := run.phase, response := run.response), Serialize(Untyped(Emitted(run.packets))))
  }

  /** A read of one piece does what the packets completed by it do. */
  lemma OnePiece(parser: Parser, c: Conn, chunk: seq<byte>)
    requires Deliverable(c, chunk)
    ensures Receive(parser, c, chunk).Done?
    ensures var got := Receive(parser, c, chunk).value;
      (got.0, Serialize(Untyped(got.1))) == Delivered(c, chunk)
  {
    hide ReadFrames, NextFrame, RespondAll, ConsumeAll, Emitted, Serialize, TypeAll;
    var parsed := ReadFrames(Saved(c) + chunk, None).value;
    UntypeTypeAll(parsed.frames, PendingResponse);
    ConsumePending(parser, WithSaved(c, parsed.rest), TypeAll(parsed.frames, PendingResponse));
  }

  /** The packets of a response, cut in two. */
  lemma CutRun(r: Response, a: seq<Packet>, b: seq<Packet>, c: Context)
    requires RespondAll(r, a + b, c).Done? && RespondAll(r, a + b, c).value.rest == []
    ensures var run := RespondAll(r, a + b, c).value;
      var ra := RespondAll(r, a, c);
      && ra.Done? && ra.value.rest == []
      && (b == [] ==> ra.value == run)
      && (b != [] ==>
            var rb := RespondAll(ra.value.response, b, c);
            && ra.value.phase == PendingResponse && rb.Done? && rb.value.rest == []
            && rb.value.response == run.response && rb.value.phase == run.phase
            && Serialize(Untyped(Emitted(run.packets)))
               == Serialize(Untyped(Emitted(ra.value.packets))) + Serialize(Untyped(Emitted(rb.value.packets))))
  {
    hide RespondAll, Emitted, Serialize, Untyped;
    if b == [] {
      assert a + b == a;
    } else {
      PendingBefore(r, a, b, c);
      RunAppend(r, a, b, c);
      var ra := RespondAll(r, a, c).value;
      EmittedBytesAppend(ra.packets, RespondAll(ra.response, b, c).value.packets);
    }
  }

  /** Cutting a delivery in two: the first piece is deliverable, and unless it ends the response
      the second is, from where the first leaves the connection. */
  lemma CutInTwo(c: Conn, head: seq<byte>, tail: seq<byte>)
    requires Deliverable(c, head + tail)
    ensures Deliverable(c, head)
    ensures var (c', out) := Delivered(c, head);
      var after := ReadFrames(Saved(c') + tail, None);
      && NextFrame(Saved(c')) == None && after.Done? && c'.partial != Some([])
      && (after.value.frames != [] ==>
            Deliverable(c', tail) && Delivered(c, head + tail) == (Delivered(c', tail).0, out + Delivered(c', tail).1))
      && (after.value.frames == [] ==> Delivered(c, head + tail) == (WithSaved(c', Saved(c') + tail), out))
  {
    hide ReadFrames, NextFrame, RespondAll, Emitted, Serialize, TypeAll, Untyped;
    var whole := Saved(c) + head;
    CutRead(Saved(c), head, tail);
    var pa := ReadFrames(whole, None).value;
    var pb := ReadFrames(pa.rest + tail, None).value;
    assert Saved(WithSaved(c, pa.rest)) == pa.rest;
    var a, b := TypeAll(pa.frames, PendingResponse), TypeAll(pb.frames, PendingResponse);
    CutRun(c.response, a, b, ContextOf(c));
    if pb.frames == [] {
      NoPackets();
    }
  }

  lemma NoPackets()
    ensures TypeAll([], PendingResponse) == []
  {
  }

  /** Cutting a read in two, its frames and their packets with it. */
  lemma CutRead(saved: seq<byte>, head: seq<byte>, tail: seq<byte>)
    requires ReadFrames(saved + (head + tail), None).Done?
    ensures ReadFrames(saved + head, None).Done?
    ensures var pa := ReadFrames(saved + head, None).value;
      var pb := ReadFrames(pa.rest + tail, None);
      && NextFrame(pa.rest) == None && pb.Done?
      && ReadFrames(saved + (head + tail), None) == Done(Parsed(pa.frames + pb.value.frames, pb.value.rest))
      && TypeAll(pa.frames + pb.value.frames, PendingResponse)
         == TypeAll(pa.frames, PendingResponse) + TypeAll(pb.value.frames, PendingResponse)
      && (pb.value.frames == [] ==> pb.value.rest == pa.rest + tail)
  {
    hide ReadFrames, NextFrame, Serialize, TypeAll;
    assert saved + (head + tail) == saved + head + tail;
    ReadAppend(saved + head, tail, None);
    ReadIsComplete(saved + head, None);
    var pa := ReadFrames(saved + head, None).value;
    var pb := ReadFrames(pa.rest + tail, None).value;
    TypeAllAppend(pa.frames, pb.frames, PendingResponse);
    if pb.frames == [] {
      ReadThenSerialize(pa.rest + tail, None);
      SerializeNothing();
      assert [] + pb.rest == pb.rest;
    }
  }

  /** However the bytes of a pending response are cut into reads, the connection ends where it
      would after a single read, and the same bytes are written. */
  lemma {:induction false} AnySplit(parser: Parser, c: Conn, chunks: seq<seq<byte>>)
    requires chunks != [] && Deliverable(c, Flatten(chunks))
    ensures ReceiveAll(parser, c, chunks) == Done(Delivered(c, Flatten(chunks)))
    decreases |chunks|
  {
    hide Deliverable, Delivered, Receive, Serialize, ReadFrames, NextFrame, Emitted;
    var tail := Flatten(chunks[1..]);
    CutInTwo(c, chunks[0], tail);
    OnePiece(parser, c, chunks[0]);
    OneMoreRead(parser, c, chunks);
    var (c', out) := Delivered(c, chunks[0]);
    var after := ReadFrames(Saved(c') + tail, None).value;
    if after.frames != [] {
      SomeReadsLeft(Saved(c'), chunks[1..], after);
      AnySplit(parser, c', chunks[1..]);
    } else {
      IdleReads(parser, c', chunks[1..]);
      assert out + [] == out;
    }
  }

  lemma SerializeNothing()
    ensures Serialize([]) == []
  {
  }

  lemma OneMoreRead(parser: Parser, c: Conn, chunks: seq<seq<byte>>)
    requires chunks != [] && Receive(parser, c, chunks[0]).Done?
    ensures var first := Receive(parser, c, chunks[0]).value;
      var rest := ReceiveAll(parser, first.0, chunks[1..]);
      ReceiveAll(parser, c, chunks)
      == if rest.Panic? then Panic(rest.fault) else Done((rest.value.0, Serialize(Untyped(first.1)) + rest.value.1))
  {
    hide Receive, Serialize;
  }

  lemma SomeReadsLeft(saved: seq<byte>, chunks: seq<seq<byte>>, parsed: Parsed)
    requires NextFrame(saved) == None && ReadFrames(saved + Flatten(chunks), None) == Done(parsed)
        && parsed.frames != []
    ensures chunks != []
  {
    hide NextFrame;
    assert saved + [] == saved;
    ReadNothing(saved, None);
  }
}
