/** From raw reads to the bytes written: conservation when nothing is rewritten, and the rewritten
    result set a client can parse. */
module Delivery {
  import opened Outcomes
  import opened Bytes
  import opened Types
  import opened Packets
  import opened Framing
  import opened DiffLog
  import opened Rows
  import opened Responses
  import opened Coherence
  import opened Handshakes
  import opened Connections

  /** Consecutive reads from one peer: the connection after them and all bytes written. */
  function ReceiveAll(parser: Parser, c: Conn, chunks: seq<seq<byte>>): Outcome<(Conn, seq<byte>)>
    decreases |chunks|
  {
    if chunks == [] then Done((c, [])) else
    var first :- Receive(parser, c, chunks[0]);
    var rest :- ReceiveAll(parser, first.0, chunks[1..]);
    Done((rest.0, Serialize(Untyped(first.1)) + rest.1))
  }

  // ---- Conservation

  /** The table whose log rows would be rewritten by, that of the first column, has none. */
  predicate Unlogged(r: Response, diff: DiffMap) {
    r.columns != [] ==> r.columns[0].orgTable !in diff
  }

  /** A response of an unlogged table passes a packet on as it is and drops nothing. */
  lemma UnloggedRespond(r: Response, p: Packet, c: Context)
    requires r.skipped == 0 && Unlogged(r, c.diff) && Respond(r, p, c).Done?
    ensures Respond(r, p, c).value.packet == p && Respond(r, p, c).value.response.skipped == 0
  {
    hide RespondText, RespondPrepare, OkFromBody, ErrorCheck;
    if c.command.value.code == COM_STMT_PREPARE {
      UnloggedPrepare(r, p, c);
    } else if c.command.value.code != COM_STMT_RESET && RespondText(Screen(r, p, c).value, p, c).Done? {
      UnloggedText(Screen(r, p, c).value, p, c);
    }
  }

  lemma UnloggedPrepare(r: Response, p: Packet, c: Context)
    requires r.skipped == 0 && RespondPrepare(r, p, c).Done?
    ensures RespondPrepare(r, p, c).value.packet == p && RespondPrepare(r, p, c).value.response.skipped == 0
  {
    hide ColumnFromBody, FromLittleEndian;
  }

  lemma UnloggedText(r: Response, p: Packet, c: Context)
    requires c.command.Some? && r.skipped == 0 && Unlogged(r, c.diff) && RespondText(r, p, c).Done?
    ensures RespondText(r, p, c).value.packet == p && RespondText(r, p, c).value.response.skipped == 0
  {
    hide RespondRow, ColumnFromBody, DecodeLenEnc;
    if RespondRow(r, p, c).Done? {
      UnloggedRow(r, p, c);
    }
    if RespondRow(r.(state := HydrateRows), p, c).Done? {
      UnloggedRow(r.(state := HydrateRows), p, c);
    }
  }

  lemma UnloggedRow(r: Response, p: Packet, c: Context)
    requires c.command.Some? && r.skipped == 0 && Unlogged(r, c.diff) && RespondRow(r, p, c).Done?
    ensures RespondRow(r, p, c).value.packet == p && RespondRow(r, p, c).value.response.skipped == 0
  {
    hide Rewrite, FromLittleEndian, DecodeLenEnc;
  }

  /** In every phase an unlogged connection passes a packet on as it is. */
  lemma UnloggedConsume(parser: Parser, c: Conn, p: Packet)
    requires p.body != [] && c.response.skipped == 0 && Unlogged(c.response, c.diff)
        && ConsumePacket(parser, c, p).Done?
    ensures var r := ConsumePacket(parser, c, p).value;
      r.1 == p && r.0.response.skipped == 0 && r.0.diff == c.diff && r.0.partial == c.partial
  {
    hide Respond, ReadReply, ReadCommand, AuthInitPhase, Unlogged;
    if c.phase == PendingResponse {
      UnloggedRespond(c.response, p, ContextOf(c));
    }
  }

  /** The table queried is unlogged whenever a packet is consumed. */
  predicate UnloggedThroughout(parser: Parser, c: Conn, ps: seq<Packet>)
    requires NonEmpty(ps)
    decreases |ps|
  {
    ps != [] ==>
      && Unlogged(c.response, c.diff)
      && (ConsumePacket(parser, c, ps[0]).Done? ==>
         UnloggedThroughout(parser, ConsumePacket(parser, c, ps[0]).value.0, ps[1..]))
  }

  predicate UnloggedReads(parser: Parser, c: Conn, chunks: seq<seq<byte>>)
    decreases |chunks|
  {
    chunks != [] ==>
      var parsed := ReadFrames(Saved(c) + chunks[0], None);
      && (parsed.Done? ==>
         UnloggedThroughout(parser, WithSaved(c, parsed.value.rest), TypeAll(parsed.value.frames, c.phase)))
      && (Receive(parser, c, chunks[0]).Done? ==>
         UnloggedReads(parser, Receive(parser, c, chunks[0]).value.0, chunks[1..]))
  }

  lemma {:induction false} UnloggedConsumeAll(parser: Parser, c: Conn, ps: seq<Packet>)
    requires NonEmpty(ps) && c.response.skipped == 0 && UnloggedThroughout(parser, c, ps)
        && ConsumeAll(parser, c, ps).Done?
    ensures var r := ConsumeAll(parser, c, ps).value;
      r.1 == ps && r.0.response.skipped == 0 && r.0.diff == c.diff && r.0.partial == c.partial
    decreases |ps|
  {
    hide ConsumePacket, Unlogged;
    if ps != [] {
      UnloggedConsume(parser, c, ps[0]);
      UnloggedConsumeAll(parser, ConsumePacket(parser, c, ps[0]).value.0, ps[1..]);
    }
  }

  lemma {:induction false} UntypeTypeAll(fs: seq<Frame>, phase: Phase)
    requires forall i :: 0 <= i < |fs| ==> fs[i].body != []
    ensures Untyped(TypeAll(fs, phase)) == fs
    ensures NonEmpty(TypeAll(fs, phase)) && NoneSkipped(TypeAll(fs, phase))
  {
    hide Classify;
    var ps := TypeAll(fs, phase);
    forall i | 0 <= i < |fs| ensures Untyped(ps)[i] == fs[i] && ps[i].body != [] && !ps[i].skip {
      assert ps[i] == Typed(fs[i], phase);
    }
  }

  lemma UnloggedReceive(parser: Parser, c: Conn, chunk: seq<byte>)
    requires c.response.skipped == 0 && Receive(parser, c, chunk).Done?
    requires ReadFrames(Saved(c) + chunk, None).Done?
    requires var parsed := ReadFrames(Saved(c) + chunk, None).value;
      UnloggedThroughout(parser, WithSaved(c, parsed.rest), TypeAll(parsed.frames, c.phase))
    ensures var r := Receive(parser, c, chunk).value;
      && Serialize(Untyped(r.1)) + Saved(r.0) == Saved(c) + chunk
      && r.0.response.skipped == 0 && r.0.diff == c.diff
  {
    hide ReadFrames, ConsumeAll, TypeAll, Serialize, UnloggedThroughout;
    var parsed := ReadFrames(Saved(c) + chunk, None).value;
    var ps := TypeAll(parsed.frames, c.phase);
    UntypeTypeAll(parsed.frames, c.phase);
    UnloggedConsumeAll(parser, WithSaved(c, parsed.rest), ps);
    EmittedAll(ps);
    ReadThenSerialize(Saved(c) + chunk, None);
  }

  /** Byte conservation: while no table queried is logged, after any reads in one direction and in
      any phases, the bytes written followed by the saved suffix are the bytes received. */
  lemma {:induction false} BytesAreConserved(parser: Parser, c: Conn, chunks: seq<seq<byte>>)
    requires c.response.skipped == 0 && UnloggedReads(parser, c, chunks) && ReceiveAll(parser, c, chunks).Done?
    ensures var r := ReceiveAll(parser, c, chunks).value;
      && r.1 + Saved(r.0) == Saved(c) + Flatten(chunks)
      && r.0.response.skipped == 0 && r.0.diff == c.diff
    decreases |chunks|
  {
    hide Receive, ReadFrames, UnloggedThroughout, TypeAll, Saved;
    if chunks == [] {
      assert [] + Saved(c) == Saved(c) + Flatten(chunks);
    } else {
      ReceiveParses(parser, c, chunks[0]);
      UnloggedReceive(parser, c, chunks[0]);
      var first := Receive(parser, c, chunks[0]).value;
      BytesAreConserved(parser, first.0, chunks[1..]);
      var out, rest := Serialize(Untyped(first.1)), ReceiveAll(parser, first.0, chunks[1..]).value;
      Associate(out, rest.1, Saved(rest.0), Saved(first.0), Flatten(chunks[1..]));
      assert Saved(c) + Flatten(chunks) == Saved(c) + chunks[0] + Flatten(chunks[1..]);
    }
  }

  lemma {:induction false} EmptyLogThroughout(parser: Parser, c: Conn, ps: seq<Packet>)
    requires NonEmpty(ps) && c.diff == map[]
    ensures UnloggedThroughout(parser, c, ps)
    ensures ConsumeAll(parser, c, ps).Done? ==> ConsumeAll(parser, c, ps).value.0.diff == map[]
    decreases |ps|
  {
    hide Respond, ReadReply, ReadCommand, AuthInitPhase, AuthCompletePhase;
    if ps != [] && ConsumePacket(parser, c, ps[0]).Done? {
      EmptyLogThroughout(parser, ConsumePacket(parser, c, ps[0]).value.0, ps[1..]);
    }
  }

  lemma {:induction false} EmptyLogReads(parser: Parser, c: Conn, chunks: seq<seq<byte>>)
    requires c.diff == map[]
    ensures UnloggedReads(parser, c, chunks)
    decreases |chunks|
  {
    hide ReadFrames, ConsumeAll, UnloggedThroughout, TypeAll;
    if chunks != [] && ReadFrames(Saved(c) + chunks[0], None).Done? {
      var parsed := ReadFrames(Saved(c) + chunks[0], None).value;
      EmptyLogThroughout(parser, WithSaved(c, parsed.rest), TypeAll(parsed.frames, c.phase));
      if Receive(parser, c, chunks[0]).Done? {
        EmptyLogReads(parser, Receive(parser, c, chunks[0]).value.0, chunks[1..]);
      }
    }
  }

  /** With nothing logged at all the proxy is transparent. */
  lemma EmptyLogIsTransparent(parser: Parser, c: Conn, chunks: seq<seq<byte>>)
    requires c.diff == map[] && c.response.skipped == 0 && ReceiveAll(parser, c, chunks).Done?
    ensures var r := ReceiveAll(parser, c, chunks).value;
      r.1 + Saved(r.0) == Saved(c) + Flatten(chunks)
  {
    EmptyLogReads(parser, c, chunks);
    BytesAreConserved(parser, c, chunks);
  }

  lemma ReceiveParses(parser: Parser, c: Conn, chunk: seq<byte>)
    requires Receive(parser, c, chunk).Done?
    ensures ReadFrames(Saved(c) + chunk, None).Done?
  {
    hide ReadFrames, ConsumeAll, TypeAll;
  }

  lemma Associate(out: seq<byte>, more: seq<byte>, left: seq<byte>, saved: seq<byte>, next: seq<byte>)
    requires more + left == saved + next
    ensures (out + more) + left == (out + saved) + next
  {
    assert (out + more) + left == out + (more + left);
    assert (out + saved) + next == out + (saved + next);
  }
}
