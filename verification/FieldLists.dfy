/** Responses to COM_FIELD_LIST, and to commands answered by one packet
    (src/mysql/accumulator/result_set.rs:274-393). */
module FieldLists {
  import opened Outcomes
  import opened Bytes
  import opened Packets
  import opened Rows
  import opened Responses
  import opened ResponseAccumulators
  import opened ResponseRuns

  predicate Text41(c: Context) {
    c.phase == PendingResponse && c.command.Some? && c.clientFlag.Some? && HasBit(c.clientFlag.value, PROTOCOL_41)
  }

  predicate FieldListContext(c: Context) {
    Text41(c) && c.command.value.code == COM_FIELD_LIST
  }

  /** Definitions are being collected; their number is not announced. */
  predicate Collecting(r: Response) {
    r.state in {Initiated, HydrateColumns} && r.columnCount == 0
  }

  /** A packet read as a column definition. */
  predicate IsDefinition(p: Packet) {
    p.pType !in {OkPacket, ErrorPacket, EofPacket} && ColumnFromBody(p.body).Done?
  }

  lemma FieldListClosing(r: Response, p: Packet, c: Context)
    requires FieldListContext(c) && Closes(p, c)
    ensures Respond(r, p, c) == Done(Reaction(r.(state := Complete), p, Phase.Command))
  {
    hide OkFromBody, ErrorCheck;
  }

  lemma FieldListDefinition(r: Response, p: Packet, c: Context)
    requires FieldListContext(c) && Collecting(r) && p.pType !in {OkPacket, ErrorPacket, EofPacket}
    ensures Respond(r, p, c).Done? <==> ColumnFromBody(p.body).Done?
    ensures ColumnFromBody(p.body).Done? ==>
      Respond(r, p, c) == Done(Reaction(
        r.(columns := r.columns + [ColumnFromBody(p.body).value], state := HydrateColumns), p, PendingResponse))
  {
    hide ColumnFromBody;
  }

  /** With DEPRECATE_EOF an EOF packet ends the list if it is a terminator, and fails otherwise;
      without, it is taken for the one between definitions and rows. */
  lemma FieldListEof(r: Response, p: Packet, c: Context)
    requires FieldListContext(c) && Collecting(r) && p.pType == EofPacket
    ensures !Deprecating(c) ==> Respond(r, p, c) == Done(Reaction(r.(state := HydrateRows), p, PendingResponse))
    ensures Deprecating(c) && Terminates(p) ==>
      Respond(r, p, c) == Done(Reaction(r.(state := Complete), Renumber(p, r.skipped), Phase.Command))
    ensures Deprecating(c) && !Terminates(p) ==> Respond(r, p, c).Panic?
  {
    hide FromLittleEndian;
  }

  lemma FieldListUnreadable(r: Response, p: Packet, c: Context)
    requires FieldListContext(c) && p.pType in {OkPacket, ErrorPacket} && !Closes(p, c)
    ensures Respond(r, p, c).Panic?
  {
    hide OkFromBody, ErrorCheck;
  }

  lemma {:induction false} FieldListRun(r: Response, ps: seq<Packet>, c: Context)
    requires FieldListContext(c) && Collecting(r) && Deprecating(c)
    ensures Accepts(r, ps, c) <==>
      && ps != [] && (Closes(ps[|ps| - 1], c) || Terminates(ps[|ps| - 1]))
      && forall i :: 0 <= i < |ps| - 1 ==> IsDefinition(ps[i])
    decreases |ps|
  {
    hide Respond, Closes, Terminates, ColumnFromBody;
    if ps != [] {
      var p := ps[0];
      assert forall i :: 0 < i < |ps| ==> ps[i] == ps[1..][i - 1];
      Kinds(p, c);
      if Closes(p, c) {
        FieldListClosing(r, p, c);
      } else if p.pType in {OkPacket, ErrorPacket} {
        FieldListUnreadable(r, p, c);
      } else if p.pType == EofPacket {
        FieldListEof(r, p, c);
      } else {
        FieldListDefinition(r, p, c);
        if ColumnFromBody(p.body).Done? {
          FieldListRun(Respond(r, p, c).value.response, ps[1..], c);
        }
      }
    }
  }

  lemma Kinds(p: Packet, c: Context)
    ensures Closes(p, c) ==> p.pType in {OkPacket, ErrorPacket}
    ensures Terminates(p) ==> p.pType == EofPacket
  {
    hide OkFromBody, ErrorCheck, FromLittleEndian;
  }

  /** Field list exactness: with DEPRECATE_EOF a response is any number of column definitions and a
      7-byte terminator, OK or ERR. */
  lemma FieldListExactness(ps: seq<Packet>, c: Context)
    requires FieldListContext(c) && Deprecating(c)
    ensures Accepts(FRESH, ps, c) <==>
      && ps != [] && (Closes(ps[|ps| - 1], c) || Terminates(ps[|ps| - 1]))
      && forall i :: 0 <= i < |ps| - 1 ==> IsDefinition(ps[i])
  {
    FieldListRun(FRESH, ps, c);
  }

  lemma {:induction false} DefinitionsThenEof(r: Response, ps: seq<Packet>, eof: Packet, c: Context)
    requires FieldListContext(c) && Collecting(r) && !Deprecating(c) && eof.pType == EofPacket
    requires forall i :: 0 <= i < |ps| ==> IsDefinition(ps[i])
    ensures StaysPending(r, ps + [eof], c)
    decreases |ps|
  {
    hide Respond, ColumnFromBody;
    var all := ps + [eof];
    if ps == [] {
      FieldListEof(r, eof, c);
      var next := Respond(r, eof, c).value.response;
      assert all == [eof] && all[1..] == [];
      assert RespondAll(next, all[1..], c) == Done(Run(next, [], PendingResponse, []));
    } else {
      assert all[0] == ps[0] && all[1..] == ps[1..] + [eof];
      FieldListDefinition(r, ps[0], c);
      DefinitionsThenEof(Respond(r, ps[0], c).value.response, ps[1..], eof, c);
    }
  }

  /** Without DEPRECATE_EOF the EOF packet that ends the list leaves the proxy waiting. */
  lemma FieldListNeverEnds(ps: seq<Packet>, eof: Packet, c: Context)
    requires FieldListContext(c) && !Deprecating(c) && eof.pType == EofPacket
    requires forall i :: 0 <= i < |ps| ==> IsDefinition(ps[i])
    ensures StaysPending(FRESH, ps + [eof], c)
  {
    DefinitionsThenEof(FRESH, ps, eof, c);
  }

  /** Every command not treated apart is answered by one packet, whatever it is, if an OK or ERR decodes. */
  lemma OnePacketExactness(ps: seq<Packet>, c: Context)
    requires Text41(c)
    requires c.command.value.code !in {COM_QUERY, COM_FIELD_LIST, COM_STMT_PREPARE, COM_STMT_EXECUTE, COM_STMT_RESET}
    ensures Accepts(FRESH, ps, c) <==> |ps| == 1 && (ps[0].pType in {OkPacket, ErrorPacket} ==> Closes(ps[0], c))
  {
    hide OkFromBody, ErrorCheck;
  }
}
