/** Inputs on which the proxy does not give the client what the server meant. */
module Counterexamples {
  import opened Outcomes
  import opened Bytes
  import opened Types
  import opened Packets
  import opened Framing
  import opened Evaluator
  import opened DiffLog
  import opened Rows
  import opened SqlLogic
  import opened Responses
  import opened ResponseAccumulators
  import opened ResponseRuns
  import opened Coherence
  import opened Handshakes
  import opened Connections
  import opened ClientView

  /** The empty string and "abcdef". */
  const MISREAD_ROW: seq<Field> := [Some([]), Some([97, 98, 99, 100, 101, 102])]

  lemma MisreadBody()
    ensures EncodeRow(MISREAD_ROW) == [0, 6, 97, 98, 99, 100, 101, 102]
  {
    assert MISREAD_ROW[1..] == [Some([97, 98, 99, 100, 101, 102])] && MISREAD_ROW[1..][1..] == [];
    assert EncodeField(Some([])) == [0] + [];
    assert EncodeRow(MISREAD_ROW[1..]) == [6] + [97, 98, 99, 100, 101, 102] + [];
  }

  /** An ordinary row of two texts ends the result set it stands in. */
  lemma MisreadRow(r: Response, seqNo: byte, c: Context)
    requires TextQuery(c) && AtRows(r, c)
    ensures EncodeRow(MISREAD_ROW) != [] && Misread(MISREAD_ROW)
    ensures Respond(r, Pack(EncodeRow(MISREAD_ROW), seqNo), c)
         == Done(Reaction(r.(state := Complete), Pack(EncodeRow(MISREAD_ROW), seqNo), Phase.Command))
  {
    hide EncodeRow;
    MisreadBody();
    var body := EncodeRow(MISREAD_ROW);
    assert body[1..] == [6, 97, 98, 99, 100, 101, 102] && body[1..][1..] == [97, 98, 99, 100, 101, 102];
    assert body[1..][1..][1..] == [98, 99, 100, 101, 102];
    assert body[..1] == [0] && FromLittleEndian([0]) == 0;
    assert OkFromBody(body, c.clientFlag).Done?;
    MisreadRowEndsResponse(r, MISREAD_ROW, seqNo, c);
  }

  // ---- Clients that do not keep their turn

  /** A client that sends its handshake response and a forged OK in one read is in the command phase
      before the server has answered. */
  lemma ForgedOk(parser: Parser, c: Conn, response: Frame, ok: Frame)
    requires c.phase == HandshakeResponse && Saved(c) == []
    requires AllWellFormed([response, ok]) && InOrder([response, ok])
    requires ReadReply(response.body, !c.tls).Done? && ReadReply(response.body, !c.tls).value.phase == AuthInit
    requires |ok.body| >= 7 && ok.body[0] == 0
    ensures var r := Receive(parser, c, Serialize([response, ok]));
      r.Done? && r.value.0.phase == Phase.Command
  {
    hide ReadReply, ReadFrames, NextFrame, Serialize, AllWellFormed, InOrder;
    var fs, bytes := [response, ok], Serialize([response, ok]);
    assert NextFrame([]) == None by {
      NothingNext();
    }
    SerializeThenRead(fs, [], None);
    assert bytes + [] == bytes && Saved(c) + bytes == bytes;
    NotEmpty(response, ok);
    var p, q := Typed(response, c.phase), Typed(ok, c.phase);
    assert TypeAll(fs, c.phase) == [p, q];
    var c0 := WithSaved(c, []);
    var c1 := ConsumePacket(parser, c0, p).value.0;
    assert c1.phase == AuthInit && [p, q][1..] == [q] && [q][1..] == [];
    assert ConsumePacket(parser, c1, q) == Done((c1.(phase := Phase.Command), q));
    assert ConsumeAll(parser, c1, [q]).Done? && ConsumeAll(parser, c1, [q]).value.0 == c1.(phase := Phase.Command);
  }

  lemma NotEmpty(f: Frame, g: Frame)
    requires AllWellFormed([f, g])
    ensures f.body != [] && g.body != []
  {
    assert WellFormed([f, g][0]) && WellFormed([f, g][1]);
  }

  // ---- Conditions

  /** A comparison with TRUE drops every row, the one SQL selects by it among them. */
  lemma TrueIsNeverEqual(column: Text, value: Option<Text>)
    ensures var row: Row := map[column := value];
      var condition := BinaryOp(Identifier(column), Eq, Literal(BooleanLiteral(true)));
      && Dropped(row, Some(condition)) == Done(true)
      && (Sql(row, condition) == True <==> value == Some(ONE))
  {
    var row: Row := map[column := value];
    var condition := BinaryOp(Identifier(column), Eq, Literal(BooleanLiteral(true)));
    assert Evaluate(row, Identifier(column)) == Done(Str(value));
    assert Evaluate(row, condition) == Done(Boolean(false));
    assert AtomValue(row, condition.left) == value && AtomValue(row, condition.right) == Some(ONE);
  }

  /** Arithmetic in a condition panics on every row. */
  lemma SumPanics(row: Row, column: Text, one: Text, two: Text)
    ensures var sum := BinaryOp(Identifier(column), OtherOperator, Literal(NumberLiteral(one)));
      Dropped(row, Some(BinaryOp(sum, Eq, Literal(NumberLiteral(two))))) == Panic(Unsupported)
  {
    var sum := BinaryOp(Identifier(column), OtherOperator, Literal(NumberLiteral(one)));
    var condition := BinaryOp(sum, Eq, Literal(NumberLiteral(two)));
    assert Evaluate(row, sum) == Panic(Unsupported);
    assert Evaluate(row, condition) == Panic(Unsupported);
  }

  // ---- A dropped row before a closing ERR

  const TABLE: Text := [116]
  const COLUMN := Column(TABLE, [97])
  const NOTHING_SELECTED := Literal(BooleanLiteral(false))
  const SELECT_NOTHING := Responses.Command.Command(COM_QUERY, [],
      Some([Query(Some(Select(Some(NOTHING_SELECTED), true)))]))

  /** A query of a logged table for no row at all. */
  const ASKED := Context(PendingResponse, Some(SELECT_NOTHING), Some(PROTOCOL_41 + DEPRECATE_EOF), map[TABLE := []])

  const SENT_ROW: seq<Field> := [Some([120])]
  const ERR_BODY: seq<byte> := [0xFF, 21, 4, 35, 72, 89, 48, 48, 48]

  function BrokenOff(): ResponseRuns.Reply
    requires EncodeRow(SENT_ROW) != [] && DefinitionBody(COLUMN) != []
  {
    ResultSet(Pack(EncodeLenEnc(1), 1), [Pack(DefinitionBody(COLUMN), 2)], [COLUMN], [], [Pack(EncodeRow(SENT_ROW), 3)],
              Pack(ERR_BODY, 4))
  }

  lemma AskedIsTextQuery()
    ensures TextQuery(ASKED) && Deprecating(ASKED) && SelectionOf(SELECT_NOTHING) == Some(NOTHING_SELECTED)
  {
  }

  lemma ColumnIsDefined()
    ensures DefinitionBody(COLUMN) != [] && ColumnFromBody(DefinitionBody(COLUMN)) == Done(COLUMN)
  {
    hide ColumnFromBody;
    DefinitionRoundTrip(DEF, NO_TEXT, TABLE, TABLE, [97], [97], FIXED_FIELDS);
  }

  lemma ErrCloses()
    ensures Closes(Pack(ERR_BODY, 4), ASKED) && !Terminates(Pack(ERR_BODY, 4))
  {
    hide Utf8;
    AsciiIsUtf8(ERR_BODY[3..4]);
    AsciiIsUtf8(ERR_BODY[4..9]);
    AsciiIsUtf8(ERR_BODY[9..]);
  }

  lemma RowIsDropped()
    ensures SENT_ROW != [] && CanonicalRow(SENT_ROW, 1)
    ensures Rewritable([COLUMN], Some([]), Some(NOTHING_SELECTED), SENT_ROW)
    ensures Survivors([COLUMN], Some([]), Some(NOTHING_SELECTED), [SENT_ROW]) == []
  {
    hide RowOf, EncodeRow, Rewritable;
    MentionedColumnsSuffice([COLUMN], [], Some(NOTHING_SELECTED), SENT_ROW);
    var rest: seq<seq<Field>> := [SENT_ROW][1..];
    assert rest == [];
    assert Survivor([COLUMN], Some([]), Some(NOTHING_SELECTED), SENT_ROW) == [];
  }

  lemma BrokenOffIsValid()
    ensures EncodeRow(SENT_ROW) != [] && DefinitionBody(COLUMN) != []
    ensures Valid(BrokenOff(), ASKED)
    ensures RespondAll(RowsStart([COLUMN], ASKED), BrokenOff().rows, ASKED).Done?
    ensures Emitted(RespondAll(RowsStart([COLUMN], ASKED), BrokenOff().rows, ASKED).value.packets) == []
  {
    hide EncodeRow, DefinitionBody, ColumnFromBody, RespondAll, Emitted, Closes, Announced, EncodeLenEnc, Classify,
      Rewritable, Survivors, IsRow;
    AskedIsTextQuery();
    ColumnIsDefined();
    ErrCloses();
    RowIsDropped();
    RowClassification(SENT_ROW);
    CountIsRead(1);
    CountIsCount(EncodeLenEnc(1), 0, 1, 1);
    DefinitionIsPlain(DefinitionBody(COLUMN));
    DefinitionPacket();
    RowsDelivered(RowsStart([COLUMN], ASKED), BrokenOff().rows, [SENT_ROW], ASKED);
  }

  lemma DefinitionPacket()
    ensures DefinitionBody(COLUMN) != [] && Defines(Pack(DefinitionBody(COLUMN), 2), COLUMN)
  {
    hide ColumnFromBody, DefinitionBody;
    ColumnIsDefined();
    DefinitionIsPlain(DefinitionBody(COLUMN));
  }

  /** One row dropped before a closing ERR: the packets come in numbered 1 to 4 and go out 1, 2, 4. */
  lemma GapBeforeError()
    ensures EncodeRow(SENT_ROW) != [] && DefinitionBody(COLUMN) != []
    ensures Valid(BrokenOff(), ASKED) && Numbered(PacketsOf(BrokenOff()), 1)
        && Accepts(FRESH, PacketsOf(BrokenOff()), ASKED)
    ensures var run := RespondAll(FRESH, PacketsOf(BrokenOff()), ASKED).value;
      |Emitted(run.packets)| == 3 && run.response.skipped == 1 && !Numbered(Emitted(run.packets), 1)
  {
    BrokenOffIsValid();
    AskedIsTextQuery();
    ErrCloses();
    BrokenOffIsNumbered();
    hide Valid, Numbered, NoneSkipped, RespondAll, Emitted, EncodeRow, DefinitionBody, Terminates, TextQuery,
        PacketsOf, IsRow;
    var reply := BrokenOff();
    SequenceCoherence(reply, 1, ASKED);
    ResultSetPackets(reply, ASKED);
    RowsCoherent(RowsStart([COLUMN], ASKED), reply.rows, 3, ASKED);
    FourPackets();
  }

  lemma BrokenOffIsNumbered()
    requires EncodeRow(SENT_ROW) != [] && DefinitionBody(COLUMN) != [] && Valid(BrokenOff(), ASKED)
    ensures Numbered(PacketsOf(BrokenOff()), 1) && NoneSkipped(PacketsOf(BrokenOff()))
    ensures Numbered(BrokenOff().rows, 3) && NoneSkipped(BrokenOff().rows)
    ensures AtRows(RowsStart([COLUMN], ASKED), ASKED) && AllRows(BrokenOff().rows, [COLUMN], ASKED)
  {
    hide EncodeRow, DefinitionBody, Pack, IsRow, Closes, Numbered, NoneSkipped, EncodeLenEnc;
    FourPackets();
    FourAreNumbered(EncodeLenEnc(1), DefinitionBody(COLUMN), EncodeRow(SENT_ROW), ERR_BODY);
  }

  lemma FourAreNumbered(a: seq<byte>, b: seq<byte>, c: seq<byte>, d: seq<byte>)
    requires a != [] && b != [] && c != [] && d != []
    ensures Numbered([Pack(a, 1), Pack(b, 2), Pack(c, 3), Pack(d, 4)], 1)
    ensures NoneSkipped([Pack(a, 1), Pack(b, 2), Pack(c, 3), Pack(d, 4)])
    ensures Numbered([Pack(c, 3)], 3) && NoneSkipped([Pack(c, 3)])
  {
    hide Classify;
  }

  lemma FourPackets()
    requires EncodeRow(SENT_ROW) != [] && DefinitionBody(COLUMN) != []
    ensures PacketsOf(BrokenOff())
         == [Pack(EncodeLenEnc(1), 1), Pack(DefinitionBody(COLUMN), 2), Pack(EncodeRow(SENT_ROW), 3), Pack(ERR_BODY, 4)]
    ensures BrokenOff().rows == [Pack(EncodeRow(SENT_ROW), 3)]
  {
    hide EncodeRow, DefinitionBody, Pack, EncodeLenEnc;
  }
}
