/** Whole responses: which packet sequences the accumulator takes for one response, and what
    leaves the proxy for them. */
module ResponseRuns {
  import opened Outcomes
  import opened Bytes
  import opened Types
  import opened Packets
  import opened Rows
  import opened Responses
  import opened ResponseAccumulators

  /** `rest` is what follows the packet that ended the response. */
  datatype Run = Run(response: Response, packets: seq<Packet>, phase: Phase, rest: seq<Packet>)

  /** Feed packets while the response is pending. */
  function RespondAll(r: Response, ps: seq<Packet>, c: Context): Outcome<Run>
    decreases |ps|
  {
    if ps == [] then Done(Run(r, [], PendingResponse, [])) else
    var re :- Respond(r, ps[0], c);
    if re.phase != PendingResponse then Done(Run(re.response, [re.packet], re.phase, ps[1..])) else
    var tail :- RespondAll(re.response, ps[1..], c);
    Done(Run(tail.response, [re.packet] + tail.packets, tail.phase, tail.rest))
  }

  /** The packets are one whole response: the phase returns to `Command` on the last of them and
      on none before. */
  predicate Accepts(r: Response, ps: seq<Packet>, c: Context) {
    var run := RespondAll(r, ps, c);
    run.Done? && run.value.phase == Phase.Command && run.value.rest == []
  }

  predicate StaysPending(r: Response, ps: seq<Packet>, c: Context) {
    var run := RespondAll(r, ps, c);
    run.Done? && run.value.phase == PendingResponse
  }

  lemma {:induction false} RunAppend(r: Response, a: seq<Packet>, b: seq<Packet>, c: Context)
    requires StaysPending(r, a, c)
    ensures var ra := RespondAll(r, a, c).value;
      var rb := RespondAll(ra.response, b, c);
      && ra.rest == []
      && RespondAll(r, a + b, c) == match rb
         case Panic(f) => Panic(f)
         case Done(t) => Done(Run(t.response, ra.packets + t.packets, t.phase, t.rest))
    decreases |a|
  {
    hide Respond;
    if a == [] {
      assert a + b == b;
      var rb := RespondAll(r, b, c);
      assert rb.Done? ==> [] + rb.value.packets == rb.value.packets;
    } else {
      var re := Respond(r, a[0], c).value;
      assert (a + b)[1..] == a[1..] + b;
      RunAppend(re.response, a[1..], b, c);
      var ra, rb := RespondAll(re.response, a[1..], c).value, RespondAll(RespondAll(r, a, c).value.response, b, c);
      if rb.Done? {
        assert [re.packet] + (ra.packets + rb.value.packets) == ([re.packet] + ra.packets) + rb.value.packets;
      }
    }
  }

  /** One pending step of a run. */
  lemma RunStep(r: Response, ps: seq<Packet>, c: Context, re: Reaction)
    requires ps != [] && Respond(r, ps[0], c) == Done(re) && re.phase == PendingResponse
    ensures RespondAll(r, ps, c) == match RespondAll(re.response, ps[1..], c)
      case Panic(f) => Panic(f)
      case Done(t) => Done(Run(t.response, [re.packet] + t.packets, t.phase, t.rest))
  {
    hide Respond;
  }

  /** A COM_QUERY in the text protocol, with or without DEPRECATE_EOF. */
  predicate TextQuery(c: Context) {
    && c.phase == PendingResponse && c.command.Some? && c.command.value.code == COM_QUERY
    && c.clientFlag.Some? && HasBit(c.clientFlag.value, PROTOCOL_41)
    && !HasBit(c.clientFlag.value, OPTIONAL_METADATA)
  }

  /** The type is the one the packet was given when it was parsed. */
  predicate Classified(p: Packet) {
    p.body != [] && p.pType == Classify(p.body, PendingResponse)
  }

  predicate AllClassified(ps: seq<Packet>) {
    forall i :: 0 <= i < |ps| ==> Classified(ps[i])
  }

  predicate Plain(p: Packet) {
    p.pType !in {OkPacket, ErrorPacket}
  }

  /** A readable OK or ERR packet. */
  predicate Closes(p: Packet, c: Context) {
    || (p.pType == OkPacket && OkFromBody(p.body, c.clientFlag).Done?)
    || (p.pType == ErrorPacket && ErrorCheck(p.body, c.clientFlag).Done?)
  }

  /** An EOF packet of seven bytes announcing no further result set. */
  predicate Terminates(p: Packet) {
    p.pType == EofPacket && |p.body| == 7 && !HasBit(FromLittleEndian(p.body[3..5]), MORE_RESULTS)
  }

  /** The number of columns a packet announces. */
  function Announced(p: Packet): Option<nat> {
    if Plain(p) && DecodeLenEnc(p.body).Done? then Some(DecodeLenEnc(p.body).value.result) else None
  }

  predicate Counts(p: Packet, n: nat) {
    Announced(p) == Some(n)
  }

  predicate Defines(p: Packet, column: Column) {
    Plain(p) && ColumnFromBody(p.body) == Done(column)
  }

  /** A packet the row state forwards, rewritten if its table has a log. */
  predicate IsRow(p: Packet, columns: seq<Column>, c: Context)
    requires columns != [] && c.command.Some?
  {
    p.pType == OtherPacket && (columns[0].orgTable in c.diff ==>
      Rewrite(columns, p.body, c.diff[columns[0].orgTable], SelectionOf(c.command.value)).Done?)
  }

  predicate AllRows(ps: seq<Packet>, columns: seq<Column>, c: Context)
    requires columns != [] && c.command.Some?
  {
    forall i :: 0 <= i < |ps| ==> IsRow(ps[i], columns, c)
  }

  predicate AllDefine(ps: seq<Packet>, columns: seq<Column>) {
    |ps| == |columns| && forall i :: 0 <= i < |ps| ==> Defines(ps[i], columns[i])
  }

  /** What stands between definitions and rows: nothing under DEPRECATE_EOF, an EOF packet without. */
  predicate Separates(gap: seq<Packet>, c: Context) {
    if Deprecating(c) then gap == [] else |gap| == 1 && gap[0].pType == EofPacket
  }

  /** A response to a query: a lone OK or ERR, column definitions cut short by one, or a full
      result set closed by EOF, OK or ERR. */
  datatype Reply =
    | Lone(last: Packet)
    | CutShort(count: Packet, definitions: seq<Packet>, columns: seq<Column>, last: Packet)
    | ResultSet(count: Packet, definitions: seq<Packet>, columns: seq<Column>, gap: seq<Packet>, rows: seq<Packet>,
        last: Packet)

  predicate Valid(reply: Reply, c: Context)
    requires c.command.Some?
  {
    match reply
    case Lone(last) => Closes(last, c)
    case CutShort(count, definitions, columns, last) =>
      && AllDefine(definitions, columns) && Closes(last, c)
      && Announced(count).Some?
      && var n := Announced(count).value; n == 0 || |columns| < n || (|columns| == n && !Deprecating(c))
    case ResultSet(count, definitions, columns, gap, rows, last) =>
      && AllDefine(definitions, columns) && columns != [] && Counts(count, |columns|)
      && Separates(gap, c)
      && AllRows(rows, columns, c)
      && (Closes(last, c) || Terminates(last))
  }

  function PacketsOf(reply: Reply): seq<Packet> {
    match reply
    case Lone(last) => [last]
    case CutShort(count, definitions, _, last) => [count] + definitions + [last]
    case ResultSet(count, definitions, _, gap, rows, last) => [count] + definitions + gap + rows + [last]
  }

  function EncodeTexts(ts: seq<Text>): seq<byte> {
    if ts == [] then [] else EncodeText(ts[0]) + EncodeTexts(ts[1..])
  }

  lemma {:induction false} TextsRoundTrip(ts: seq<Text>, tail: seq<byte>)
    requires forall i :: 0 <= i < |ts| ==> |ts[i]| < U64 && Ascii(ts[i])
    ensures DecodeTexts(EncodeTexts(ts) + tail, |ts|) == Done(Decoded(ts, |EncodeTexts(ts)|))
  {
    hide DecodeText, EncodeText, Widen, Ascii;
    if ts != [] {
      var rest := EncodeTexts(ts[1..]) + tail;
      assert EncodeTexts(ts) + tail == EncodeText(ts[0]) + rest;
      AsciiTextRoundTrip(ts[0], rest);
      TextsRoundTrip(ts[1..], tail);
      assert [ts[0]] + ts[1..] == ts;
    } else {
      assert DecodeTexts(EncodeTexts(ts) + tail, 0) == Done(Decoded([], 0));
    }
  }

  lemma AsciiTextRoundTrip(t: Text, tail: seq<byte>)
    requires |t| < U64 && Ascii(t)
    ensures DecodeText(EncodeText(t) + tail) == Done(Decoded(t, |EncodeText(t)|))
    ensures (EncodeText(t) + tail)[|EncodeText(t)|..] == tail
  {
    hide DecodeText, EncodeText;
    TextRoundTrip(t, tail);
  }

  /** A column definition laid out as the protocol says is known by its original table and column
      names: catalog, schema, table, original table, name, original name, then the fixed fields. It
      is read if and only if its catalog is "def", it has its twelve bytes of fixed fields, and the
      type among them is a known one; otherwise it panics. */
  lemma DefinitionRoundTrip(catalog: Text, schema: Text, table: Text, orgTable: Text, name: Text, orgName: Text,
                            fixed: seq<byte>)
    requires forall t :: t in [catalog, schema, table, orgTable, name, orgName] ==> |t| < U64 && Ascii(t)
    ensures ColumnFromBody(EncodeTexts([catalog, schema, table, orgTable, name, orgName]) + ([12] + fixed))
         == if catalog == DEF && |fixed| >= 12
             && (fixed[6] <= 20 || fixed[6] >= 242) then Done(Column(orgTable, orgName))
            else Panic(Malformed)
  {
    hide DecodeTexts, EncodeTexts;
    var ts := [catalog, schema, table, orgTable, name, orgName];
    forall i | 0 <= i < |ts| ensures |ts[i]| < U64 && Ascii(ts[i]) {
      assert ts[i] in ts;
    }
    TextsRoundTrip(ts, [12] + fixed);
    var body := EncodeTexts(ts) + ([12] + fixed);
    assert body[|EncodeTexts(ts)|..] == [12] + fixed;
    assert DecodeLenEnc([12] + fixed) == Done(Decoded(12, 1));
    assert ([12] + fixed)[1..] == fixed;
  }

  /** An OK or ERR packet ends a query's response from every state. */
  lemma ClosingStep(r: Response, p: Packet, c: Context)
    requires TextQuery(c) && Closes(p, c)
    ensures Respond(r, p, c) == Done(Reaction(r.(state := Complete), p, Phase.Command))
  {
    hide OkFromBody, ErrorCheck, ColumnFromBody, DecodeLenEnc, RespondRow, RespondPrepare;
  }

  lemma CountStep(p: Packet, n: nat, c: Context)
    requires TextQuery(c) && Counts(p, n)
    ensures Respond(FRESH, p, c)
        == Done(Reaction(FRESH.(columnCount := n, state := HydrateColumns), p, PendingResponse))
  {
  }

  lemma DefinitionStep(r: Response, p: Packet, column: Column, c: Context)
    requires TextQuery(c) && r.state == HydrateColumns && Defines(p, column)
    ensures var columns := r.columns + [column];
      Respond(r, p, c) == Done(Reaction(
        r.(columns := columns, state := if r.columnCount == |columns| then ColumnsHydrated else HydrateColumns),
        p, PendingResponse))
  {
    hide ColumnFromBody;
  }

  /** Ready for rows: all columns are known, and the EOF packet after them is past if one is due. */
  predicate AtRows(r: Response, c: Context) {
    r.columns != [] && (r.state == HydrateRows || (r.state == ColumnsHydrated && Deprecating(c)))
  }

  /** The response when the rows of a result set begin. */
  function RowsStart(columns: seq<Column>, c: Context): Response {
    FRESH.(columnCount := |columns|, columns := columns,
           state := if Deprecating(c) then ColumnsHydrated else HydrateRows)
  }

  /** What leaves for a row, and the dropped count after it. */
  function RowOut(r: Response, p: Packet, c: Context): (Packet, nat)
    requires AtRows(r, c) && c.command.Some? && IsRow(p, r.columns, c)
  {
    var table := r.columns[0].orgTable;
    if table !in c.diff then (Renumber(p, r.skipped), r.skipped) else
    var row := Rewrite(r.columns, p.body, c.diff[table], SelectionOf(c.command.value)).value;
    var skipped := if row.dropped then r.skipped + 1 else r.skipped;
    (Renumber(RewrittenPacket(p, row), skipped), skipped)
  }

  lemma RowStep(r: Response, p: Packet, c: Context)
    requires TextQuery(c) && AtRows(r, c) && IsRow(p, r.columns, c)
    ensures var (q, skipped) := RowOut(r, p, c);
      Respond(r, p, c) == Done(Reaction(r.(state := HydrateRows, skipped := skipped), q, PendingResponse))
  {
    hide Rewrite;
  }

  lemma TerminatorStep(r: Response, p: Packet, c: Context)
    requires TextQuery(c) && AtRows(r, c) && Terminates(p)
    ensures Respond(r, p, c) == Done(Reaction(r.(state := Complete), Renumber(p, r.skipped), Phase.Command))
  {
  }

  /** Column definitions are collected one by one; the state changes with the last one. */
  lemma {:induction false} DefinitionsRun(r: Response, ps: seq<Packet>, columns: seq<Column>, c: Context)
    requires TextQuery(c) && r.state == HydrateColumns && AllDefine(ps, columns)
    requires r.columnCount == 0 || |r.columns| + |ps| <= r.columnCount
    requires ps == [] ==> r.columnCount != |r.columns|
    ensures var all := r.columns + columns;
      RespondAll(r, ps, c) == Done(Run(
        r.(columns := all, state := if ps != [] && r.columnCount == |all| then ColumnsHydrated else HydrateColumns),
        ps, PendingResponse, []))
    decreases |ps|
  {
    hide Respond, Defines;
    if ps == [] {
      assert r.columns + columns == r.columns;
    } else {
      DefinitionStep(r, ps[0], columns[0], c);
      var next := r.columns + [columns[0]];
      assert r.columns + columns == next + columns[1..];
      assert ps == [ps[0]] + ps[1..];
      if ps[1..] == [] {
        assert columns[1..] == [] && next + [] == next;
        assert RespondAll(Respond(r, ps[0], c).value.response, ps[1..], c).value.packets == [];
      } else {
        DefinitionsRun(r.(columns := next), ps[1..], columns[1..], c);
      }
    }
  }

  /** Rows keep the response pending, whatever their number. */
  lemma {:induction false} RowsRun(r: Response, ps: seq<Packet>, c: Context)
    requires TextQuery(c) && AtRows(r, c) && AllRows(ps, r.columns, c)
    ensures StaysPending(r, ps, c)
    ensures var r' := RespondAll(r, ps, c).value.response; AtRows(r', c) && r'.columns == r.columns
    decreases |ps|
  {
    hide Respond, IsRow;
    if ps != [] {
      assert IsRow(ps[0], r.columns, c);
      RowStep(r, ps[0], c);
      var re := Respond(r, ps[0], c).value;
      forall i | 0 <= i < |ps[1..]| ensures IsRow(ps[1..][i], r.columns, c) {
        assert ps[1..][i] == ps[i + 1];
      }
      RowsRun(re.response, ps[1..], c);
    }
  }

  lemma EndsWith(r: Response, ps: seq<Packet>, last: Packet, c: Context)
    requires StaysPending(r, ps, c)
    requires var r' := RespondAll(r, ps, c).value.response;
      Respond(r', last, c).Done? && Respond(r', last, c).value.phase == Phase.Command
    ensures Accepts(r, ps + [last], c)
    ensures RespondAll(r, ps + [last], c).value.response
         == Respond(RespondAll(r, ps, c).value.response, last, c).value.response
    ensures RespondAll(r, ps + [last], c).value.packets
         == RespondAll(r, ps, c).value.packets + [Respond(RespondAll(r, ps, c).value.response, last, c).value.packet]
  {
    hide Respond;
    RunAppend(r, ps, [last], c);
  }

  lemma GapStep(r: Response, p: Packet, c: Context)
    requires TextQuery(c) && !Deprecating(c) && r.state == ColumnsHydrated && p.pType == EofPacket
    ensures Respond(r, p, c) == Done(Reaction(r.(state := HydrateRows), p, PendingResponse))
  {
  }

  lemma DefinitionsHead(count: Packet, definitions: seq<Packet>, columns: seq<Column>, c: Context)
    requires TextQuery(c) && AllDefine(definitions, columns) && columns != [] && Counts(count, |columns|)
    ensures RespondAll(FRESH, [count] + definitions, c)
         == Done(Run(FRESH.(columnCount := |columns|, columns := columns, state := ColumnsHydrated),
                     [count] + definitions, PendingResponse, []))
  {
    hide Respond, Announced, Defines;
    CountStep(count, |columns|, c);
    var r := FRESH.(columnCount := |columns|, state := HydrateColumns);
    DefinitionsRun(r, definitions, columns, c);
    assert r.columns + columns == columns;
    assert ([count] + definitions)[1..] == definitions;
  }

  /** The head of a result set, the EOF packet after the definitions included where one is due: when
      rows begin exactly the announced columns are known. */
  lemma HeadRun(count: Packet, definitions: seq<Packet>, columns: seq<Column>, gap: seq<Packet>, c: Context)
    requires TextQuery(c) && AllDefine(definitions, columns) && columns != [] && Counts(count, |columns|)
    requires Separates(gap, c)
    ensures RespondAll(FRESH, [count] + definitions + gap, c)
         == Done(Run(RowsStart(columns, c), [count] + definitions + gap, PendingResponse, []))
  {
    hide Respond, Announced, Defines, AllDefine;
    var head := [count] + definitions;
    DefinitionsHead(count, definitions, columns, c);
    if Deprecating(c) {
      assert head + gap == head;
    } else {
      var r := RespondAll(FRESH, head, c).value.response;
      GapStep(r, gap[0], c);
      RunStep(r, gap, c, Respond(r, gap[0], c).value);
      assert RespondAll(RowsStart(columns, c), gap[1..], c)
          == Done(Run(RowsStart(columns, c), [], PendingResponse, []));
      assert [gap[0]] + [] == gap;
      RunAppend(FRESH, head, gap, c);
    }
  }

  lemma ResultSetRun(reply: Reply, c: Context)
    requires TextQuery(c) && reply.ResultSet? && Valid(reply, c)
    ensures Accepts(FRESH, PacketsOf(reply), c)
  {
    hide Respond, RespondAll, IsRow, Closes, Terminates, Announced, Defines, Separates;
    var ResultSet(count, definitions, columns, gap, rows, last) := reply;
    HeadRun(count, definitions, columns, gap, c);
    var head := [count] + definitions + gap;
    var r := RespondAll(FRESH, head, c).value.response;
    RowsRun(r, rows, c);
    RunAppend(FRESH, head, rows, c);
    var r' := RespondAll(r, rows, c).value.response;
    if Closes(last, c) {
      ClosingStep(r', last, c);
    } else {
      TerminatorStep(r', last, c);
    }
    EndsWith(FRESH, head + rows, last, c);
  }

  lemma CutShortRun(reply: Reply, c: Context)
    requires TextQuery(c) && reply.CutShort? && Valid(reply, c)
    ensures Accepts(FRESH, PacketsOf(reply), c)
  {
    hide Respond, Closes, Announced, Defines;
    var CutShort(count, definitions, columns, last) := reply;
    var n := Announced(count).value;
    CountStep(count, n, c);
    var r := FRESH.(columnCount := n, state := HydrateColumns);
    var head := [count] + definitions;
    assert head[1..] == definitions;
    if n == 0 && definitions == [] {
      assert RespondAll(r, definitions, c) == Done(Run(r, [], PendingResponse, []));
    } else {
      DefinitionsRun(r, definitions, columns, c);
    }
    ClosingStep(RespondAll(FRESH, head, c).value.response, last, c);
    EndsWith(FRESH, head, last, c);
  }

  /** The first packet of an accepted response either ends it or leaves an accepted rest. */
  lemma AcceptedStep(r: Response, ps: seq<Packet>, c: Context)
    requires Accepts(r, ps, c)
    ensures ps != [] && Respond(r, ps[0], c).Done?
    ensures var re := Respond(r, ps[0], c).value;
      if re.phase == PendingResponse then Accepts(re.response, ps[1..], c) else re.phase == Phase.Command && |ps| == 1
  {
    hide Respond;
  }

  /** A response accepted from the row state is rows and one closing packet. */
  lemma {:induction false} AcceptedRows(r: Response, ps: seq<Packet>, c: Context)
      returns (rows: seq<Packet>, last: Packet)
    requires TextQuery(c) && AtRows(r, c) && AllClassified(ps) && Accepts(r, ps, c)
    ensures ps == rows + [last] && AllRows(rows, r.columns, c) && (Closes(last, c) || Terminates(last))
    decreases |ps|
  {
    hide Respond, RespondAll, Accepts, IsRow, Closes, Terminates;
    AcceptedStep(r, ps, c);
    var p := ps[0];
    if |ps| == 1 && (Closes(p, c) || Terminates(p)) {
      rows, last := [], p;
    } else {
      RowOrEnd(r, p, c);
      RowStep(r, p, c);
      var rest;
      rest, last := AcceptedRows(Respond(r, p, c).value.response, ps[1..], c);
      rows := [p] + rest;
      assert ps == [p] + ps[1..];
    }
  }

  lemma RowOrEnd(r: Response, p: Packet, c: Context)
    requires TextQuery(c) && AtRows(r, c) && Classified(p) && Respond(r, p, c).Done?
    ensures if Closes(p, c) || Terminates(p) then Respond(r, p, c).value.phase == Phase.Command
        else IsRow(p, r.columns, c)
  {
    hide Rewrite, OkFromBody, ErrorCheck, FromLittleEndian;
  }

  /** How a result set goes on after its last definition: over the gap and the rows to its end, or,
      where an EOF packet is due, straight to an OK or ERR. */
  predicate GoesOn(gap: seq<Packet>, rows: seq<Packet>, last: Packet, columns: seq<Column>, c: Context)
    requires columns != [] && c.command.Some?
  {
    || (Separates(gap, c) && AllRows(rows, columns, c) && (Closes(last, c) || Terminates(last)))
    || (!Deprecating(c) && gap == [] && rows == [] && Closes(last, c))
  }

  lemma AcceptedRest(r: Response, ps: seq<Packet>, c: Context)
      returns (gap: seq<Packet>, rows: seq<Packet>, last: Packet)
    requires TextQuery(c) && r.columns != [] && r.state == ColumnsHydrated && AllClassified(ps) && Accepts(r, ps, c)
    ensures ps == gap + rows + [last] && GoesOn(gap, rows, last, r.columns, c)
  {
    hide Respond, RespondAll, Accepts, IsRow, Closes, Terminates;
    gap := [];
    if Deprecating(c) {
      rows, last := AcceptedRows(r, ps, c);
      assert gap + rows == rows;
    } else {
      AcceptedStep(r, ps, c);
      var p := ps[0];
      if Closes(p, c) {
        ClosingStep(r, p, c);
        rows, last := [], p;
      } else {
        GapOrEnd(r, p, c);
        GapStep(r, p, c);
        rows, last := AcceptedRows(Respond(r, p, c).value.response, ps[1..], c);
        gap := [p];
        assert ps == [p] + ps[1..];
      }
    }
  }

  lemma GapOrEnd(r: Response, p: Packet, c: Context)
    requires TextQuery(c) && !Deprecating(c) && r.state == ColumnsHydrated && Respond(r, p, c).Done? && !Closes(p, c)
    ensures p.pType == EofPacket
  {
    hide OkFromBody, ErrorCheck;
  }

  /** A response accepted while columns are collected is the rest of them and either an early end
      or what follows all of them. */
  lemma {:induction false} AcceptedDefinitions(r: Response, ps: seq<Packet>, c: Context)
    returns (definitions: seq<Packet>, columns: seq<Column>, gap: seq<Packet>, rows: seq<Packet>, last: Packet)
    requires TextQuery(c) && r.state == HydrateColumns && AllClassified(ps) && Accepts(r, ps, c)
    requires r.columnCount == 0 || |r.columns| < r.columnCount
    ensures AllDefine(definitions, columns) && ps == definitions + gap + rows + [last]
    ensures var all := r.columns + columns;
      if r.columnCount != 0 && |all| == r.columnCount then GoesOn(gap, rows, last, all, c)
      else gap == [] && rows == [] && Closes(last, c) && (r.columnCount == 0 || |all| < r.columnCount)
    decreases |ps|
  {
    hide Respond, RespondAll, Accepts, IsRow, Closes, Terminates, Defines, GoesOn;
    AcceptedStep(r, ps, c);
    var p := ps[0];
    if Closes(p, c) {
      ClosingStep(r, p, c);
      definitions, columns, gap, rows, last := [], [], [], [], p;
    } else {
      var column := DefinedColumn(r, p, c);
      DefinitionStep(r, p, column, c);
      var r' := Respond(r, p, c).value.response;
      assert ps == [p] + ps[1..];
      if r'.state == ColumnsHydrated {
        definitions, columns := [p], [column];
        gap, rows, last := AcceptedRest(r', ps[1..], c);
        assert ps == [p] + (gap + rows + [last]);
      } else {
        var ds, cs;
        ds, cs, gap, rows, last := AcceptedDefinitions(r', ps[1..], c);
        definitions, columns := [p] + ds, [column] + cs;
        assert r.columns + columns == r'.columns + cs;
        assert ps == [p] + (ds + gap + rows + [last]);
      }
    }
  }

  lemma DefinedColumn(r: Response, p: Packet, c: Context) returns (column: Column)
    requires TextQuery(c) && r.state == HydrateColumns && Respond(r, p, c).Done? && !Closes(p, c)
    ensures Defines(p, column)
  {
    hide ColumnFromBody;
    column := ColumnFromBody(p.body).value;
  }

  /** Response exactness: the packets the machine takes for one response, `Command` being returned
      on the last and on no earlier one, are exactly the valid replies. */
  lemma ResponseExactness(ps: seq<Packet>, c: Context)
    requires TextQuery(c) && AllClassified(ps)
    ensures Accepts(FRESH, ps, c) <==> exists reply :: Valid(reply, c) && PacketsOf(reply) == ps
  {
    if reply :| Valid(reply, c) && PacketsOf(reply) == ps {
      match reply {
        case Lone(last) => ClosingStep(FRESH, last, c); assert ps[1..] == [];
        case CutShort(_, _, _, _) => CutShortRun(reply, c);
        case ResultSet(_, _, _, _, _, _) => ResultSetRun(reply, c);
      }
    }
    if Accepts(FRESH, ps, c) {
      var reply := AcceptedReply(ps, c);
    }
  }

  lemma CountedColumns(p: Packet, c: Context) returns (n: nat)
    requires TextQuery(c) && Respond(FRESH, p, c).Done? && !Closes(p, c)
    ensures Counts(p, n)
  {
    hide DecodeLenEnc, OkFromBody, ErrorCheck;
    n := DecodeLenEnc(p.body).value.result;
  }

  lemma AcceptedReply(ps: seq<Packet>, c: Context) returns (reply: Reply)
    requires TextQuery(c) && AllClassified(ps) && Accepts(FRESH, ps, c)
    ensures Valid(reply, c) && PacketsOf(reply) == ps
  {
    hide Respond, RespondAll, Accepts, IsRow, Closes, Terminates, Defines, Announced;
    AcceptedStep(FRESH, ps, c);
    var p := ps[0];
    if Closes(p, c) {
      ClosingStep(FRESH, p, c);
      reply := Lone(p);
    } else {
      var n := CountedColumns(p, c);
      CountStep(p, n, c);
      var definitions, columns, gap, rows, last := AcceptedDefinitions(Respond(FRESH, p, c).value.response, ps[1..], c);
      assert FRESH.columns + columns == columns;
      Reassociate(p, ps, definitions, gap, rows, last);
      reply := if n != 0 && |columns| == n && Separates(gap, c) then ResultSet(p, definitions, columns, gap, rows, last)
               else CutShort(p, definitions, columns, last);
    }
  }

  lemma Reassociate(p: Packet, ps: seq<Packet>, definitions: seq<Packet>, gap: seq<Packet>, rows: seq<Packet>,
      last: Packet)
    requires ps != [] && ps[0] == p && ps[1..] == definitions + gap + rows + [last]
    ensures ps == [p] + definitions + gap + rows + [last]
    ensures gap == [] && rows == [] ==> ps == [p] + definitions + [last]
  {
    assert ps == [p] + ps[1..];
  }

  // ---- EOF packets that do not terminate

  /** In the row state an EOF packet ends the response if and only if it has 7 bytes and announces no
      further result set; any other panics, a 5-byte EOF among them. */
  lemma EofEndsOrPanics(r: Response, p: Packet, c: Context)
    requires TextQuery(c) && AtRows(r, c) && Classified(p) && p.pType == EofPacket
    ensures Respond(r, p, c).Done? <==> |p.body| == 7 && !HasBit(FromLittleEndian(p.body[3..5]), MORE_RESULTS)
    ensures Respond(r, p, c).Panic? ==> Respond(r, p, c) == Panic(Malformed)
  {
    hide FromLittleEndian;
  }

  lemma PanicEnds(r: Response, ps: seq<Packet>, last: Packet, c: Context)
    requires StaysPending(r, ps, c) && Respond(RespondAll(r, ps, c).value.response, last, c) == Panic(Malformed)
    ensures RespondAll(r, ps + [last], c) == Panic(Malformed)
  {
    hide Respond;
    RunAppend(r, ps, [last], c);
  }

  /** A full result set closed by an EOF packet is accepted if and only if that packet is a 7-byte
      terminator, whatever the client's capabilities; otherwise it panics. A client without
      DEPRECATE_EOF, whose server closes with the 5-byte EOF packet of the protocol, never gets
      the end of a result set. */
  lemma EofTerminatedExactness(count: Packet, definitions: seq<Packet>, columns: seq<Column>, gap: seq<Packet>,
                               rows: seq<Packet>, last: Packet, c: Context)
    requires TextQuery(c) && AllDefine(definitions, columns) && columns != [] && Counts(count, |columns|)
    requires Separates(gap, c) && AllRows(rows, columns, c) && Classified(last) && last.pType == EofPacket
    ensures var ps := [count] + definitions + gap + rows + [last];
      && (Accepts(FRESH, ps, c) <==> Terminates(last))
      && (!Terminates(last) ==> RespondAll(FRESH, ps, c) == Panic(Malformed))
      && (|last.body| == 5 ==> RespondAll(FRESH, ps, c) == Panic(Malformed))
  {
    hide Respond, RespondAll, IsRow, Closes, Announced, Defines, Separates, AllDefine;
    var head := [count] + definitions + gap;
    if Terminates(last) {
      ResultSetRun(ResultSet(count, definitions, columns, gap, rows, last), c);
    } else {
      HeadRun(count, definitions, columns, gap, c);
      var r := RespondAll(FRESH, head, c).value.response;
      RowsRun(r, rows, c);
      RunAppend(FRESH, head, rows, c);
      EofEndsOrPanics(RespondAll(r, rows, c).value.response, last, c);
      PanicEnds(FRESH, head + rows, last, c);
      PanicIsNotAccepted(FRESH, head + rows + [last], c);
    }
  }

  lemma PanicIsNotAccepted(r: Response, ps: seq<Packet>, c: Context)
    requires RespondAll(r, ps, c).Panic?
    ensures !Accepts(r, ps, c)
  {
    hide RespondAll;
  }
}
