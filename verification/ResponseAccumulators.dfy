/** The response accumulator itself: it re-feeds one packet through several states
    (src/mysql/accumulator/result_set.rs:34-393). */
module ResponseAccumulators {
  import opened Outcomes
  import opened Bytes
  import opened Types
  import opened Packets
  import opened DiffLog
  import opened Evaluator
  import opened Rows
  import opened Responses

  /** Bound on how often a packet can still be re-fed from a state; it depends on the command. */
  function Rank(state: State, c: Context): nat {
    if c.command.None? then 0
    else if c.command.value.code == COM_STMT_PREPARE then
      (match state
       case Initiated => 3
       case MetaExchange => 2
       case HydrateParams => 1
       case HydrateColumns => 1
       case _ => 0)
    else if c.command.value.code == COM_FIELD_LIST then
      (match state
       case HydrateRows => if Deprecating(c) then 1 else 5
       case Initiated => 4
       case HydrateColumns => 3
       case ColumnsHydrated => 2
       case _ => 0)
    else
      (match state case ColumnsHydrated => 5 case HydrateRows => 4 case Initiated => 3 case _ => 0)
  }

  predicate Deprecating(c: Context) {
    c.clientFlag.Some? && HasBit(c.clientFlag.value, DEPRECATE_EOF)
  }

  /** A packet of the text protocol that does not complete the response by its type. */
  predicate TextPacket(p: Packet, c: Context) {
    && c.command.Some? && c.command.value.code !in {COM_STMT_PREPARE, COM_STMT_RESET, COM_STMT_EXECUTE}
    && p.pType !in {OkPacket, ErrorPacket}
  }

  type Consumed = Outcome<(Packet, Phase)>

  /** The accumulator ended as the per-state description says. */
  ghost predicate As(spec: Outcome<Reaction>, now: Response, got: Consumed) {
    match spec
    case Panic(f) => got == Panic(f)
    case Done(re) => got == Done((re.packet, re.phase)) && now == re.response
  }

  class ResponseAccumulator {
    var state: State
    var metadataFollows: bool
    var columns: seq<Column>
    var columnCount: nat
    var paramCount: nat
    var params: seq<Column>
    var skipped: nat

    /** A clone of the connection's stored accumulator. */
    constructor (r: Response)
      ensures View() == r
    {
      state, metadataFollows, columns, columnCount := r.state, r.metadataFollows, r.columns, r.columnCount;
      paramCount, params, skipped := r.paramCount, r.params, r.skipped;
    }

    function View(): Response
      reads this
    {
      Response(state, metadataFollows, columns, columnCount, paramCount, params, skipped)
    }

    method Consume(p: Packet, c: Context) returns (got: Consumed)
      modifies this
      ensures As(Respond(old(View()), p, c), View(), got)
      ensures TextPacket(p, c) ==> As(RespondText(old(View()), p, c), View(), got)
      ensures c.command.Some? && c.command.value.code == COM_STMT_PREPARE ==>
        As(RespondPrepare(old(View()), p, c), View(), got)
      decreases Rank(state, c), 2
    {
      if c.command.None? {
        return Panic(NoCommand);
      }
      var code := c.command.value.code;
      if code == COM_STMT_PREPARE {
        got := ProcessStmtPrepare(p, c);
      } else if code == COM_STMT_RESET {
        got := Done((p, Phase.Command));
      } else {
        if p.pType == ErrorPacket {
          state := Complete;
          var error := ErrorCheck(p.body, c.clientFlag);
          if error.Panic? {
            return Panic(error.fault);
          }
        }
        if p.pType == OkPacket {
          var ok := OkFromBody(p.body, c.clientFlag);
          if ok.Panic? {
            return Panic(ok.fault);
          }
          state := Complete;
        }
        if code == COM_STMT_EXECUTE {
          got := Done((p, ProcessBinaryResultSet(p, c.phase)));
        } else {
          got := ProcessResultSet(p, c);
        }
      }
    }

    static function ProcessBinaryResultSet(p: Packet, currentPhase: Phase): Phase {
      if p.pType == EofPacket || (p.header.seqNo == 1 && p.pType == OkPacket) then Phase.Command else currentPhase
    }

    method ProcessResultSet(p: Packet, c: Context) returns (got: Consumed)
      requires c.command.Some? && c.command.value.code !in {COM_STMT_PREPARE, COM_STMT_RESET, COM_STMT_EXECUTE}
      requires p.pType in {OkPacket, ErrorPacket} ==> state == Complete
      modifies this
      ensures As(RespondText(old(View()), p, c), View(), got)
      decreases Rank(state, c), 1
    {
      match state {
        case Initiated => got := StartResultSet(p, c);
        case MetaExchange =>
          // the length-encoded integer is asked for with a fixed length, which it refuses
          got := Panic(Malformed);
        case ColumnCount => got := ReadColumnCount(p, c);
        case HydrateColumns => got := HydrateColumn(p, c);
        case ColumnsHydrated => got := FinishColumns(p, c);
        case HydrateRows => got := HydrateRow(p, c);
        case Complete => got := Done((p, Phase.Command));
        case _ => got := Panic(Unsupported);
      }
    }

    method StartResultSet(p: Packet, c: Context) returns (got: Consumed)
      requires TextPacket(p, c) && state == Initiated
      modifies this
      ensures As(Begin(old(View()), p, c), View(), got)
      decreases Rank(state, c), 0
    {
      if c.command.value.code == COM_QUERY {
        if c.clientFlag.None? {
          return Panic(NoHandshakeResponse);
        }
        state := if HasBit(c.clientFlag.value, OPTIONAL_METADATA) then MetaExchange else ColumnCount;
      } else if c.command.value.code == COM_FIELD_LIST {
        state := HydrateColumns;
      } else {
        state := Complete;
      }
      got := Consume(p, c);
    }

    method ReadColumnCount(p: Packet, c: Context) returns (got: Consumed)
      modifies this
      ensures As(CountColumns(old(View()), p, c), View(), got)
    {
      var n := DecodeLenEnc(p.body);
      if n.Panic? {
        return Panic(n.fault);
      }
      columnCount := n.value.result;
      state := ColumnsHydrated;
      if c.clientFlag.None? {
        return Panic(NoHandshakeResponse);
      }
      if !HasBit(c.clientFlag.value, OPTIONAL_METADATA) || metadataFollows {
        state := HydrateColumns;
      }
      got := Done((p, c.phase));
    }

    method HydrateColumn(p: Packet, c: Context) returns (got: Consumed)
      requires TextPacket(p, c) && state == HydrateColumns
      modifies this
      ensures As(RespondText(old(View()), p, c), View(), got)
      decreases Rank(state, c), 0
    {
      hide ColumnFromBody, RespondRow, Respond, EnterRows;
      if c.command.value.code == COM_FIELD_LIST && p.pType == EofPacket {
        state := ColumnsHydrated;
        got := Consume(p, c);
      } else {
        var column := ColumnFromBody(p.body);
        if column.Panic? {
          return Panic(column.fault);
        }
        columns := columns + [column.value];
        if columnCount == |columns| {
          state := ColumnsHydrated;
        }
        got := Done((p, c.phase));
      }
    }

    method FinishColumns(p: Packet, c: Context) returns (got: Consumed)
      requires TextPacket(p, c) && state == ColumnsHydrated
      modifies this
      ensures As(EnterRows(old(View()), p, c), View(), got)
      decreases Rank(state, c), 0
    {
      if c.clientFlag.None? {
        return Panic(NoHandshakeResponse);
      }
      if !HasBit(c.clientFlag.value, DEPRECATE_EOF) {
        if p.pType != EofPacket {
          return Panic(Malformed);
        }
        state := HydrateRows;
        got := Done((p, c.phase));
      } else {
        state := HydrateRows;
        got := Consume(p, c);
      }
    }

    /** The row state of `process_result_set`. */
    method HydrateRow(p: Packet, c: Context) returns (got: Consumed)
      requires TextPacket(p, c) && state == HydrateRows
      modifies this
      ensures As(RespondRow(old(View()), p, c), View(), got)
      decreases Rank(state, c), 0
    {
      hide Rewrite, Respond, FromLittleEndian, ColumnFromBody, DecodeLenEnc;
      var statusFlags: Option<nat> := None;
      var q := p;
      match p.pType {
        case EofPacket =>
          var eof := EofStatus(p.body, c.clientFlag);
          if eof.Panic? {
            return Panic(eof.fault);
          }
          statusFlags := eof.value;
        case OtherPacket =>
          if columns == [] {
            return Panic(Malformed);
          }
          if columns[0].orgTable in c.diff {
            var row := OverrideRow(p, c.diff[columns[0].orgTable], SelectionOf(c.command.value));
            if row.Panic? {
              return Panic(row.fault);
            }
            q := row.value;
          }
        case _ =>
          return Panic(Unsupported);
      }
      q := q.(header := q.header.(seqNo := (q.header.seqNo - skipped) % 256));
      if statusFlags.Some? {
        state := Complete;
        if HasBit(statusFlags.value, MORE_RESULTS) {
          state := Initiated;
          if c.command.value.code == COM_FIELD_LIST && Deprecating(c) {
            // every further call re-feeds the packet: the recursion only ends with the stack
            return Panic(StackOverflow);
          }
        }
        got := Consume(q, c);
      } else {
        got := Done((q, c.phase));
      }
    }

    method ParseRow(body: seq<byte>) returns (r: Outcome<Row>)
      ensures r == RowFromBody(columns, body)
    {
      hide DecodeText, ParseFields, EncodeRow, Evaluate;
      var row: Row := map[];
      var i, columnIndex := 0, 0;
      ghost var fs: seq<Field> := [];
      PrependNone(ParseFields(body));
      assert body[0..] == body;
      while i < |body|
        invariant 0 <= i <= |body| && columnIndex == |fs| <= |columns|
        invariant row == RowOf(columns, fs)
        invariant ParseFields(body) == Prepend(fs, ParseFields(body[i..]))
        decreases |body| - i
      {
        var value: Field, width := None, 1;
        if body[i] != 0xFB {
          var d := StringFromBytes(body[i..]);
          if d.Panic? {
            FieldPanics(fs, body[i..]);
            return Panic(Malformed);
          }
          value, width := Some(d.value.result), d.value.increment;
        }
        assert NextField(body[i..]) == Done(Decoded(value, width));
        if columnIndex >= |columns| {
          PrependTooMany(fs, body[i..]);
          return Panic(Malformed);
        }
        PrependStep(fs, value, body[i..], width);
        assert body[i..][width..] == body[i + width..];
        row := row[columns[columnIndex].orgName := value];
        assert (fs + [value])[..|fs|] == fs;
        fs := fs + [value];
        i, columnIndex := i + width, columnIndex + 1;
      }
      PrependDone(fs, body[i..]);
      r := Done(row);
    }

    method OverrideRow(p: Packet, log: Log, selection: Option<Expr>) returns (r: Outcome<Packet>)
      modifies this`skipped
      ensures match Rewrite(columns, p.body, log, selection)
        case Panic(f) => r == Panic(f)
        case Done(row) =>
          && r == Done(RewrittenPacket(p, row))
          && skipped == old(skipped) + (if row.dropped then 1 else 0)
    {
      var parsed := ParseRow(p.body);
      if parsed.Panic? {
        return Panic(parsed.fault);
      }
      var row := parsed.value;
      var overrideState := FindOverride(row, log);
      if overrideState.Panic? {
        return Panic(overrideState.fault);
      }
      var newBody;
      newBody, row := RebuildBody(columns, row, overrideState.value);
      var skip := p.skip;
      if selection.Some? {
        var verdict := Evaluate(row, selection.value);
        if verdict.Panic? {
          return Panic(verdict.fault);
        }
        if verdict.value == Boolean(false) {
          skipped := skipped + 1;
          skip := true;
        }
      }
      r := Done(Packet(Header(|newBody|, p.header.seqNo), newBody, p.pType, skip));
    }

    /** The re-encoding loop of `override_row`. */
    static method RebuildBody(columns: seq<Column>, original: Row, overrideState: Option<Assigned>)
        returns (newBody: seq<byte>, row: Row)
      requires |original| <= |columns| && forall i :: 0 <= i < |original| ==> columns[i].orgName in original
      ensures row == OverrideFirst(columns, original, overrideState, |original|)
      ensures newBody == EncodeRow(Values(columns, row, |original|))
    {
      hide OverrideFirst, EncodeRow, EncodeField;
      row := original;
      OverrideNone(columns, original, overrideState);
      EncodeNothing();
      var n := |row|;
      newBody := [];
      ghost var final := Values(columns, OverrideFirst(columns, original, overrideState, n), n);
      for i := 0 to n
        invariant row == OverrideFirst(columns, original, overrideState, i)
        invariant newBody == EncodeRow(final[..i])
      {
        var name := columns[i].orgName;
        var value := row[name];
        if overrideState.Some? && name in overrideState.value {
          value := overrideState.value[name];
          row := row[name := value];
        }
        OverrideStep(columns, original, overrideState, i, n);
        assert value == final[i];
        EncodeRowAppend(final[..i], [value]);
        assert final[..i + 1] == final[..i] + [value];
        EncodeSingleton(value);
        newBody := newBody + EncodeField(value);
      }
      assert final[..n] == final;
    }

    /** The scan over the log in `override_row`: the last match wins. */
    static method FindOverride(row: Row, log: Log) returns (r: Outcome<Option<Assigned>>)
      ensures r == LastMatch(row, log)
    {
      var found: Option<Assigned> := None;
      for i := 0 to |log|
        invariant LastMatch(row, log[..i]) == Done(found)
        invariant LastMatch(row, log).Panic? || forall k :: 0 <= k < i ==> Matches(row, log[k]).Done?
      {
        assert log[..i + 1][..i] == log[..i];
        var m := Matches(row, log[i]);
        if m.Panic? {
          PanicPropagates(row, log, i);
          return Panic(m.fault);
        }
        if m.value {
          found := Some(log[i].assignments);
        }
      }
      assert log[..|log|] == log;
      r := Done(found);
    }

    method ProcessStmtPrepare(p: Packet, c: Context) returns (got: Consumed)
      requires c.command.Some? && c.command.value.code == COM_STMT_PREPARE
      modifies this
      ensures As(RespondPrepare(old(View()), p, c), View(), got)
      decreases Rank(state, c), 1
    {
      match state {
        case Initiated => got := ReadPrepareOk(p, c);
        case MetaExchange =>
          state := if paramCount > 0 then HydrateParams else ParamsHydrated;
          got := Consume(p, c);
        case HydrateParams => got := HydrateParam(p, c);
        case HydrateColumns => got := HydratePreparedColumn(p, c);
        case Complete => got := Done((p, Phase.Command));
        case _ => got := Panic(Unsupported);
      }
    }

    method ReadPrepareOk(p: Packet, c: Context) returns (got: Consumed)
      requires c.command.Some? && c.command.value.code == COM_STMT_PREPARE && state == Initiated
      modifies this
      ensures As(RespondPrepare(old(View()), p, c), View(), got)
      decreases Rank(state, c), 0
    {
      hide FromLittleEndian, ColumnFromBody;
      if |p.body| < 10 || p.body[0] != 0 || p.body[9] != 0 {
        return Panic(Malformed);
      }
      columnCount := FromLittleEndian(p.body[5..7]);
      paramCount := FromLittleEndian(p.body[7..9]);
      if p.header.size > 12 {
        if |p.body| < 12 {
          return Panic(Malformed);
        }
        metadataFollows := p.body[11] == 1;
      }
      if !metadataFollows && c.clientFlag.None? {
        return Panic(NoHandshakeResponse);
      }
      if !metadataFollows && HasBit(c.clientFlag.value, OPTIONAL_METADATA) {
        state := Complete;
        got := Consume(p, c);
      } else {
        state := MetaExchange;
        got := Done((p, c.phase));
      }
    }

    method HydrateParam(p: Packet, c: Context) returns (got: Consumed)
      requires c.command.Some? && c.command.value.code == COM_STMT_PREPARE && state == HydrateParams
      modifies this
      ensures As(RespondPrepare(old(View()), p, c), View(), got)
      decreases Rank(state, c), 0
    {
      hide ColumnFromBody, RespondRow;
      var param := ColumnFromBody(p.body);
      if param.Panic? {
        return Panic(param.fault);
      }
      params := params + [param.value];
      got := Done((p, c.phase));
      if |params| == paramCount {
        if columnCount > 0 {
          state := HydrateColumns;
        } else {
          state := Complete;
          got := Consume(p, c);
        }
      }
    }

    method HydratePreparedColumn(p: Packet, c: Context) returns (got: Consumed)
      requires c.command.Some? && c.command.value.code == COM_STMT_PREPARE && state == HydrateColumns
      modifies this
      ensures As(RespondPrepare(old(View()), p, c), View(), got)
      decreases Rank(state, c), 0
    {
      hide ColumnFromBody;
      var column := ColumnFromBody(p.body);
      if column.Panic? {
        return Panic(column.fault);
      }
      columns := columns + [column.value];
      got := Done((p, c.phase));
      if |columns| == columnCount {
        state := Complete;
        got := Consume(p, c);
      }
    }
  }

  /** One round of the rewriting loop overrides at most the column it visits. */
  lemma OverrideStep(columns: seq<Column>, row: Row, a: Option<Assigned>, i: nat, n: nat)
    requires i < n <= |columns| && columns[i].orgName in row
    ensures var name := columns[i].orgName;
      var before := OverrideFirst(columns, row, a, i);
      && OverrideFirst(columns, row, a, i + 1)
         == (if a.Some? && name in a.value then before[name := a.value[name]] else before)
      && OverrideFirst(columns, row, a, n)[name]
         == (if a.Some? && name in a.value then a.value[name] else before[name])
  {
  }

  lemma OverrideNone(columns: seq<Column>, row: Row, a: Option<Assigned>)
    ensures OverrideFirst(columns, row, a, 0) == row
  {
  }

  lemma EncodeNothing()
    ensures EncodeRow([]) == []
  {
  }

  lemma EncodeSingleton(f: Field)
    ensures EncodeRow([f]) == EncodeField(f)
  {
    var none: seq<Field> := [];
    assert [f][1..] == none;
  }

  function Prepend(fs: seq<Field>, rest: Outcome<seq<Field>>): Outcome<seq<Field>> {
    var r :- rest; Done(fs + r)
  }

  lemma PrependNone(rest: Outcome<seq<Field>>)
    ensures Prepend([], rest) == rest
  {
    if rest.Done? {
      assert [] + rest.value == rest.value;
    }
  }

  lemma PrependDone(fs: seq<Field>, bytes: seq<byte>)
    requires bytes == []
    ensures Prepend(fs, ParseFields(bytes)) == Done(fs)
  {
    assert fs + [] == fs;
  }

  /** A field beyond the last column makes the row unparsable. */
  lemma PrependTooMany(fs: seq<Field>, bytes: seq<byte>)
    requires bytes != []
    ensures var r := Prepend(fs, ParseFields(bytes)); r == Panic(Malformed) || (r.Done? && |r.value| > |fs|)
  {
    hide NextField;
  }

  lemma FieldPanics(fs: seq<Field>, bytes: seq<byte>)
    requires bytes != [] && NextField(bytes).Panic?
    ensures Prepend(fs, ParseFields(bytes)) == Panic(Malformed)
  {
    hide NextField;
  }

  lemma PrependStep(fs: seq<Field>, f: Field, bytes: seq<byte>, width: nat)
    requires bytes != [] && NextField(bytes) == Done(Decoded(f, width))
    ensures Prepend(fs, ParseFields(bytes)) == Prepend(fs + [f], ParseFields(bytes[width..]))
  {
    hide NextField;
    var rest := ParseFields(bytes[width..]);
    if rest.Done? {
      assert fs + ([f] + rest.value) == fs + [f] + rest.value;
    }
  }

  lemma {:induction false} PanicPropagates(row: Row, log: Log, i: nat)
    requires i < |log| && LastMatch(row, log[..i]).Done? && Matches(row, log[i]).Panic?
    ensures LastMatch(row, log) == Panic(Matches(row, log[i]).fault)
    decreases |log|
  {
    var n := |log| - 1;
    if i < n {
      assert log[..n][..i] == log[..i];
      PanicPropagates(row, log[..n], i);
    }
  }
}
