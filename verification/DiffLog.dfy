/** The log of UPDATE statements the proxy applies to later result sets (src/materialization/mod.rs). */
module DiffLog {
  import opened Outcomes
  import opened Bytes
  import opened Evaluator

  /** Assigned columns and their new values. */
  type Assigned = map<Text, Option<Text>>

  datatype Entry = Entry(selection: Option<Expr>, assignments: Assigned)

  /** Entries of a table in insertion order. */
  type Log = seq<Entry>

  type DiffMap = map<Text, Log>

  /** `target` is absent for a tuple target. */
  datatype Assignment = Assignment(target: Option<Text>, value: Expr)

  datatype Select = Select(selection: Option<Expr>, hasFrom: bool)

  /** `table` is absent when an UPDATE's relation is not a plain table; `select` when a query's
      body is not a plain SELECT. */
  datatype Statement =
    | Update(table: Option<Text>, assignments: seq<Assignment>, selection: Option<Expr>)
    | Query(select: Option<Select>)
    | OtherStatement

  predicate Supported(a: Assignment) {
    a.value.Literal? && a.target.Some?
  }

  /** `Value::into_string`: only string literals carry text. */
  function LiteralText(v: Value): Option<Text> {
    if v.StringLiteral? then Some(v.text) else None
  }

  /** The last assignment to a column wins. */
  function Assignments(xs: seq<Assignment>): Assigned
    requires forall i :: 0 <= i < |xs| ==> Supported(xs[i])
  {
    if xs == [] then map[] else
    var last := xs[|xs| - 1];
    assert Supported(last);
    Assignments(xs[..|xs| - 1])[last.target.value := LiteralText(last.value.value)]
  }

  function Processed(xs: seq<Assignment>): Option<Assigned> {
    if forall i :: 0 <= i < |xs| ==> Supported(xs[i]) then Some(Assignments(xs)) else None
  }

  function LogOf(tables: DiffMap, table: Text): Log {
    if table in tables then tables[table] else []
  }

  /** The log after the statements of one command; an unsupported assignment ends the scan. */
  function DiffAfter(tables: DiffMap, statements: seq<Statement>): DiffMap
    decreases |statements|
  {
    if statements == [] then tables else
    var s, rest := statements[0], statements[1..];
    if !s.Update? || s.table.None? then DiffAfter(tables, rest)
    else match Processed(s.assignments)
      case None => tables
      case Some(a) =>
        DiffAfter(tables[s.table.value := LogOf(tables, s.table.value) + [Entry(s.selection, a)]], rest)
  }

  method ProcessAssignments(xs: seq<Assignment>) returns (r: Option<Assigned>)
    ensures r == Processed(xs)
  {
    var processed: Assigned := map[];
    for i := 0 to |xs|
      invariant forall k :: 0 <= k < i ==> Supported(xs[k])
      invariant processed == Assignments(xs[..i])
    {
      if !Supported(xs[i]) {
        return None;
      }
      assert xs[..i + 1][..i] == xs[..i];
      processed := processed[xs[i].target.value := LiteralText(xs[i].value.value)];
    }
    assert xs[..|xs|] == xs;
    r := Some(processed);
  }

  /** The shared log; every connection appends to it. */
  class StateDiffLog {
    var tables: DiffMap

    constructor ()
      ensures tables == map[]
    {
      tables := map[];
    }

    method GetDiff(ast: Option<seq<Statement>>)
      modifies this
      ensures tables == match ast case None => old(tables) case Some(ss) => DiffAfter(old(tables), ss)
    {
      if ast.None? {
        return;
      }
      var statements := ast.value;
      for i := 0 to |statements|
        invariant DiffAfter(tables, statements[i..]) == DiffAfter(old(tables), statements)
      {
        var s := statements[i];
        if s.Update? && s.table.Some? {
          var a := ProcessAssignments(s.assignments);
          if a.None? {
            return;
          }
          UpdateDiffLog(s.selection, s.table.value, a.value);
        }
      }
    }

    method UpdateDiffLog(selection: Option<Expr>, table: Text, changes: Assigned)
      modifies this
      ensures tables == old(tables)[table := LogOf(old(tables), table) + [Entry(selection, changes)]]
    {
      if table !in tables {
        tables := tables[table := []];
      }
      tables := tables[table := tables[table] + [Entry(selection, changes)]];
    }
  }

  /** The statements up to the first UPDATE the log cannot represent. */
  function Scanned(statements: seq<Statement>): seq<Statement> {
    if statements == [] then []
    else if statements[0].Update? && statements[0].table.Some? && Processed(statements[0].assignments).None? then []
    else [statements[0]] + Scanned(statements[1..])
  }

  /** The entries some statements contribute to one table. */
  function EntriesFor(statements: seq<Statement>, table: Text): Log {
    if statements == [] then [] else
    var s := statements[0];
    (if s.Update? && s.table == Some(table) && Processed(s.assignments).Some?
     then [Entry(s.selection, Processed(s.assignments).value)] else [])
    + EntriesFor(statements[1..], table)
  }

  /** The log of every table only grows, by the entries of the scanned statements, in order. */
  lemma {:induction false} LogGrows(tables: DiffMap, statements: seq<Statement>, table: Text)
    ensures LogOf(DiffAfter(tables, statements), table)
         == LogOf(tables, table) + EntriesFor(Scanned(statements), table)
    decreases |statements|
  {
    hide Processed;
    if statements != [] {
      var s, rest := statements[0], statements[1..];
      if s.Update? && s.table.Some? && Processed(s.assignments).None? {
        assert Scanned(statements) == [];
      } else {
        assert Scanned(statements)[1..] == Scanned(rest);
        if s.Update? && s.table.Some? {
          var e := Entry(s.selection, Processed(s.assignments).value);
          LogGrows(tables[s.table.value := LogOf(tables, s.table.value) + [e]], rest, table);
        } else {
          LogGrows(tables, rest, table);
        }
      }
    }
  }

  lemma AssignmentsStep(xs: seq<Assignment>)
    requires xs != [] && forall i :: 0 <= i < |xs| ==> Supported(xs[i])
    ensures var n := |xs| - 1; var last := xs[n];
      && (forall i :: 0 <= i < n ==> Supported(xs[..n][i]))
      && Supported(last)
      && Assignments(xs) == Assignments(xs[..n])[last.target.value := LiteralText(last.value.value)]
  {
  }

  /** Of several assignments to a column the last one counts, and no other column is assigned. */
  lemma {:induction false} LastAssignmentWins(xs: seq<Assignment>, column: Text)
    requires forall i :: 0 <= i < |xs| ==> Supported(xs[i])
    ensures column in Assignments(xs) <==> exists i :: 0 <= i < |xs| && xs[i].target == Some(column)
    ensures forall i | 0 <= i < |xs| && xs[i].target == Some(column)
        && (forall j :: i < j < |xs| ==> xs[j].target != Some(column)) ::
      column in Assignments(xs) && Assignments(xs)[column] == LiteralText(xs[i].value.value)
    decreases |xs|
  {
    if xs == [] {
      assert Assignments(xs) == map[];
    } else {
      hide Assignments;
      var n := |xs| - 1;
      AssignmentsStep(xs);
      LastAssignmentWins(xs[..n], column);
      if xs[n].target != Some(column) {
        assert forall i :: 0 <= i < n ==> xs[..n][i] == xs[i];
      }
    }
  }

  /** Assignments are refused as a whole if and only if one of them has a tuple for a target or
      anything but a literal for a value. */
  lemma RefusedAssignments(xs: seq<Assignment>)
    ensures Processed(xs).None? <==> exists i :: 0 <= i < |xs| && (xs[i].target.None? || !xs[i].value.Literal?)
  {
    if i :| 0 <= i < |xs| && (xs[i].target.None? || !xs[i].value.Literal?) {
      assert !Supported(xs[i]);
    }
    assert forall i :: 0 <= i < |xs| && !Supported(xs[i]) ==> xs[i].target.None? || !xs[i].value.Literal?;
  }

  /** A logged assignment carries the value its literal evaluates to exactly for string literals
      and NULL; a number or boolean is logged as NULL. */
  lemma LoggedValueIsEvaluatedValue(v: Value)
    ensures EvaluateLiteral(v) == Done(Str(LiteralText(v))) <==> v.StringLiteral? || v.NullLiteral?
    ensures v.NumberLiteral? || v.BooleanLiteral? || v.Placeholder? ==> LiteralText(v) == None
  {
  }

  /** Does an entry apply to a row? Only an absent or true selection does. */
  function Matches(row: Row, e: Entry): (r: Outcome<bool>)
    ensures r.Panic? ==> r.fault in {Malformed, Unsupported}
  {
    match e.selection
    case None => Done(true)
    case Some(s) => var v :- Evaluate(row, s); Done(v == Boolean(true))
  }

  /** The assignments of the last entry matching `row`: what the proxy overrides a row with. */
  function LastMatch(row: Row, log: Log): (r: Outcome<Option<Assigned>>)
    ensures r.Panic? ==> r.fault in {Malformed, Unsupported}
  {
    if log == [] then Done(None) else
    var earlier :- LastMatch(row, log[..|log| - 1]);
    var m :- Matches(row, log[|log| - 1]);
    Done(if m then Some(log[|log| - 1].assignments) else earlier)
  }

  /** The row with its assigned columns replaced; columns the row does not have are ignored. */
  function Overridden(row: Row, a: Assigned): Row {
    map c | c in row :: if c in a then a[c] else row[c]
  }

  function OverriddenBy(row: Row, a: Option<Assigned>): Row {
    match a case None => row case Some(x) => Overridden(row, x)
  }

  /** The reference: apply every logged UPDATE in order, each testing the row left by the ones before. */
  function Replayed(row: Row, log: Log): Outcome<Row> {
    if log == [] then Done(row) else
    var before :- Replayed(row, log[..|log| - 1]);
    var e := log[|log| - 1];
    var m :- Matches(before, e);
    Done(if m then Overridden(before, e.assignments) else before)
  }

  /** What sequential replay assigns, later entries winning. */
  function Applied(row: Row, log: Log): Assigned {
    if log == [] then map[] else
    var e, earlier := log[|log| - 1], Applied(row, log[..|log| - 1]);
    if Matches(Overridden(row, earlier), e) == Done(true) then earlier + e.assignments else earlier
  }

  /** All assignments of entries matching the original row, later ones winning. */
  function Merged(row: Row, log: Log): Assigned {
    if log == [] then map[] else
    var e, earlier := log[|log| - 1], Merged(row, log[..|log| - 1]);
    if Matches(row, e) == Done(true) then earlier + e.assignments else earlier
  }

  /** Sequential replay is one override by what it assigns. */
  lemma {:induction false} ReplayIsApplied(row: Row, log: Log)
    requires Replayed(row, log).Done?
    ensures Replayed(row, log) == Done(Overridden(row, Applied(row, log)))
    decreases |log|
  {
    if log == [] {
      assert Overridden(row, map[]) == row;
    } else {
      var n := |log| - 1;
      ReplayIsApplied(row, log[..n]);
      var earlier := Applied(row, log[..n]);
      assert Overridden(Overridden(row, earlier), log[n].assignments) == Overridden(row, earlier + log[n].assignments);
    }
  }

  /** Value of a column under some assignments. */
  function Shown(row: Row, a: Assigned, c: Text): Option<Text>
    requires c in row
  {
    if c in a then a[c] else row[c]
  }

  /** The single override and the sequential replay, compared column by column. */
  lemma OverrideIsReplay(row: Row, log: Log)
    requires LastMatch(row, log).Done?
    ensures var last := LastMatch(row, log).value;
      Replayed(row, log) == Done(OverriddenBy(row, last)) <==>
        && Replayed(row, log).Done?
        && forall c | c in row ::
             Shown(row, Applied(row, log), c) == Shown(row, if last.Some? then last.value else map[], c)
  {
    var last: Assigned := match LastMatch(row, log).value case None => map[] case Some(a) => a;
    assert OverriddenBy(row, LastMatch(row, log).value) == Overridden(row, last);
    if Replayed(row, log).Done? {
      ReplayIsApplied(row, log);
      var full, single := Overridden(row, Applied(row, log)), Overridden(row, last);
      assert full.Keys == single.Keys == row.Keys;
      assert full == single <==> forall c | c in row :: full[c] == single[c];
    }
  }

  /** Every entry decides on the row as replayed so far as it does on the original row. */
  predicate TestedAlike(row: Row, log: Log) {
    log != [] ==>
      var n := |log| - 1;
      && TestedAlike(row, log[..n])
      && Matches(Overridden(row, Applied(row, log[..n])), log[n]) == Matches(row, log[n])
  }

  /** Entries that decide alike can be tested against the original row and applied at once. */
  lemma {:induction false} ReplayIsMerge(row: Row, log: Log)
    requires TestedAlike(row, log) && LastMatch(row, log).Done?
    ensures Applied(row, log) == Merged(row, log)
    ensures Replayed(row, log) == Done(Overridden(row, Merged(row, log)))
    decreases |log|
  {
    if log == [] {
      assert Overridden(row, map[]) == row;
    } else {
      ReplayIsMerge(row, log[..|log| - 1]);
      ReplayIsApplied(row, log);
    }
  }

  /** The last match has the last word on the columns it assigns. */
  lemma {:induction false} LastMatchIsMerged(row: Row, log: Log)
    requires LastMatch(row, log).Done?
    ensures LastMatch(row, log).value.None? ==> Merged(row, log) == map[]
    ensures forall c | LastMatch(row, log).value.Some? && c in LastMatch(row, log).value.value ::
      c in Merged(row, log) && Merged(row, log)[c] == LastMatch(row, log).value.value[c]
    decreases |log|
  {
    hide Matches;
    if log != [] {
      LastMatchIsMerged(row, log[..|log| - 1]);
    }
  }

  /** Sequential replay: for entries that decide alike, overriding with the last match alone is the
      same as replaying every UPDATE if and only if each column assigned only by earlier matches
      ends up with the value it already had. */
  lemma LastMatchIsReplay(row: Row, log: Log)
    requires TestedAlike(row, log) && LastMatch(row, log).Done?
    ensures Replayed(row, log) == Done(OverriddenBy(row, LastMatch(row, log).value)) <==>
      forall c | c in row && c in Merged(row, log) ::
        (LastMatch(row, log).value.Some? && c in LastMatch(row, log).value.value) || Merged(row, log)[c] == row[c]
  {
    hide LastMatch, Replayed, Merged, Applied, TestedAlike;
    OverrideIsReplay(row, log);
    ReplayIsMerge(row, log);
    LastMatchIsMerged(row, log);
  }

  /** No logged selection mentions a column an earlier entry assigns. */
  predicate Independent(log: Log) {
    forall i, j :: 0 <= j < i < |log| && log[i].selection.Some? ==>
      Mentions(log[i].selection.value) !! log[j].assignments.Keys
  }

  lemma {:induction false} AppliedKeys(row: Row, log: Log, c: Text)
    requires c in Applied(row, log)
    ensures exists j :: 0 <= j < |log| && c in log[j].assignments
    decreases |log|
  {
    var n := |log| - 1;
    if c !in log[n].assignments {
      AppliedKeys(row, log[..n], c);
      var j :| 0 <= j < n && c in log[..n][j].assignments;
      assert c in log[j].assignments;
    }
  }

  /** Independent entries decide alike on every row: a log of one entry always does. */
  lemma {:induction false} IndependentIsTestedAlike(row: Row, log: Log)
    requires Independent(log)
    ensures TestedAlike(row, log)
    decreases |log|
  {
    if log != [] {
      var n := |log| - 1;
      var earlier := Applied(row, log[..n]);
      IndependentIsTestedAlike(row, log[..n]);
      if log[n].selection.Some? {
        forall c | c in Mentions(log[n].selection.value) ensures c !in earlier {
          if c in earlier {
            AppliedKeys(row, log[..n], c);
          }
        }
        EvaluationFrame(Overridden(row, earlier), row, log[n].selection.value);
      }
    }
  }

  /** Without independence the single override is wrong: an entry whose selection is enabled or
      disabled by an earlier assignment is tested on the stale row. */
  lemma ReplayNeedsIndependence(a: Text, x: Text, y: Text, z: Text)
    requires x != y && y != z
    ensures var row: Row := map[a := Some(x)];
      var whenY := BinaryOp(Identifier(a), Eq, Literal(StringLiteral(y)));
      var log := [Entry(None, map[a := Some(y)]), Entry(Some(whenY), map[a := Some(z)])];
      && LastMatch(row, log) == Done(Some(map[a := Some(y)]))
      && Replayed(row, log) == Done(map[a := Some(z)])
  {
    var row: Row := map[a := Some(x)];
    var whenY := BinaryOp(Identifier(a), Eq, Literal(StringLiteral(y)));
    var first := Entry(None, map[a := Some(y)]);
    var log := [first, Entry(Some(whenY), map[a := Some(z)])];
    assert log[..1] == [first] && [first][..0] == [];
    assert Evaluate(row, whenY) == Done(Boolean(false));
    var mid: Row := Overridden(row, map[a := Some(y)]);
    assert mid == map[a := Some(y)] && Evaluate(mid, whenY) == Done(Boolean(true));
    assert Overridden(mid, map[a := Some(z)]) == map[a := Some(z)];
    assert LastMatch(row, [first]) == Done(Some(map[a := Some(y)]));
    assert Replayed(row, [first]) == Done(mid);
  }
}
