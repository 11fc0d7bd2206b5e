/** What an intercepted UPDATE changes for the rows a client sees afterwards. */
module Interceptions {
  import opened Outcomes
  import opened Bytes
  import opened Packets
  import opened Evaluator
  import opened DiffLog
  import opened Rows
  import opened Connections
  import opened Exchanges
  import opened ClientView

  /** A connection whose client has just sent one supported UPDATE of a table. */
  predicate Updating(c: Conn, p: Packet, table: Text, assignments: seq<Assignment>, condition: Option<Expr>) {
    && c.phase == PendingResponse && c.clientFlag.Some? && HasBit(c.clientFlag.value, PROTOCOL_41)
    && c.lastCommand.Some? && IsWrite(c.lastCommand.value, p)
    && c.lastCommand.value.ast == Some([Update(Some(table), assignments, condition)])
    && Processed(assignments).Some?
  }

  lemma OneMoreEntry(tables: DiffMap, table: Text, assignments: seq<Assignment>, condition: Option<Expr>)
    requires Processed(assignments).Some?
    ensures DiffAfter(tables, [Update(Some(table), assignments, condition)])
         == tables[table := LogOf(tables, table) + [Entry(condition, Processed(assignments).value)]]
  {
    var statements := [Update(Some(table), assignments, condition)];
    assert statements[1..] == [];
  }

  lemma LastEntryMatches(row: Row, log: Log, e: Entry)
    requires LastMatch(row, log).Done? && Matches(row, e).Done?
    ensures LastMatch(row, log + [e]) == if Matches(row, e).value then Done(Some(e.assignments))
        else LastMatch(row, log)
  {
    assert (log + [e])[..|log|] == log;
  }

  /** What is shown for a row of the server when one more entry follows a log: its assignments if it
      matches the row, what the log had for it otherwise, and nothing if the query's condition is
      then false. */
  function ShownAfter(columns: seq<Column>, log: Log, e: Entry, selection: Option<Expr>,
      fs: seq<Field>): seq<seq<Field>>
    requires |fs| <= |columns|
    requires LastMatch(RowOf(columns, WidenAll(fs)), log).Done? && Matches(RowOf(columns, WidenAll(fs)), e).Done?
  {
    var row := RowOf(columns, WidenAll(fs));
    var a := if Matches(row, e).value then Some(e.assignments) else LastMatch(row, log).value;
    if Dropped(OverriddenBy(row, a), selection) == Done(true) then [] else [Replaced(columns, WidenAll(fs), a)]
  }

  lemma SurvivorAfter(columns: seq<Column>, log: Log, e: Entry, selection: Option<Expr>, fs: seq<Field>)
    requires |fs| <= |columns| && LastMatch(RowOf(columns, WidenAll(fs)), log + [e]).Done?
    ensures LastMatch(RowOf(columns, WidenAll(fs)), log).Done? && Matches(RowOf(columns, WidenAll(fs)), e).Done?
    ensures Survivor(columns, Some(log + [e]), selection, fs) == ShownAfter(columns, log, e, selection, fs)
  {
    hide RowOf, Matches, Dropped;
    assert (log + [e])[..|log|] == log;
    LastEntryMatches(RowOf(columns, WidenAll(fs)), log, e);
  }

  /** An intercepted UPDATE is acknowledged and returns the connection to the command phase. In the
      log it leaves, the rows of its table that satisfy its condition as the server has them are
      shown with its assignments, and no longer with those of an earlier match; all other rows are
      overridden as before, and the logs of other tables stay as they are. */
  lemma UpdateIsSeen(c: Conn, p: Packet, counter: byte, table: Text, assignments: seq<Assignment>,
      condition: Option<Expr>,
                     columns: seq<Column>, fs: seq<Field>, selection: Option<Expr>)
    requires Updating(c, p, table, assignments, condition)
    requires columns != [] && columns[0].orgTable == table && |fs| <= |columns|
    requires LastMatch(RowOf(columns, WidenAll(fs)), LogOf(c.diff, table)).Done?
    requires Matches(RowOf(columns, WidenAll(fs)), Entry(condition, Assignments(assignments))).Done?
    ensures var r := Intercept(c, [p], counter);
      && r.Done? && r.value.1.Some? && r.value.0.phase == Phase.Command
      && (forall t | t != table :: (t in r.value.0.diff <==> t in c.diff))
      && (forall t | t != table :: LogOf(r.value.0.diff, t) == LogOf(c.diff, t))
      && Survivor(columns, TableLog(columns, r.value.0.diff), selection, fs)
         == ShownAfter(columns, LogOf(c.diff, table), Entry(condition, Assignments(assignments)), selection, fs)
  {
    hide RowOf, DiffAfter, LastMatch, Matches, IsWrite, WriteResponse, Assignments, Dropped;
    var e := Entry(condition, Assignments(assignments));
    OneMoreEntry(c.diff, table, assignments, condition);
    WriteIsAcknowledged(c.lastCommand.value, p.header.seqNo, c.clientFlag.value, counter, PendingResponse, []);
    LastEntryMatches(RowOf(columns, WidenAll(fs)), LogOf(c.diff, table), e);
    SurvivorAfter(columns, LogOf(c.diff, table), e, selection, fs);
  }
}
