/** What a condition decides for a row: whether a logged UPDATE applies to it, and whether a query
    drops it (src/mysql/accumulator/result_set.rs:125-171). */
module Verdicts {
  import opened Outcomes
  import opened Bytes
  import opened Evaluator
  import opened SqlLogic
  import opened DiffLog
  import opened Rows
  import opened Responses

  /** On safely compared conditions an UPDATE applies to the rows SQL selects by its condition. */
  lemma MatchesMeansSql(row: Row, condition: Expr, a: Assigned)
    requires Condition(condition) && Mentions(condition) <= row.Keys && SafelyCompared(row, condition)
    ensures Matches(row, Entry(Some(condition), a)) == Done(Sql(row, condition) == True)
    ensures Matches(row, Entry(None, a)) == Done(true)
  {
    EvaluatorRefinesSql(row, condition);
    ConditionsAreDecided(row, condition);
  }

  /** On safely compared conditions a query drops the rows SQL does not select. */
  lemma DroppedMeansSql(row: Row, condition: Expr)
    requires Condition(condition) && Mentions(condition) <= row.Keys && SafelyCompared(row, condition)
    ensures Dropped(row, Some(condition)) == Done(Sql(row, condition) != True)
    ensures Dropped(row, None) == Done(false)
  {
    EvaluatorRefinesSql(row, condition);
    ConditionsAreDecided(row, condition);
  }

  /** A condition that reaches an expression of an unsupported kind (LIKE, IN, NOT and others) matches
      no row and drops none. */
  lemma UnsupportedDecidesNothing(row: Row, condition: Expr, a: Assigned)
    requires Evaluate(row, condition).Done? && ReachesUnsupported(row, condition)
    ensures Matches(row, Entry(Some(condition), a)) == Done(false) && Dropped(row, Some(condition)) == Done(false)
  {
    ErrIffUnsupported(row, condition);
  }

  /** A bare column or text as the whole condition matches no row and drops none. */
  lemma TextDecidesNothing(row: Row, condition: Expr, a: Assigned)
    requires Evaluate(row, condition).Done? && Textual(condition)
    ensures Matches(row, Entry(Some(condition), a)) == Done(false) && Dropped(row, Some(condition)) == Done(false)
  {
    TextsEvaluate(row, condition);
  }

  lemma {:induction false} TextsEvaluate(row: Row, e: Expr)
    requires Textual(e) && Evaluate(row, e).Done?
    ensures Evaluate(row, e).value.Str?
  {
    if e.Nested? {
      TextsEvaluate(row, e.arg);
    }
  }

  /** The condition a query's rows are tested by is that of the command's last statement, if it is a
      plain SELECT with one; earlier statements do not matter. */
  lemma LastSelectionCounts(code: byte, arg: Text, before: seq<Statement>, last: Statement)
    ensures SelectionOf(Responses.Command.Command(code, arg, None)) == None
    ensures SelectionOf(Responses.Command.Command(code, arg, Some([]))) == None
    ensures var command := Responses.Command.Command(code, arg, Some(before + [last]));
      && (!last.Query? ==> SelectionOf(command) == None)
      && (last.Query? && last.select == None ==> SelectionOf(command) == None)
      && forall s, from :: last == Query(Some(Select(s, from))) ==> SelectionOf(command) == s
  {
  }
}
