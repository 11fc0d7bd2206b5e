/** The two-valued WHERE evaluator (src/materialization/evaluator.rs). */
module Evaluator {
  import opened Outcomes
  import opened Bytes

  /** A decoded row: column name to value, `None` being SQL NULL. */
  type Row = map<Text, Option<Text>>

  datatype Value =
    | BooleanLiteral(b: bool) | NumberLiteral(digits: Text) | StringLiteral(text: Text) | NullLiteral | Placeholder

  datatype Operator = And | Or | Eq | NotEq | Lt | LtEq | Gt | GtEq | OtherOperator

  datatype Expr =
    | BinaryOp(left: Expr, op: Operator, right: Expr)
    | Literal(value: Value)
    | Identifier(name: Text)
    | CompoundIdentifier(names: seq<Text>)
    | IsNull(arg: Expr)
    | IsNotNull(arg: Expr)
    | Nested(arg: Expr)
    | UnsupportedExpr

  /** `Err` is the evaluator's error return, as opposed to a panic. */
  datatype ParseResult = Boolean(b: bool) | Str(s: Option<Text>) | Err

  predicate Connective(op: Operator) {
    op in {And, Or}
  }

  predicate Comparison(op: Operator) {
    op in {Eq, NotEq, Lt, LtEq, Gt, GtEq}
  }

  /** Rust's order on strings: lexicographic on the UTF-8 bytes. */
  predicate Less(a: Text, b: Text) {
    b != [] && (a == [] || a[0] < b[0] || (a[0] == b[0] && Less(a[1..], b[1..])))
  }

  function Evaluate(row: Row, e: Expr): (r: Outcome<ParseResult>)
    ensures r.Panic? ==> r.fault in {Malformed, Unsupported}
  {
    match e
    case BinaryOp(l, op, r) =>
      if Connective(op) then
        var a :- Evaluate(row, l);
        if a.Err? then Done(Err)
        else if op == And && a == Boolean(false) then Done(Boolean(false))
        else if op == Or && a == Boolean(true) then Done(Boolean(true))
        else
          var b :- Evaluate(row, r);
          if b.Str? then Panic(Unsupported) else Done(b)
      else if Comparison(op) then
        var a :- Evaluate(row, l);
        if a.Err? then Done(Err) else
        var b :- Evaluate(row, r);
        if b.Err? then Done(Err) else Done(Boolean(Compare(a, op, b)))
      else Panic(Unsupported)
    case Literal(v) => EvaluateLiteral(v)
    case Identifier(name) => var v :- Lookup(row, name); Done(Str(v))
    case CompoundIdentifier(names) =>
      if names == [] then Panic(Malformed) else
      var v :- Lookup(row, names[|names| - 1]); Done(Str(v))
    case IsNull(arg) => var a :- Evaluate(row, arg); Done(if a.Err? then Err else Boolean(a == Str(None)))
    case IsNotNull(arg) => var a :- Evaluate(row, arg); Done(if a.Err? then Err else Boolean(a.Str? && a.s.Some?))
    case Nested(arg) => Evaluate(row, arg)
    case UnsupportedExpr => Done(Err)
  }

  function EvaluateLiteral(v: Value): Outcome<ParseResult> {
    match v
    case BooleanLiteral(b) => Done(Boolean(b))
    case NumberLiteral(t) => Done(Str(Some(t)))
    case StringLiteral(t) => Done(Str(Some(t)))
    case NullLiteral => Done(Str(None))
    case Placeholder => Panic(Unsupported)
  }

  function Lookup(row: Row, name: Text): Outcome<Option<Text>> {
    if name in row then Done(row[name]) else Panic(Malformed)
  }

  /** Equality compares like with like, NULL included; the orders are false on anything but strings. */
  predicate Compare(a: ParseResult, op: Operator, b: ParseResult)
    requires !a.Err? && !b.Err? && Comparison(op)
  {
    if op == Eq then a == b
    else if op == NotEq then a != b
    else a.Str? && b.Str? && a.s.Some? && b.s.Some? && Ordered(a.s.value, op, b.s.value)
  }

  predicate Ordered(x: Text, op: Operator, y: Text)
    requires op in {Lt, LtEq, Gt, GtEq}
  {
    match op
    case Lt => Less(x, y)
    case LtEq => !Less(y, x)
    case Gt => Less(y, x)
    case GtEq => !Less(x, y)
  }

  /** After a common prefix the first byte that differs decides, or the end of the shorter text. */
  lemma {:induction false} FirstDifferenceDecides(p: Text, a: Text, b: Text)
    requires b != [] && (a == [] || a[0] < b[0])
    ensures Ordered(p + a, Lt, p + b) && Ordered(p + a, LtEq, p + b)
    ensures !Ordered(p + a, Gt, p + b) && !Ordered(p + a, GtEq, p + b)
    ensures Ordered(p + b, Gt, p + a) && Ordered(p + b, GtEq, p + a)
    ensures !Ordered(p + b, Lt, p + a) && !Ordered(p + b, LtEq, p + a)
    decreases |p|
  {
    if p == [] {
      assert p + a == a && p + b == b;
    } else {
      assert (p + a)[1..] == p[1..] + a && (p + b)[1..] == p[1..] + b;
      FirstDifferenceDecides(p[1..], a, b);
    }
  }

  lemma {:induction false} NotBeforeItself(a: Text)
    ensures !Ordered(a, Lt, a) && !Ordered(a, Gt, a) && Ordered(a, LtEq, a) && Ordered(a, GtEq, a)
  {
    if a != [] {
      NotBeforeItself(a[1..]);
    }
  }

  /** Columns an expression mentions. */
  function Mentions(e: Expr): set<Text> {
    match e
    case BinaryOp(l, _, r) => Mentions(l) + Mentions(r)
    case Literal(_) => {}
    case Identifier(name) => {name}
    case CompoundIdentifier(names) => if names == [] then {} else {names[|names| - 1]}
    case IsNull(arg) => Mentions(arg)
    case IsNotNull(arg) => Mentions(arg)
    case Nested(arg) => Mentions(arg)
    case UnsupportedExpr => {}
  }

  predicate AgreeOn(r: Row, s: Row, names: set<Text>) {
    forall c | c in names :: (c in r <==> c in s) && (c in r ==> r[c] == s[c])
  }

  /** Frame property: the outcome, panics included, depends on the mentioned columns only. */
  lemma {:induction false} EvaluationFrame(r: Row, s: Row, e: Expr)
    requires AgreeOn(r, s, Mentions(e))
    ensures Evaluate(r, e) == Evaluate(s, e)
  {
    match e
    case BinaryOp(l, op, right) =>
      EvaluationFrame(r, s, l);
      EvaluationFrame(r, s, right);
    case IsNull(arg) => EvaluationFrame(r, s, arg);
    case IsNotNull(arg) => EvaluationFrame(r, s, arg);
    case Nested(arg) => EvaluationFrame(r, s, arg);
    case _ =>
  }

  /** What evaluation needs to go on: a column of the row, or something that never helps. */
  datatype Need = HasColumn(name: Text) | Impossible

  /** What the evaluation of an expression on a row comes to need: the columns it looks up before it
      is cut short, and the impossible where it reaches an operator or literal it does not handle, or
      finds a text right of a connective. */
  function Needs(row: Row, e: Expr): set<Need> {
    match e
    case BinaryOp(l, op, r) =>
      if !Connective(op) && !Comparison(op) then {Impossible}
      else if CutShort(op, Evaluate(row, l)) then Needs(row, l)
      else if Connective(op) && TextResult(Evaluate(row, r)) then {Impossible}
      else Needs(row, l) + Needs(row, r)
    case Literal(v) => if v.Placeholder? then {Impossible} else {}
    case Identifier(name) => {HasColumn(name)}
    case CompoundIdentifier(names) => if names == [] then {Impossible} else {HasColumn(names[|names| - 1])}
    case IsNull(arg) => Needs(row, arg)
    case IsNotNull(arg) => Needs(row, arg)
    case Nested(arg) => Needs(row, arg)
    case UnsupportedExpr => {}
  }

  /** Does the left operand alone settle the result? */
  predicate CutShort(op: Operator, left: Outcome<ParseResult>) {
    left == Done(Err) || (op == And && left == Done(Boolean(false))) || (op == Or && left == Done(Boolean(true)))
  }

  predicate TextResult(r: Outcome<ParseResult>) {
    r.Done? && r.value.Str?
  }

  predicate AllMet(row: Row, needs: set<Need>) {
    forall n | n in needs :: n.HasColumn? && n.name in row
  }

  lemma MetTogether(row: Row, a: set<Need>, b: set<Need>)
    ensures AllMet(row, a + b) <==> AllMet(row, a) && AllMet(row, b)
  {
  }

  /** Any expression on any row: the evaluator panics if and only if a need of it is not met. */
  lemma {:induction false} PanicsIffUnmet(row: Row, e: Expr)
    ensures Evaluate(row, e).Done? <==> AllMet(row, Needs(row, e))
  {
    match e
    case BinaryOp(l, op, r) =>
      PanicsIffUnmet(row, l);
      PanicsIffUnmet(row, r);
      MetTogether(row, Needs(row, l), Needs(row, r));
      assert !AllMet(row, {Impossible}) by {
        assert Impossible in {Impossible};
      }
    case Literal(v) =>
      assert v.Placeholder? ==> Impossible in Needs(row, e);
    case Identifier(name) =>
      assert HasColumn(name) in Needs(row, e);
    case CompoundIdentifier(names) =>
      assert if names == [] then Impossible in Needs(row, e) else HasColumn(names[|names| - 1]) in Needs(row, e);
    case IsNull(arg) => PanicsIffUnmet(row, arg);
    case IsNotNull(arg) => PanicsIffUnmet(row, arg);
    case Nested(arg) => PanicsIffUnmet(row, arg);
    case UnsupportedExpr =>
  }

  /** Expressions that evaluate to a text or NULL, if they evaluate. */
  predicate Textual(e: Expr) {
    match e
    case Literal(v) => !v.BooleanLiteral?
    case Identifier(_) => true
    case CompoundIdentifier(_) => true
    case Nested(arg) => Textual(arg)
    case _ => false
  }

  /** Connectives, comparisons and literals the evaluator handles, no text right of a connective. */
  predicate Handled(e: Expr) {
    match e
    case BinaryOp(l, op, r) =>
      && Handled(l) && Handled(r)
      && (Comparison(op) || (Connective(op) && !Textual(r)))
    case Literal(v) => !v.Placeholder?
    case Identifier(_) => true
    case CompoundIdentifier(names) => names != []
    case IsNull(arg) => Handled(arg)
    case IsNotNull(arg) => Handled(arg)
    case Nested(arg) => Handled(arg)
    case UnsupportedExpr => true
  }

  lemma {:induction false} TextualResult(row: Row, e: Expr)
    requires !Textual(e)
    ensures !TextResult(Evaluate(row, e))
  {
    match e
    case Nested(arg) => TextualResult(row, arg);
    case _ =>
  }

  /** A handled expression needs no more than the columns it mentions. */
  lemma {:induction false} HandledNeeds(row: Row, e: Expr)
    requires Handled(e)
    ensures forall n | n in Needs(row, e) :: n.HasColumn? && n.name in Mentions(e)
  {
    match e
    case BinaryOp(l, op, r) =>
      HandledNeeds(row, l);
      HandledNeeds(row, r);
      if !Textual(r) {
        TextualResult(row, r);
      }
    case IsNull(arg) => HandledNeeds(row, arg);
    case IsNotNull(arg) => HandledNeeds(row, arg);
    case Nested(arg) => HandledNeeds(row, arg);
    case _ =>
  }

  /** Short-circuit evaluation reaches an expression outside the supported kinds. */
  predicate ReachesUnsupported(row: Row, e: Expr) {
    match e
    case BinaryOp(l, op, r) =>
      || ReachesUnsupported(row, l)
      || (ReachesUnsupported(row, r) && !(Connective(op) && Evaluate(row, l) == Done(Boolean(op == Or))))
    case IsNull(arg) => ReachesUnsupported(row, arg)
    case IsNotNull(arg) => ReachesUnsupported(row, arg)
    case Nested(arg) => ReachesUnsupported(row, arg)
    case UnsupportedExpr => true
    case _ => false
  }

  /** Evaluation ends in an error, short of a panic, if and only if it reaches such an expression. */
  lemma {:induction false} ErrIffUnsupported(row: Row, e: Expr)
    requires Evaluate(row, e).Done?
    ensures Evaluate(row, e) == Done(Err) <==> ReachesUnsupported(row, e)
  {
    match e
    case BinaryOp(l, op, r) =>
      ErrIffUnsupported(row, l);
      if Evaluate(row, r).Done? {
        ErrIffUnsupported(row, r);
      } else {
        assert !ReachesUnsupported(row, l) ==> Connective(op) && Evaluate(row, l) == Done(Boolean(op == Or));
      }
    case IsNull(arg) => ErrIffUnsupported(row, arg);
    case IsNotNull(arg) => ErrIffUnsupported(row, arg);
    case Nested(arg) => ErrIffUnsupported(row, arg);
    case _ =>
  }

  /** Truth values as operands: equal or not, but in no order, and never NULL. */
  lemma TruthValuesCompared(row: Row, l: Expr, r: Expr, op: Operator, x: bool, y: bool)
    requires Evaluate(row, l) == Done(Boolean(x)) && Evaluate(row, r) == Done(Boolean(y)) && Comparison(op)
    ensures Evaluate(row, BinaryOp(l, op, r)) == Done(Boolean((op == Eq && x == y) || (op == NotEq && x != y)))
    ensures Evaluate(row, IsNull(l)) == Done(Boolean(false)) && Evaluate(row, IsNotNull(l)) == Done(Boolean(false))
  {
  }

  /** A truth value and a text or NULL differ and are in no order, either way round. */
  lemma MixedOperands(row: Row, l: Expr, r: Expr, op: Operator, x: bool, t: Option<Text>)
    requires Evaluate(row, l) == Done(Boolean(x)) && Evaluate(row, r) == Done(Str(t)) && Comparison(op)
    ensures Evaluate(row, BinaryOp(l, op, r)) == Done(Boolean(op == NotEq))
    ensures Evaluate(row, BinaryOp(r, op, l)) == Done(Boolean(op == NotEq))
  {
  }

  /** A text left of a connective is passed over; right of it, it panics unless it is not reached. */
  lemma TextOperands(row: Row, l: Expr, r: Expr, op: Operator, x: bool, t: Option<Text>)
    requires Evaluate(row, l) == Done(Str(t)) && Evaluate(row, r) == Done(Boolean(x)) && Connective(op)
    ensures Evaluate(row, BinaryOp(l, op, r)) == Done(Boolean(x))
    ensures Evaluate(row, BinaryOp(r, op, l)) == if x == (op == Or) then Done(Boolean(x)) else Panic(Unsupported)
  {
  }
}
