/** SQL's three-valued logic as a reference, and how far the two-valued evaluator agrees with it. */
module SqlLogic {
  import opened Outcomes
  import opened Bytes
  import opened Evaluator

  datatype Truth = True | False | Unknown

  /** SQL-92, section 8.12, table for AND. */
  function And3(a: Truth, b: Truth): Truth {
    if a == False || b == False then False
    else if a == True && b == True then True
    else Unknown
  }

  /** SQL-92, section 8.12, table for OR. */
  function Or3(a: Truth, b: Truth): Truth {
    if a == True || b == True then True
    else if a == False && b == False then False
    else Unknown
  }

  function Truth2(b: bool): Truth {
    if b then True else False
  }

  /** Operands of comparisons: columns and literals. */
  predicate Atom(e: Expr) {
    match e
    case Literal(v) => !v.Placeholder?
    case Identifier(_) => true
    case CompoundIdentifier(names) => names != []
    case Nested(arg) => Atom(arg)
    case _ => false
  }

  /** A TRUE or FALSE as an operand. */
  predicate BooleanAtom(e: Expr) {
    match e
    case Literal(v) => v.BooleanLiteral?
    case Nested(arg) => BooleanAtom(arg)
    case _ => false
  }

  /** Search conditions: AND and OR over comparisons and null tests of columns and literals. */
  predicate Condition(e: Expr) {
    match e
    case BinaryOp(l, op, r) =>
      if Connective(op) then Condition(l) && Condition(r)
      else Comparison(op) && Atom(l) && Atom(r)
    case Literal(v) => v.BooleanLiteral?
    case IsNull(arg) => Atom(arg)
    case IsNotNull(arg) => Atom(arg)
    case Nested(arg) => Condition(arg)
    case _ => false
  }

  const ONE: Text := [49]
  const ZERO: Text := [48]

  /** Value of an atom whose columns the row has. In MySQL's reading TRUE is 1 and FALSE is 0. */
  function AtomValue(row: Row, e: Expr): Option<Text>
    requires Atom(e) && Mentions(e) <= row.Keys
  {
    match e
    case Literal(v) =>
      (match v
       case NumberLiteral(t) => Some(t)
       case StringLiteral(t) => Some(t)
       case BooleanLiteral(b) => Some(if b then ONE else ZERO)
       case _ => None)
    case Identifier(name) => row[name]
    case CompoundIdentifier(names) => row[names[|names| - 1]]
    case Nested(arg) => AtomValue(row, arg)
  }

  /** The reference order of texts: the first byte in which they differ decides, or the end of the shorter. */
  predicate Before(x: Text, y: Text) {
    exists k :: 0 <= k < |y| && k <= |x| && x[..k] == y[..k] && (k == |x| || x[k] < y[k])
  }

  predicate Precedes(x: Text, op: Operator, y: Text)
    requires op in {Lt, LtEq, Gt, GtEq}
  {
    match op
    case Lt => Before(x, y)
    case LtEq => Before(x, y) || x == y
    case Gt => Before(y, x)
    case GtEq => Before(y, x) || x == y
  }

  lemma {:induction false} BeforeOrAfter(x: Text, y: Text)
    ensures x == y || Before(x, y) || Before(y, x)
    decreases |x|
  {
    if x == [] && y != [] {
      assert x[..0] == y[..0];
    } else if y == [] && x != [] {
      assert x[..0] == y[..0];
    } else if x != [] && y != [] {
      if x[0] != y[0] {
        assert x[..0] == y[..0];
      } else {
        BeforeOrAfter(x[1..], y[1..]);
        if Before(x[1..], y[1..]) {
          OneByteMore(x, y);
        } else if Before(y[1..], x[1..]) {
          OneByteMore(y, x);
        } else {
          assert x == [x[0]] + x[1..] && y == [y[0]] + y[1..];
        }
      }
    }
  }

  lemma OneByteMore(x: Text, y: Text)
    requires x != [] && y != [] && x[0] == y[0] && Before(x[1..], y[1..])
    ensures Before(x, y)
  {
    var k :| 0 <= k < |y[1..]| && k <= |x[1..]| && x[1..][..k] == y[1..][..k]
        && (k == |x[1..]| || x[1..][k] < y[1..][k]);
    assert x[..k + 1] == [x[0]] + x[1..][..k] && y[..k + 1] == [y[0]] + y[1..][..k];
  }

  lemma BeforeDecides(x: Text, y: Text)
    requires Before(x, y)
    ensures Ordered(x, Lt, y) && Ordered(x, LtEq, y) && !Ordered(x, Gt, y) && !Ordered(x, GtEq, y)
    ensures Ordered(y, Gt, x) && Ordered(y, GtEq, x) && !Ordered(y, Lt, x) && !Ordered(y, LtEq, x)
    ensures x != y
  {
    var k :| 0 <= k < |y| && k <= |x| && x[..k] == y[..k] && (k == |x| || x[k] < y[k]);
    assert x == x[..k] + x[k..] && y == x[..k] + y[k..];
    FirstDifferenceDecides(x[..k], x[k..], y[k..]);
    NotBeforeItself(x);
  }

  /** The evaluator's order is the reference order. */
  lemma OrderedIsPrecedes(x: Text, op: Operator, y: Text)
    requires op in {Lt, LtEq, Gt, GtEq}
    ensures Ordered(x, op, y) <==> Precedes(x, op, y)
  {
    hide Before;
    BeforeOrAfter(x, y);
    NotBeforeItself(x);
    if Before(x, y) {
      BeforeDecides(x, y);
    }
    if Before(y, x) {
      BeforeDecides(y, x);
    }
  }

  /** SQL-92, section 8.2: a comparison with NULL is unknown. */
  function Compare3(x: Option<Text>, op: Operator, y: Option<Text>): Truth
    requires Comparison(op)
  {
    if x.None? || y.None? then Unknown
    else if op == Eq then Truth2(x == y)
    else if op == NotEq then Truth2(x != y)
    else Truth2(Precedes(x.value, op, y.value))
  }

  /** The truth value SQL-92 gives a condition (sections 8.2, 8.6 and 8.12). */
  function Sql(row: Row, e: Expr): Truth
    requires Condition(e) && Mentions(e) <= row.Keys
  {
    match e
    case BinaryOp(l, op, r) =>
      if op == And then And3(Sql(row, l), Sql(row, r))
      else if op == Or then Or3(Sql(row, l), Sql(row, r))
      else Compare3(AtomValue(row, l), op, AtomValue(row, r))
    case Literal(v) => Truth2(v.b)
    case IsNull(arg) => Truth2(AtomValue(row, arg).None?)
    case IsNotNull(arg) => Truth2(AtomValue(row, arg).Some?)
    case Nested(arg) => Sql(row, arg)
  }

  /** The condition itself and all conditions inside it. */
  function Conditions(e: Expr): set<Expr>
    requires Condition(e)
  {
    {e} + match e
          case BinaryOp(l, op, r) => if Connective(op) then Conditions(l) + Conditions(r) else {}
          case Nested(arg) => Conditions(arg)
          case _ => {}
  }

  /** What the evaluator makes of an atom: a truth value of a TRUE or FALSE, a text or NULL else. */
  function AtomResult(row: Row, e: Expr): ParseResult
    requires Atom(e) && Mentions(e) <= row.Keys
  {
    if BooleanAtom(e) then Boolean(AtomValue(row, e) == Some(ONE)) else Str(AtomValue(row, e))
  }

  lemma {:induction false} AtomEvaluates(row: Row, e: Expr)
    requires Atom(e) && Mentions(e) <= row.Keys
    ensures Evaluate(row, e) == Done(AtomResult(row, e))
    ensures BooleanAtom(e) ==> AtomValue(row, e) in {Some(ONE), Some(ZERO)}
  {
    if e.Nested? {
      AtomEvaluates(row, e.arg);
    }
  }

  /** Conditions over the row's columns never panic and never err. */
  lemma {:induction false} ConditionsAreDecided(row: Row, e: Expr)
    requires Condition(e) && Mentions(e) <= row.Keys
    ensures Evaluate(row, e).Done? && Evaluate(row, e).value.Boolean?
  {
    match e
    case BinaryOp(l, op, r) =>
      if Connective(op) {
        ConditionsAreDecided(row, l);
        ConditionsAreDecided(row, r);
      } else {
        AtomEvaluates(row, l);
        AtomEvaluates(row, r);
      }
    case Literal(v) =>
    case IsNull(arg) => AtomEvaluates(row, arg);
    case IsNotNull(arg) => AtomEvaluates(row, arg);
    case Nested(arg) => ConditionsAreDecided(row, arg);
  }

  // ---- Rows that are lost

  /** No comparison with a TRUE or FALSE holds in SQL, other than `<>` and an equality of two of
      them, and no TRUE or FALSE is tested for not being NULL. */
  predicate Lossless(row: Row, e: Expr)
    requires Condition(e) && Mentions(e) <= row.Keys
  {
    match e
    case BinaryOp(l, op, r) =>
      if Connective(op) then Lossless(row, l) && Lossless(row, r)
      else
        BooleanAtom(l) || BooleanAtom(r) ==>
          || op == NotEq || (op == Eq && BooleanAtom(l) && BooleanAtom(r))
          || Compare3(AtomValue(row, l), op, AtomValue(row, r)) != True
    case IsNotNull(arg) => !BooleanAtom(arg)
    case Nested(arg) => Lossless(row, arg)
    case _ => true
  }

  /** A row that SQL selects is accepted. */
  predicate Kept(row: Row, e: Expr)
    requires Condition(e) && Mentions(e) <= row.Keys
  {
    Sql(row, e) == True ==> Evaluate(row, e) == Done(Boolean(true))
  }

  lemma {:induction false} NoSelectedRowIsLost(row: Row, e: Expr)
    requires Condition(e) && Mentions(e) <= row.Keys && Lossless(row, e)
    ensures Kept(row, e)
  {
    ConditionsAreDecided(row, e);
    match e
    case BinaryOp(l, op, r) =>
      if Connective(op) {
        ConditionsAreDecided(row, l);
        NoSelectedRowIsLost(row, l);
        NoSelectedRowIsLost(row, r);
      } else {
        AtomEvaluates(row, l);
        AtomEvaluates(row, r);
        ComparisonEvaluates(row, e);
      }
    case Literal(v) =>
    case IsNull(arg) => AtomEvaluates(row, arg);
    case IsNotNull(arg) => AtomEvaluates(row, arg);
    case Nested(arg) => NoSelectedRowIsLost(row, arg);
  }

  lemma {:induction false} LosslessInside(row: Row, e: Expr, s: Expr)
    requires Condition(e) && Mentions(e) <= row.Keys && Lossless(row, e)
    requires s in Conditions(e) && Condition(s) && Mentions(s) <= row.Keys
    ensures Lossless(row, s)
  {
    if s != e {
      match e
      case BinaryOp(l, op, r) =>
        if s in Conditions(l) { LosslessInside(row, l, s); } else { LosslessInside(row, r, s); }
      case Nested(arg) => LosslessInside(row, arg, s);
    }
  }

  lemma {:induction false} LosingLeaf(row: Row, e: Expr) returns (s: Expr)
    requires Condition(e) && Mentions(e) <= row.Keys && !Lossless(row, e)
    ensures s in Conditions(e) && Condition(s) && Mentions(s) <= row.Keys && !Kept(row, s)
  {
    match e
    case BinaryOp(l, op, r) =>
      if Connective(op) {
        if !Lossless(row, l) { s := LosingLeaf(row, l); } else { s := LosingLeaf(row, r); }
      } else {
        AtomEvaluates(row, l);
        AtomEvaluates(row, r);
        ComparisonEvaluates(row, e);
        s := e;
      }
    case IsNotNull(arg) =>
      AtomEvaluates(row, arg);
      s := e;
    case Nested(arg) => s := LosingLeaf(row, arg);
  }

  /** A row SQL selects by the condition or by any condition inside it is accepted by that same
      condition, if and only if the condition is lossless on the row. */
  lemma LossIsExact(row: Row, e: Expr)
    requires Condition(e) && Mentions(e) <= row.Keys
    ensures Lossless(row, e) <==>
      forall s | s in Conditions(e) && Condition(s) && Mentions(s) <= row.Keys :: Kept(row, s)
  {
    if Lossless(row, e) {
      forall s | s in Conditions(e) && Condition(s) && Mentions(s) <= row.Keys
        ensures Kept(row, s)
      {
        LosslessInside(row, e, s);
        NoSelectedRowIsLost(row, s);
      }
    } else {
      var s := LosingLeaf(row, e);
    }
  }

  // ---- Agreement

  /** No equality compares NULL with NULL, no inequality exactly one NULL, and comparisons with a
      TRUE or FALSE come out as the evaluator has them: `<>` true, all others false, unless both
      operands are such and are tested for equality. */
  predicate SafelyCompared(row: Row, e: Expr)
    requires Condition(e) && Mentions(e) <= row.Keys
  {
    match e
    case BinaryOp(l, op, r) =>
      if Connective(op) then SafelyCompared(row, l) && SafelyCompared(row, r)
      else
        var x, y := AtomValue(row, l), AtomValue(row, r);
        if BooleanAtom(l) && BooleanAtom(r) then op in {Eq, NotEq} || Compare3(x, op, y) != True
        else if BooleanAtom(l) || BooleanAtom(r) then op == NotEq <==> Compare3(x, op, y) == True
        else (op == Eq ==> x.Some? || y.Some?) && (op == NotEq ==> (x.Some? <==> y.Some?))
    case IsNotNull(arg) => !BooleanAtom(arg)
    case Nested(arg) => SafelyCompared(row, arg)
    case _ => true
  }

  /** Evaluator and SQL agree on whether `e` holds. */
  predicate Agrees(row: Row, e: Expr)
    requires Condition(e) && Mentions(e) <= row.Keys
  {
    Evaluate(row, e) == Done(Boolean(true)) <==> Sql(row, e) == True
  }

  /** What the evaluator answers to a comparison, and SQL. */
  lemma ComparisonEvaluates(row: Row, e: Expr)
    requires Condition(e) && Mentions(e) <= row.Keys && e.BinaryOp? && !Connective(e.op)
    ensures Evaluate(row, e) == Done(Boolean(Compare(AtomResult(row, e.left), e.op, AtomResult(row, e.right))))
    ensures Sql(row, e) == Compare3(AtomValue(row, e.left), e.op, AtomValue(row, e.right))
    ensures !BooleanAtom(e.left) && !BooleanAtom(e.right) && e.op in {Lt, LtEq, Gt, GtEq} ==>
      (Evaluate(row, e) == Done(Boolean(true)) <==> Sql(row, e) == True)
  {
    hide Compare, Compare3;
    AtomEvaluates(row, e.left);
    AtomEvaluates(row, e.right);
    if e.op in {Lt, LtEq, Gt, GtEq} {
      TextsCompared(AtomValue(row, e.left), e.op, AtomValue(row, e.right));
    }
  }

  lemma TextsCompared(x: Option<Text>, op: Operator, y: Option<Text>)
    requires op in {Lt, LtEq, Gt, GtEq}
    ensures Compare(Str(x), op, Str(y)) <==> Compare3(x, op, y) == True
  {
    hide Ordered, Precedes;
    if x.Some? && y.Some? {
      OrderedIsPrecedes(x.value, op, y.value);
    }
  }

  lemma AgreesOnComparison(row: Row, e: Expr)
    requires Condition(e) && Mentions(e) <= row.Keys && e.BinaryOp? && !Connective(e.op)
    ensures SafelyCompared(row, e) <==> Agrees(row, e)
  {
    hide Ordered, Precedes, Evaluate;
    AtomEvaluates(row, e.left);
    AtomEvaluates(row, e.right);
    ComparisonEvaluates(row, e);
  }

  /** The evaluator refines SQL: on safely compared conditions it answers true exactly when SQL
      yields TRUE. */
  lemma {:induction false} EvaluatorRefinesSql(row: Row, e: Expr)
    requires Condition(e) && Mentions(e) <= row.Keys && SafelyCompared(row, e)
    ensures Agrees(row, e)
  {
    match e
    case BinaryOp(l, op, r) =>
      if Connective(op) {
        ConditionsAreDecided(row, l);
        ConditionsAreDecided(row, r);
        EvaluatorRefinesSql(row, l);
        EvaluatorRefinesSql(row, r);
      } else {
        AgreesOnComparison(row, e);
      }
    case Literal(v) =>
    case IsNull(arg) => AtomEvaluates(row, arg);
    case IsNotNull(arg) => AtomEvaluates(row, arg);
    case Nested(arg) => EvaluatorRefinesSql(row, arg);
  }

  /** Safe comparison is exact: it holds if and only if evaluator and SQL agree on every condition
      inside `e`, the offending comparison being the witness otherwise. */
  lemma AgreementIsExact(row: Row, e: Expr)
    requires Condition(e) && Mentions(e) <= row.Keys
    ensures SafelyCompared(row, e) <==>
      forall s | s in Conditions(e) && Condition(s) && Mentions(s) <= row.Keys :: Agrees(row, s)
  {
    if SafelyCompared(row, e) {
      forall s | s in Conditions(e) && Condition(s) && Mentions(s) <= row.Keys
        ensures Agrees(row, s)
      {
        SafeInside(row, e, s);
        EvaluatorRefinesSql(row, s);
      }
    } else {
      var s := UnsafeLeaf(row, e);
    }
  }

  lemma {:induction false} SafeInside(row: Row, e: Expr, s: Expr)
    requires Condition(e) && Mentions(e) <= row.Keys && SafelyCompared(row, e)
    requires s in Conditions(e) && Condition(s) && Mentions(s) <= row.Keys
    ensures SafelyCompared(row, s)
  {
    if s != e {
      match e
      case BinaryOp(l, op, r) =>
        if s in Conditions(l) { SafeInside(row, l, s); } else { SafeInside(row, r, s); }
      case Nested(arg) => SafeInside(row, arg, s);
    }
  }

  lemma {:induction false} UnsafeLeaf(row: Row, e: Expr) returns (s: Expr)
    requires Condition(e) && Mentions(e) <= row.Keys && !SafelyCompared(row, e)
    ensures s in Conditions(e) && Condition(s) && Mentions(s) <= row.Keys && !Agrees(row, s)
  {
    match e
    case BinaryOp(l, op, r) =>
      if Connective(op) {
        if !SafelyCompared(row, l) { s := UnsafeLeaf(row, l); } else { s := UnsafeLeaf(row, r); }
      } else {
        AgreesOnComparison(row, e);
        s := e;
      }
    case IsNotNull(arg) =>
      AtomEvaluates(row, arg);
      s := e;
    case Nested(arg) => s := UnsafeLeaf(row, arg);
  }

  /** A condition without connectives. */
  predicate Simple(e: Expr) {
    Condition(e) && (e.BinaryOp? ==> !Connective(e.op)) && (e.Nested? ==> Simple(e.arg))
  }

  lemma {:induction false} AtomNeeds(row: Row, e: Expr)
    requires Atom(e)
    ensures Needs(row, e) == set c | c in Mentions(e) :: HasColumn(c)
    ensures Evaluate(row, e) != Done(Err)
  {
    if e.Nested? {
      AtomNeeds(row, e.arg);
    }
  }

  /** A simple condition needs every column it mentions and nothing else. */
  lemma {:induction false} SimpleNeedsAll(row: Row, e: Expr)
    requires Simple(e)
    ensures AllMet(row, Needs(row, e)) <==> Mentions(e) <= row.Keys
  {
    match e
    case BinaryOp(l, op, r) =>
      AtomNeeds(row, l);
      AtomNeeds(row, r);
      NeedsOf(row, Mentions(l) + Mentions(r));
      assert Needs(row, e) == set c | c in Mentions(e) :: HasColumn(c);
    case IsNull(arg) =>
      AtomNeeds(row, arg);
      NeedsOf(row, Mentions(arg));
    case IsNotNull(arg) =>
      AtomNeeds(row, arg);
      NeedsOf(row, Mentions(arg));
    case Nested(arg) => SimpleNeedsAll(row, arg);
    case Literal(_) =>
  }

  lemma NeedsOf(row: Row, names: set<Text>)
    ensures AllMet(row, set c | c in names :: HasColumn(c)) <==> names <= row.Keys
  {
    if AllMet(row, set c | c in names :: HasColumn(c)) {
      forall c | c in names ensures c in row {
        assert HasColumn(c) in set c | c in names :: HasColumn(c);
      }
    }
  }
}
