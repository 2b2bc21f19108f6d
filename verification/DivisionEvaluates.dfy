/** The IEEE reading of the division lowering is the evaluator's, up to its refusal to divide by a plan's own zero. */
module DivisionEvaluates {
  import D = Doubles
  import opened Cel
  import opened Plans
  import opened Evaluator
  import opened EvaluatorLaws
  import opened ThreeValued
  import opened DivisionLowering
  import opened DivisionCorrect
  import opened DivisionCases

  /** The operand's references read as the row's columns, a NULL one as a missing attribute. */
  predicate ReadsRow(e: Operand, sc: Scope, row: Row)
    decreases e
  {
    match e
    case Literal(_) => true
    case Variable(path) => LookUp(path, sc) == if row(path).Some? then Ok(Num(row(path).value)) else Err
    case Expr(_, args) => forall i | 0 <= i < |args| :: ReadsRow(args[i], sc, row)
  }

  /**
    Whether the evaluator raises on the operand: it divides a non-zero by a zero that no document field
    supplied, whose sign it cannot know.
   */
  predicate Backstopped(e: Operand, row: Row, bound: set<string>)
    decreases e
  {
    e.Expr? &&
    ((exists i | 0 <= i < |e.operands| :: Backstopped(e.operands[i], row, bound)) ||
     (e.operator == Arith(Div) && |e.operands| == 2 && !IsDocumentField(e.operands[1], bound) &&
      Ieee(e.operands[0], row).Some? && !Ieee(e.operands[0], row).value.IsZero() &&
      IsZeroValue(Ieee(e.operands[1], row))))
  }

  /** Number arithmetic over literals and references is neither temporal nor a CEL int. */
  lemma {:induction false} PlainNumber(e: Operand)
    requires BuildValueExpression(e).Done?
    ensures TemporalKindOf(e).None? && !IsIntExpression(e)
    decreases e
  {
    if e.Expr? {
      PlainNumber(e.operands[0]);
      PlainNumber(e.operands[1]);
    }
  }

  lemma PlainForm(e: Operand, bound: set<string>)
    requires BuildValueExpression(e).Done? && e.Expr?
    ensures var form := FormOf(e.operator, e.operands, bound);
      form.ArithmeticForm? && !form.temporal && !form.isInt && !form.mixed &&
      form.documentDivisor == IsDocumentField(e.operands[1], bound)
  {
    hide TemporalKindOf, IsIntExpression;
    PlainNumber(e);
    PlainNumber(e.operands[0]);
    PlainNumber(e.operands[1]);
    assert e == Expr(e.operator, e.operands);
    assert forall i | 0 <= i < |e.operands| :: TemporalKindOf(e.operands[i]).None? && !IsIntExpression(e.operands[i]);
  }

  lemma PlainArithmetic(op: Arithmetic, form: Form, a: D.Double, b: D.Double)
    requires form.ArithmeticForm? && !form.temporal && !form.isInt && !form.mixed && op != Mod
    ensures ArithmeticOf(op, form, Num(a), Num(b)) ==
      if op == Div && b.IsZero() && !a.IsZero() && !form.documentDivisor then Throw else Ok(Num(Apply(op, a, b)))
  {
  }

  /** What the evaluator answers for a numeric operand of the lowering. */
  function NumberOutcome(e: Operand, row: Row, bound: set<string>): Outcome {
    if Backstopped(e, row, bound) then Throw
    else if Ieee(e, row).None? then Err
    else Ok(Num(Ieee(e, row).value))
  }

  /** Every operand the lowering accepts evaluates to its IEEE value, to an error, or to the backstop's exception. */
  lemma {:induction false} EvaluatesAsIeee(e: Operand, sc: Scope, row: Row)
    requires BuildValueExpression(e).Done? && ReadsRow(e, sc, row)
    ensures Evaluate(e, sc) == NumberOutcome(e, row, sc.bindings.Keys)
    decreases e
  {
    hide NumberOutcome, BuildValueExpression, LookUp;
    if e.Expr? {
      BuiltOperands(e);
      EvaluatesAsIeee(e.operands[0], sc, row);
      EvaluatesAsIeee(e.operands[1], sc, row);
      OperationEvaluates(e, sc, row);
    } else {
      LeafEvaluates(e, sc, row);
    }
  }

  lemma BuiltOperands(e: Operand)
    requires BuildValueExpression(e).Done? && e.Expr?
    ensures Foldable(e) && BuildValueExpression(e.operands[0]).Done? && BuildValueExpression(e.operands[1]).Done?
  {
  }

  lemma LeafEvaluates(e: Operand, sc: Scope, row: Row)
    requires BuildValueExpression(e).Done? && ReadsRow(e, sc, row) && !e.Expr?
    ensures Evaluate(e, sc) == NumberOutcome(e, row, sc.bindings.Keys)
  {
  }

  lemma BackstopBelow(e: Operand, row: Row, bound: set<string>)
    requires Foldable(e)
    ensures Backstopped(e, row, bound) <==>
      Backstopped(e.operands[0], row, bound) || Backstopped(e.operands[1], row, bound) ||
      (e.operator == Arith(Div) && !IsDocumentField(e.operands[1], bound) && Ieee(e.operands[0], row).Some? &&
       !Ieee(e.operands[0], row).value.IsZero() && IsZeroValue(Ieee(e.operands[1], row)))
  {
  }

  lemma OperationEvaluates(e: Operand, sc: Scope, row: Row)
    requires BuildValueExpression(e).Done? && Foldable(e)
    requires Evaluate(e.operands[0], sc) == NumberOutcome(e.operands[0], row, sc.bindings.Keys)
    requires Evaluate(e.operands[1], sc) == NumberOutcome(e.operands[1], row, sc.bindings.Keys)
    ensures Evaluate(e, sc) == NumberOutcome(e, row, sc.bindings.Keys)
  {
    hide Evaluate, BuildValueExpression, Apply, FormOf, IsDocumentField, Backstopped, ArithmeticOf;
    var a, b, op := e.operands[0], e.operands[1], e.operator.arithmetic;
    assert e.operands == [a, b] && e == Expr(Arith(op), [a, b]);
    BinaryStep(Arith(op), a, b, sc);
    PlainForm(e, sc.bindings.Keys);
    BackstopBelow(e, row, sc.bindings.Keys);
    if Ieee(a, row).Some? && Ieee(b, row).Some? {
      PlainArithmetic(op, FormOf(Arith(op), [a, b], sc.bindings.Keys), Ieee(a, row).value, Ieee(b, row).value);
    }
  }

  // ----- the comparison -----

  /** The comparison raises where an operand does; otherwise it is the IEEE comparison. */
  lemma ComparisonEvaluates(op: Comparison, left: Operand, right: Operand, negated: bool, sc: Scope, row: Row)
    requires BuildValueExpression(left).Done? && BuildValueExpression(right).Done?
    requires ReadsRow(left, sc, row) && ReadsRow(right, sc, row)
    ensures var outcome := Evaluate(Expr(Compare(op), [left, right]), sc);
      (outcome.Throw? <==>
        Backstopped(left, row, sc.bindings.Keys) || Backstopped(right, row, sc.bindings.Keys)) &&
      (!outcome.Throw? ==> WithPolarity(TriOf(outcome), negated) == Answer(op, left, right, negated, row))
  {
    hide Evaluate, BuildValueExpression, ReadsRow, Ieee, Backstopped, CompareValues, NumberComparison;
    EvaluatesAsIeee(left, sc, row);
    EvaluatesAsIeee(right, sc, row);
    BinaryStep(Compare(op), left, right, sc);
    if Ieee(left, row).Some? && Ieee(right, row).Some? {
      NumberComparisonIsCel(op, Ieee(left, row).value, Ieee(right, row).value);
    }
  }

  /** Both operands of a lowered comparison are operands the lowering accepts. */
  lemma LoweredSides(op: Comparison, left: Operand, right: Operand, integerColumn: Path -> bool, negated: bool)
    requires BuildZeroCapableComparison(op, left, right, integerColumn, negated).Done?
    ensures BuildValueExpression(left).Done? && BuildValueExpression(right).Done?
  {
    hide Built;
    var q := QueryOf(op, left, right, integerColumn, negated);
    Parts(BuildZeroCapableComparison(op, left, right, integerColumn, negated).result, q);
  }

  /**
    Unless the evaluator's backstop stops it, the CASE answers a row as the evaluator answers the comparison on
    exactly the rows that meet the condition.
   */
  lemma DivisionPlanExact(op: Comparison, left: Operand, right: Operand, integerColumn: Path -> bool, negated: bool,
      sc: Scope, row: Row)
    requires BuildZeroCapableComparison(op, left, right, integerColumn, negated).Done?
    requires IntegerZerosArePositive(integerColumn, row) && ReadsRow(left, sc, row) && ReadsRow(right, sc, row)
    ensures var outcome := Evaluate(Expr(Compare(op), [left, right]), sc);
      var c := BuildZeroCapableComparison(op, left, right, integerColumn, negated).result;
      outcome.Throw? ||
      (CaseHolds(c, row) == WithPolarity(TriOf(outcome), negated) <==>
       ExactOn(QueryOf(op, left, right, integerColumn, negated), row))
  {
    hide Evaluate, CaseHolds, ExactOn, BuildZeroCapableComparison, BuildValueExpression, ReadsRow, Answer;
    LoweredSides(op, left, right, integerColumn, negated);
    ComparisonEvaluates(op, left, right, negated, sc, row);
    DivisionCaseExact(op, left, right, integerColumn, negated, row);
  }

  /**
    With finite columns and constants the lowered CASE answers every row as the evaluator answers the comparison
    on that row's document, the rows on which the evaluator raises excepted.
   */
  lemma DivisionPlanCorrect(op: Comparison, left: Operand, right: Operand, integerColumn: Path -> bool, negated: bool,
      sc: Scope, row: Row)
    requires BuildZeroCapableComparison(op, left, right, integerColumn, negated).Done?
    requires ConstantsFinite(left) && ConstantsFinite(right) && FiniteRow(row)
    requires IntegerZerosArePositive(integerColumn, row) && ReadsRow(left, sc, row) && ReadsRow(right, sc, row)
    ensures var outcome := Evaluate(Expr(Compare(op), [left, right]), sc);
      (outcome.Throw? <==>
        Backstopped(left, row, sc.bindings.Keys) || Backstopped(right, row, sc.bindings.Keys)) &&
      (!outcome.Throw? ==>
        CaseHolds(BuildZeroCapableComparison(op, left, right, integerColumn, negated).result, row) ==
        WithPolarity(TriOf(outcome), negated))
  {
    hide Evaluate, CaseHolds, BuildZeroCapableComparison, BuildValueExpression, ReadsRow, Answer, Backstopped;
    LoweredSides(op, left, right, integerColumn, negated);
    ComparisonEvaluates(op, left, right, negated, sc, row);
    DivisionCaseCorrect(op, left, right, integerColumn, negated, row);
  }
}
