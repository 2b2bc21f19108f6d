/** Comparisons over a division that may divide by zero, lowered to a CASE with IEEE arms. */
module DivisionLowering {
  import opened Wrappers
  import D = Doubles
  import opened Cel
  import opened Plans
  import opened ThreeValued

  // ----- constant folding in IEEE space -----

  function Apply(op: Arithmetic, a: D.Double, b: D.Double): D.Double {
    match op
    case Add => D.Add(a, b)
    case Sub => D.Sub(a, b)
    case Mult => D.Mul(a, b)
    case Div => D.Div(a, b)
    case Mod => D.Mod(a, b)
  }

  /** A binary `+`, `-`, `*` or `/`. */
  predicate Foldable(e: Operand) {
    e.Expr? && e.operator.Arith? && e.operator != Arith(Mod) && |e.operands| == 2
  }

  function ResolveConstantNumber(e: Operand): Option<D.Double> {
    if e.Literal? then (if e.value.Num? then Some(e.value.n) else None)
    else if !Foldable(e) then None
    else
      var left, right := ResolveConstantNumber(e.operands[0]), ResolveConstantNumber(e.operands[1]);
      if left.None? || right.None? then None else Some(Apply(e.operator.arithmetic, left.value, right.value))
  }

  /** A division that is no constant and whose denominator is not a known non-zero one. */
  predicate IsZeroCapableDivision(e: Operand) {
    e.Expr? && e.operator == Arith(Div) && ResolveConstantNumber(e).None? && |e.operands| > 1 &&
    var denominator := ResolveConstantNumber(e.operands[1]);
    denominator.None? || denominator.value.IsZero()
  }

  /** The position of the first zero-capable division in an arithmetic tree. */
  function FindZeroCapableDivision(e: Operand): Option<seq<nat>>
    decreases e, 0
  {
    if IsZeroCapableDivision(e) then Some([])
    else if !e.Expr? || !e.operator.Arith? then None
    else FindAmong(e, 0)
  }

  /** The first zero-capable division among the operands of `e` from the `i`th on. */
  function FindAmong(e: Operand, i: nat): Option<seq<nat>>
    requires e.Expr? && i <= |e.operands|
    decreases e, 0, |e.operands| - i
  {
    if i == |e.operands| then None
    else
      var found := FindZeroCapableDivision(e.operands[i]);
      if found.Some? then Some([i] + found.value) else FindAmong(e, i + 1)
  }

  /** The tree's value with the operand at `at` replaced; none when another leaf is no constant. */
  function FoldWithSubstitution(e: Operand, at: seq<nat>, substitute: D.Double): Option<D.Double>
    decreases |at|
  {
    if at == [] then Some(substitute)
    else if !Foldable(e) || at[0] > 1 then None
    else
      var left := if at[0] == 0 then FoldWithSubstitution(e.operands[0], at[1..], substitute)
                  else ResolveConstantNumber(e.operands[0]);
      var right := if at[0] == 1 then FoldWithSubstitution(e.operands[1], at[1..], substitute)
                   else ResolveConstantNumber(e.operands[1]);
      if left.None? || right.None? then None else Some(Apply(e.operator.arithmetic, left.value, right.value))
  }

  function At(e: Operand, at: seq<nat>): Operand
    decreases |at|
  {
    if at == [] || !e.Expr? || at[0] >= |e.operands| then e else At(e.operands[at[0]], at[1..])
  }

  function NumberComparison(op: Comparison, left: D.Double, right: D.Double): bool {
    if op != Eq && op != Ne && (left.NaN? || right.NaN?) then false
    else match op
      case Eq => D.Same(left, right)
      case Ne => !D.Same(left, right)
      case Lt => D.Less(left, right)
      case Le => D.Less(left, right) || D.Same(left, right)
      case Gt => D.Less(right, left)
      case Ge => D.Less(right, left) || D.Same(left, right)
  }

  /** The folded comparison is CEL's, NaN and the infinities included. */
  lemma NumberComparisonIsCel(op: Comparison, left: D.Double, right: D.Double)
    ensures CompareValues(op, Num(left), Num(right)) == OfBool(NumberComparison(op, left, right))
  {
    if left.Fin? && right.Fin? {
      assert D.Same(left, right) <==> left.Real() == right.Real();
    }
  }

  // ----- SQL numbers -----

  datatype Sql = Const(d: D.Double) | ColumnOf(path: Path) | Operate(op: Arithmetic, left: Sql, right: Sql)

  /** The doubles of a row's columns; `None` is NULL. */
  type Row = Path -> Option<D.Double>

  const ZERO := D.Fin(false, 0.0)

  /** A double as SQLite holds it: NaN becomes NULL and a zero loses its sign; infinities are kept. */
  function Stored(d: D.Double): Option<D.Double> {
    if d.NaN? then None else if d.IsZero() then Some(ZERO) else Some(d)
  }

  /** A division of two number literals, folded before SQL sees it. */
  predicate QuotientOfLiterals(e: Operand) {
    Foldable(e) && e.operator == Arith(Div) &&
    forall i | 0 <= i < 2 :: e.operands[i].Literal? && e.operands[i].value.Num?
  }

  /** A numeric operand as a SQL expression; every other value shape is outside this lowering. */
  function BuildValueExpression(e: Operand): Translation<Sql> {
    match e
    case Literal(v) => if v.Num? then Done(Const(v.n)) else Refused
    case Variable(path) => Done(ColumnOf(path))
    case Expr(op, args) =>
      if !Foldable(e) then Refused
      else if QuotientOfLiterals(e) then
        Done(Const(D.Div(args[0].value.n, args[1].value.n)))
      else
        var left :- BuildValueExpression(args[0]);
        var right :- BuildValueExpression(args[1]);
        Done(Operate(op.arithmetic, left, right))
  }

  /** The real-number result of an operation; the divisor of a division is not zero. */
  function Exact(op: Arithmetic, a: real, b: real): real
    requires op == Div ==> b != 0.0
  {
    match op
    case Add => a + b
    case Sub => a - b
    case Mult => a * b
    case Div => a / b
    case Mod => 0.0
  }

  /** SQL arithmetic: exact over finite numbers, NULL for a zero divisor and for what would be NaN. */
  function Compute(op: Arithmetic, a: D.Double, b: D.Double): Option<D.Double> {
    if op == Mod || (op == Div && b.IsZero()) then None
    else if a.Fin? && b.Fin? then Some(D.FromReal(Exact(op, a.Real(), b.Real())))
    else Stored(Apply(op, a, b))
  }

  function SqlValue(s: Sql, row: Row): Option<D.Double> {
    match s
    case Const(d) => Stored(d)
    case ColumnOf(path) => if row(path).None? then None else Stored(row(path).value)
    case Operate(op, left, right) =>
      var a, b := SqlValue(left, row), SqlValue(right, row);
      if a.None? || b.None? then None else Compute(op, a.value, b.value)
  }

  function SqlComparison(op: Comparison, left: Option<D.Double>, right: Option<D.Double>): Tri {
    if left.None? || right.None? then Unknown
    else OfTruth(OrderResult(op, D.Less(left.value, right.value), D.Less(right.value, left.value)))
  }

  // ----- the lowering -----

  /** The CASE: NULL guards, three arms for a zero denominator, and the finite comparison. */
  datatype DivisionCase = DivisionCase(
    guards: seq<Sql>, numerator: Sql, denominator: Sql, nan: bool, positive: bool, negative: bool,
    comparison: Comparison, left: Sql, right: Sql, negated: bool)

  predicate AnyNull(guards: seq<Sql>, row: Row) {
    exists i | 0 <= i < |guards| :: SqlValue(guards[i], row).None?
  }

  predicate IsZeroValue(v: Option<D.Double>) {
    v.Some? && v.value.IsZero()
  }

  function CaseHolds(c: DivisionCase, row: Row): Tri {
    var numerator, denominator := SqlValue(c.numerator, row), SqlValue(c.denominator, row);
    if AnyNull(c.guards, row) then Unknown
    else if IsZeroValue(denominator) && IsZeroValue(numerator) then OfTruth(c.nan)
    else if IsZeroValue(denominator) && numerator.Some? && D.Less(ZERO, numerator.value) then OfTruth(c.positive)
    else if IsZeroValue(denominator) then OfTruth(c.negative)
    else WithPolarity(SqlComparison(c.comparison, SqlValue(c.left, row), SqlValue(c.right, row)), c.negated)
  }

  function InWireOrder<T>(sideIsLeft: bool, side: T, other: T): (T, T) {
    if sideIsLeft then (side, other) else (other, side)
  }

  function Guard(s: Sql, operand: Operand): seq<Sql> {
    if operand.Literal? || ResolveConstantNumber(operand).Some? then [] else [s]
  }

  /** One IEEE outcome folded through the enclosing arithmetic and compared with a finite sentinel. */
  function Arm(op: Comparison, enclosing: Operand, at: seq<nat>, nonFinite: D.Double, divisionIsLeft: bool,
      negated: bool): Translation<bool>
  {
    match FoldWithSubstitution(enclosing, at, nonFinite)
    case None => Refused
    case Some(folded) =>
      var sides := InWireOrder(divisionIsLeft, folded, ZERO);
      Done(NumberComparison(op, sides.0, sides.1) != negated)
  }

  function BuildDivisionComparison(op: Comparison, enclosing: Operand, at: seq<nat>, other: Operand,
      divisionIsLeft: bool, integerColumn: Path -> bool, negated: bool): Translation<DivisionCase>
  {
    var division := At(enclosing, at);
    if !division.Expr? || |division.operands| < 2 then Refused
    else
      var n, d := division.operands[0], division.operands[1];
      if FindZeroCapableDivision(n).Some? || FindZeroCapableDivision(d).Some? then Refused
      else
        var numerator :- BuildValueExpression(n);
        var denominator :- BuildValueExpression(d);
        var otherExpr :- BuildValueExpression(other);
        var constantDenominator := ResolveConstantNumber(d);
        var zeroIsNegative := constantDenominator == Some(D.Fin(true, 0.0));
        var constantNumerator := ResolveConstantNumber(n);
        var zeroSignIsKnown :=
          constantDenominator.Some? || (d.Variable? && integerColumn(d.path)) ||
          (constantNumerator.Some? && constantNumerator.value.IsZero());
        var positive :- Arm(op, enclosing, at, D.Inf(zeroIsNegative), divisionIsLeft, negated);
        var negative :- Arm(op, enclosing, at, D.Inf(!zeroIsNegative), divisionIsLeft, negated);
        if !zeroSignIsKnown && positive != negative then Refused
        else
          var enclosingExpr :- BuildValueExpression(enclosing);
          var nan :- Arm(op, enclosing, at, D.NaN, divisionIsLeft, negated);
          var sides := InWireOrder(divisionIsLeft, enclosingExpr, otherExpr);
          Done(DivisionCase(Guard(numerator, n) + Guard(denominator, d) + Guard(otherExpr, other),
            numerator, denominator, nan, positive, negative, op, sides.0, sides.1, negated))
  }

  /** A comparison with a zero-capable division on one side; one on both sides is refused. */
  function BuildZeroCapableComparison(op: Comparison, left: Operand, right: Operand, integerColumn: Path -> bool,
      negated: bool): Translation<DivisionCase>
  {
    match (FindZeroCapableDivision(left), FindZeroCapableDivision(right))
    case (Some(at), None) => BuildDivisionComparison(op, left, at, right, true, integerColumn, negated)
    case (None, Some(at)) => BuildDivisionComparison(op, right, at, left, false, integerColumn, negated)
    case _ => Refused
  }
}
