/** Exactly which comparisons over a division that may divide by zero have a CASE. */
module DivisionRefusals {
  import opened Wrappers
  import D = Doubles
  import opened Cel
  import opened Plans
  import opened DivisionLowering
  import opened DivisionCorrect
  import opened DivisionCases

  /** An arithmetic tree of `+`, `-`, `*` and `/` over numbers, and over columns where those are allowed. */
  predicate Numeric(e: Operand, columns: bool)
    decreases e
  {
    match e
    case Literal(v) => v.Num?
    case Variable(_) => columns
    case Expr(op, args) =>
      FourOperations(op) && |args| == 2 && Numeric(args[0], columns) && Numeric(args[1], columns)
  }

  predicate FourOperations(op: Operator) {
    match op
    case Arith(arithmetic) => arithmetic.Add? || arithmetic.Sub? || arithmetic.Mult? || arithmetic.Div?
    case _ => false
  }

  lemma {:induction false} ConstantsAreNumeric(e: Operand)
    ensures IsConstant(e) <==> Numeric(e, false)
    decreases e
  {
    if Foldable(e) {
      ConstantsAreNumeric(e.operands[0]);
      ConstantsAreNumeric(e.operands[1]);
    }
  }

  lemma {:induction false} BuiltIsNumeric(e: Operand)
    ensures BuildValueExpression(e).Done? <==> Numeric(e, true)
    decreases e
  {
    if Foldable(e) {
      BuiltIsNumeric(e.operands[0]);
      BuiltIsNumeric(e.operands[1]);
      NodeBuilt(e);
    }
  }

  lemma NodeBuilt(e: Operand)
    requires Foldable(e)
    ensures BuildValueExpression(e).Done? <==>
      BuildValueExpression(e.operands[0]).Done? && BuildValueExpression(e.operands[1]).Done?
    ensures Numeric(e, true) <==> Numeric(e.operands[0], true) && Numeric(e.operands[1], true)
  {
    if QuotientOfLiterals(e) {
      var a, b := e.operands[0], e.operands[1];
      assert a.Literal? && a.value.Num? && b.Literal? && b.value.Num?;
    }
  }

  // ----- the division -----

  /** A division some row decides, whose divisor a row may make zero or which is the constant zero. */
  predicate MayDivideByZero(e: Operand) {
    match e
    case Expr(Arith(Div), args) =>
      |args| > 1 && !Numeric(e, false) &&
      (!Numeric(args[1], false) || IsZeroValue(Ieee(args[1], NO_COLUMNS)))
    case _ => false
  }

  lemma ZeroCapableIs(e: Operand)
    ensures IsZeroCapableDivision(e) <==> MayDivideByZero(e)
  {
    ConstantsAreNumeric(e);
    if e.Expr? && |e.operands| > 1 {
      ConstantsAreNumeric(e.operands[1]);
      if IsConstant(e.operands[1]) {
        ConstantIsIeee(e.operands[1], NO_COLUMNS);
      }
    }
  }

  /** Such a division, reached through arithmetic alone and under no other one. */
  predicate DividesAt(e: Operand, at: seq<nat>)
    decreases |at|
  {
    if at == [] then MayDivideByZero(e)
    else
      !MayDivideByZero(e) && e.Expr? && e.operator.Arith? && at[0] < |e.operands| &&
      DividesAt(e.operands[at[0]], at[1..])
  }

  ghost predicate HasDivision(e: Operand) {
    exists at :: DividesAt(e, at)
  }

  lemma {:induction false} FoundDivides(e: Operand)
    ensures var found := FindZeroCapableDivision(e);
      if found.Some? then DividesAt(e, found.value) else !HasDivision(e)
    decreases e, 0
  {
    ZeroCapableIs(e);
    if !MayDivideByZero(e) && e.Expr? && e.operator.Arith? {
      FoundAmong(e, 0);
      forall i | 0 <= i < |e.operands|
        ensures var found := FindZeroCapableDivision(e.operands[i]);
          if found.Some? then DividesAt(e.operands[i], found.value) else !HasDivision(e.operands[i])
      {
        FoundDivides(e.operands[i]);
      }
      if FindZeroCapableDivision(e).None? {
        forall at ensures !DividesAt(e, at) {
          if at != [] && at[0] < |e.operands| {
            assert !HasDivision(e.operands[at[0]]);
          }
        }
      }
    }
  }

  // ----- around the division -----

  /** Every operand beside the way to the position is a constant. */
  predicate AmongConstants(e: Operand, at: seq<nat>)
    decreases |at|
  {
    at == [] ||
    (e.Expr? && FourOperations(e.operator) && |e.operands| == 2 && at[0] < 2 &&
     Numeric(e.operands[1 - at[0]], false) && AmongConstants(e.operands[at[0]], at[1..]))
  }

  lemma {:induction false} FoldsAmongConstants(e: Operand, at: seq<nat>, x: D.Double)
    ensures FoldWithSubstitution(e, at, x).Some? <==> AmongConstants(e, at)
    decreases |at|
  {
    if at != [] && Foldable(e) && at[0] < 2 {
      FoldsAmongConstants(e.operands[at[0]], at[1..], x);
      ConstantsAreNumeric(e.operands[1 - at[0]]);
    }
  }

  /** The tree around the division is numeric where the division is. */
  lemma {:induction false} EnclosingIsNumeric(e: Operand, at: seq<nat>)
    requires AmongConstants(e, at)
    ensures Numeric(e, true) <==> Numeric(At(e, at), true)
    decreases |at|
  {
    if at != [] {
      EnclosingIsNumeric(e.operands[at[0]], at[1..]);
      NumericWithColumns(e.operands[1 - at[0]]);
    }
  }

  lemma {:induction false} NumericWithColumns(e: Operand)
    requires Numeric(e, false)
    ensures Numeric(e, true)
    decreases e
  {
    if e.Expr? {
      NumericWithColumns(e.operands[0]);
      NumericWithColumns(e.operands[1]);
    }
  }

  lemma {:induction false} ConstantDividesNowhere(e: Operand, at: seq<nat>)
    requires Numeric(e, false)
    ensures !DividesAt(e, at)
    decreases |at|
  {
    if at != [] && e.Expr? && at[0] < |e.operands| {
      ConstantDividesNowhere(e.operands[at[0]], at[1..]);
    }
  }

  /** Among constants there is one such division. */
  lemma {:induction false} OneDivision(e: Operand, at: seq<nat>, other: seq<nat>)
    requires AmongConstants(e, at) && DividesAt(e, at) && DividesAt(e, other)
    ensures at == other
    decreases |at|
  {
    if at != [] && other != [] {
      if at[0] == other[0] {
        OneDivision(e.operands[at[0]], at[1..], other[1..]);
        assert at == [at[0]] + at[1..] && other == [other[0]] + other[1..];
      } else {
        ConstantDividesNowhere(e.operands[other[0]], other[1..]);
      }
    }
  }

  // ----- the refusals -----

  /** Whether the comparison with a finite number answers alike over either infinity. */
  ghost predicate SignIrrelevant(q: Query) {
    var up := FoldWithSubstitution(q.enclosing, q.at, D.Inf(false));
    var down := FoldWithSubstitution(q.enclosing, q.at, D.Inf(true));
    up.Some? && down.Some? && (q.Compared(up.value, ZERO) <==> q.Compared(down.value, ZERO))
  }

  /** One side has one such division among constants, none in its operands, and a sign the CASE can tell. */
  ghost predicate Lowerable(q: Query) {
    DividesAt(q.enclosing, q.at) && AmongConstants(q.enclosing, q.at) && !HasDivision(q.other) &&
    !HasDivision(q.N()) && !HasDivision(q.D()) &&
    Numeric(At(q.enclosing, q.at), true) && Numeric(q.other, true) && (SignKnown(q) || SignIrrelevant(q))
  }

  /** The comparison as a query with the division on one of its sides. */
  ghost predicate Asks(q: Query, op: Comparison, left: Operand, right: Operand, integerColumn: Path -> bool,
      negated: bool)
  {
    q.op == op && q.integerColumn == integerColumn && q.negated == negated &&
    if q.divisionIsLeft then q.enclosing == left && q.other == right else q.enclosing == right && q.other == left
  }

  /** The lowering has a CASE exactly for such a comparison, and refuses every other. */
  lemma DivisionRefused(op: Comparison, left: Operand, right: Operand, integerColumn: Path -> bool, negated: bool)
    ensures BuildZeroCapableComparison(op, left, right, integerColumn, negated).Done? <==>
      exists q :: Asks(q, op, left, right, integerColumn, negated) && Lowerable(q)
  {
    hide Lowerable, BuildDivisionComparison, FindZeroCapableDivision;
    var built := BuildZeroCapableComparison(op, left, right, integerColumn, negated);
    if built.Done? {
      var q := QueryOf(op, left, right, integerColumn, negated);
      SideRefused(q);
      assert Asks(q, op, left, right, integerColumn, negated);
    }
    if q :| Asks(q, op, left, right, integerColumn, negated) && Lowerable(q) {
      DivisionFound(q);
      SideRefused(q);
    }
  }

  lemma DivisionFound(q: Query)
    requires Lowerable(q)
    ensures FindZeroCapableDivision(q.enclosing) == Some(q.at) && FindZeroCapableDivision(q.other).None?
  {
    hide Numeric, DividesAt, AmongConstants, SignKnown, SignIrrelevant, FindZeroCapableDivision;
    FoundDivides(q.enclosing);
    FoundDivides(q.other);
    assert HasDivision(q.enclosing);
    OneDivision(q.enclosing, q.at, FindZeroCapableDivision(q.enclosing).value);
  }

  /** The same of the query, once the division has been found. */
  lemma SideRefused(q: Query)
    requires FindZeroCapableDivision(q.enclosing) == Some(q.at) && FindZeroCapableDivision(q.other).None?
    ensures Build(q).Done? <==> Lowerable(q)
  {
    hide DividesAt, SignKnown, SignIrrelevant, FindZeroCapableDivision, At, Numeric, Build;
    FoundDivides(q.enclosing);
    FoundDivides(q.other);
    DivisionIs(q.enclosing, q.at);
    BuiltExactly(q);
    var division := At(q.enclosing, q.at);
    FoundDivides(q.N());
    FoundDivides(q.D());
    BuiltIsNumeric(q.N());
    BuiltIsNumeric(q.D());
    BuiltIsNumeric(q.other);
    BuiltIsNumeric(q.enclosing);
    FoldsAmongConstants(q.enclosing, q.at, D.NaN);
    if AmongConstants(q.enclosing, q.at) {
      EnclosingIsNumeric(q.enclosing, q.at);
    }
    DivisionIsNumeric(division);
  }

  function Build(q: Query): Translation<DivisionCase> {
    BuildDivisionComparison(q.op, q.enclosing, q.at, q.other, q.divisionIsLeft, q.integerColumn, q.negated)
  }

  lemma {:induction false} DivisionIs(e: Operand, at: seq<nat>)
    requires DividesAt(e, at)
    ensures var division := At(e, at); division.Expr? && division.operator == Arith(Div) && |division.operands| > 1
    decreases |at|
  {
    if at != [] {
      DivisionIs(e.operands[at[0]], at[1..]);
    }
  }

  lemma DivisionIsNumeric(division: Operand)
    requires division.Expr? && division.operator == Arith(Div) && |division.operands| > 1
    ensures Numeric(division, true) ==> Numeric(division.operands[0], true) && Numeric(division.operands[1], true)
  {
  }

  /** What the builder refuses, in the order it asks. */
  lemma BuiltExactly(q: Query)
    requires At(q.enclosing, q.at).Expr? && |At(q.enclosing, q.at).operands| > 1
    ensures Build(q).Done? <==>
      FindZeroCapableDivision(q.N()).None? && FindZeroCapableDivision(q.D()).None? &&
      BuildValueExpression(q.N()).Done? && BuildValueExpression(q.D()).Done? && BuildValueExpression(q.other).Done? &&
      FoldWithSubstitution(q.enclosing, q.at, D.NaN).Some? && (SignKnown(q) || SignIrrelevant(q)) &&
      BuildValueExpression(q.enclosing).Done?
  {
    hide FindZeroCapableDivision, BuildValueExpression, FoldWithSubstitution, At, NumberComparison;
    FoldsAmongConstants(q.enclosing, q.at, D.NaN);
    FoldsAmongConstants(q.enclosing, q.at, D.Inf(true));
    FoldsAmongConstants(q.enclosing, q.at, D.Inf(false));
  }
}
