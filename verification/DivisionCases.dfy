/** The division CASE on every row: what it answers, and exactly where that is the IEEE comparison. */
module DivisionCases {
  import opened Wrappers
  import D = Doubles
  import opened Cel
  import opened Plans
  import opened ThreeValued
  import opened DivisionLowering
  import opened DivisionCorrect

  /** A comparison with a zero-capable division at `at` on one side. */
  datatype Query = Query(op: Comparison, enclosing: Operand, at: seq<nat>, other: Operand, divisionIsLeft: bool,
    integerColumn: Path -> bool, negated: bool)
  {
    function Side(i: nat): Operand {
      var division := At(enclosing, at);
      if division.Expr? && i < |division.operands| then division.operands[i] else division
    }

    function N(): Operand {
      Side(0)
    }

    function D(): Operand {
      Side(1)
    }

    /** The comparison of two values standing for the enclosing operand and the other one. */
    predicate Compared(x: D.Double, y: D.Double) {
      var sides := InWireOrder(divisionIsLeft, x, y);
      NumberComparison(op, sides.0, sides.1)
    }
  }

  /** The CASE was lowered from the comparison. */
  ghost predicate Built(c: DivisionCase, q: Query) {
    FindZeroCapableDivision(q.enclosing) == Some(q.at) && FindZeroCapableDivision(q.other).None? &&
    BuildDivisionComparison(q.op, q.enclosing, q.at, q.other, q.divisionIsLeft, q.integerColumn, q.negated) == Done(c)
  }

  /** The answer CEL gives, UNKNOWN where an operand is missing. */
  function Answer(op: Comparison, left: Operand, right: Operand, negated: bool, row: Row): Tri {
    var a, b := Ieee(left, row), Ieee(right, row);
    if a.None? || b.None? then Unknown else WithPolarity(OfTruth(NumberComparison(op, a.value, b.value)), negated)
  }

  function QueryAnswer(q: Query, row: Row): Tri {
    var sides := InWireOrder(q.divisionIsLeft, q.enclosing, q.other);
    Answer(q.op, sides.0, sides.1, q.negated, row)
  }

  /** Integer columns hold no negative zero. */
  ghost predicate IntegerZerosArePositive(integerColumn: Path -> bool, row: Row) {
    forall path: Path :: integerColumn(path) && row(path).Some? && row(path).value.IsZero() ==> !row(path).value.neg
  }

  /** A built expression was built from built operands, down to the division. */
  lemma {:induction false} BuiltBelow(e: Operand, at: seq<nat>)
    requires FindZeroCapableDivision(e) == Some(at) && BuildValueExpression(e).Done?
    ensures BuildValueExpression(At(e, at)).Done?
    decreases |at|
  {
    if at != [] {
      FoundAmong(e, 0);
      FoundIsNotConstant(e);
      BuiltBelow(e.operands[at[0]], at[1..]);
    }
  }

  predicate IsConstant(e: Operand) {
    ResolveConstantNumber(e).Some?
  }

  /** What the lowering reads of the comparison's parts. */
  lemma Parts(c: DivisionCase, q: Query)
    requires Built(c, q)
    ensures var division := At(q.enclosing, q.at);
      division.Expr? && division.operator == Arith(Div) && |division.operands| == 2 && !IsConstant(division)
    ensures BuildValueExpression(q.N()) == Done(c.numerator) && BuildValueExpression(q.D()) == Done(c.denominator)
    ensures FindZeroCapableDivision(q.N()).None? && FindZeroCapableDivision(q.D()).None?
    ensures BuildValueExpression(q.other).Done? && BuildValueExpression(q.enclosing).Done?
    ensures var other := BuildValueExpression(q.other).result;
      c.guards == Guard(c.numerator, q.N()) + Guard(c.denominator, q.D()) + Guard(other, q.other) &&
      (c.left, c.right) == InWireOrder(q.divisionIsLeft, BuildValueExpression(q.enclosing).result, other) &&
      c.comparison == q.op && c.negated == q.negated
  {
    hide FindZeroCapableDivision, Arm, Guard;
    FoundIsDivision(q.enclosing, q.at);
    BuiltBelow(q.enclosing, q.at);
  }

  // ----- the guards -----

  lemma AnyNullSplits(a: seq<Sql>, b: seq<Sql>, row: Row)
    ensures AnyNull(a + b, row) <==> AnyNull(a, row) || AnyNull(b, row)
  {
    var all := a + b;
    assert forall i | 0 <= i < |a| :: all[i] == a[i];
    assert forall i | 0 <= i < |b| :: all[|a| + i] == b[i];
    if AnyNull(all, row) {
      var i :| 0 <= i < |all| && SqlValue(all[i], row).None?;
      assert if i < |a| then a[i] == all[i] else b[i - |a|] == all[i];
    }
    if AnyNull(b, row) {
      var i :| 0 <= i < |b| && SqlValue(b[i], row).None?;
      assert SqlValue(all[|a| + i], row).None?;
    }
  }

  /** An operand the CASE guards and SQL cannot read. */
  predicate Unread(e: Operand, row: Row) {
    !IsConstant(e) && !Readable(e, row)
  }

  lemma GuardCatches(s: Sql, e: Operand, row: Row)
    requires BuildValueExpression(e) == Done(s)
    ensures AnyNull(Guard(s, e), row) <==> Unread(e, row)
  {
    hide DividesByZero, Ieee;
    SqlIsIeee(e, row);
    StoredReadable(e, row);
    if Guard(s, e) != [] {
      assert Guard(s, e)[0] == s;
    }
  }

  lemma StoredReadable(e: Operand, row: Row)
    ensures Readable(e, row) ==> Stored(Ieee(e, row).value).Some?
  {
  }

  /** The CASE is NULL exactly where a guarded operand is missing or SQL has no value for it. */
  lemma GuardsAreExact(c: DivisionCase, q: Query, row: Row)
    requires Built(c, q)
    ensures AnyNull(c.guards, row) <==> Unread(q.N(), row) || Unread(q.D(), row) || Unread(q.other, row)
  {
    hide Guard, AnyNull, Built, BuildValueExpression, Unread;
    Parts(c, q);
    var other := BuildValueExpression(q.other).result;
    GuardCatches(c.numerator, q.N(), row);
    GuardCatches(c.denominator, q.D(), row);
    GuardCatches(other, q.other, row);
    AnyNullSplits(Guard(c.numerator, q.N()), Guard(c.denominator, q.D()), row);
    AnyNullSplits(Guard(c.numerator, q.N()) + Guard(c.denominator, q.D()), Guard(other, q.other), row);
  }

  /** The enclosing operand is present exactly when both of the division's are; its value is the fold. */
  lemma EnclosingIsFolded(c: DivisionCase, q: Query, row: Row)
    requires Built(c, q)
    ensures Ieee(q.enclosing, row).Some? <==> Ieee(q.N(), row).Some? && Ieee(q.D(), row).Some?
    ensures Ieee(q.enclosing, row).Some? ==>
      FoldWithSubstitution(q.enclosing, q.at, D.Div(Ieee(q.N(), row).value, Ieee(q.D(), row).value)) ==
      Ieee(q.enclosing, row)
  {
    hide FindZeroCapableDivision, FoldWithSubstitution, Built;
    Parts(c, q);
    ArmsAsBuilt(c, q);
    FoldIsIeee(q.enclosing, q.at, D.NaN, row);
    var v := Ieee(At(q.enclosing, q.at), row);
    if v.Some? {
      FoldTotal(q.enclosing, q.at, D.NaN, v.value);
    }
  }

  lemma ConstantIsPresent(e: Operand, row: Row)
    requires Ieee(e, row).None?
    ensures !IsConstant(e)
  {
    if IsConstant(e) {
      ConstantIsIeee(e, row);
    }
  }

  /** Where an operand is missing the CASE is NULL, as CEL's error is. */
  lemma MissingIsNull(c: DivisionCase, q: Query, row: Row)
    requires Built(c, q) && (Ieee(q.enclosing, row).None? || Ieee(q.other, row).None?)
    ensures AnyNull(c.guards, row) && CaseHolds(c, row) == Unknown && QueryAnswer(q, row) == Unknown
  {
    hide Built, AnyNull, FoldWithSubstitution, IsConstant;
    GuardsAreExact(c, q, row);
    EnclosingIsFolded(c, q, row);
    if Ieee(q.other, row).None? {
      ConstantIsPresent(q.other, row);
    } else if Ieee(q.N(), row).None? {
      ConstantIsPresent(q.N(), row);
    } else {
      ConstantIsPresent(q.D(), row);
    }
  }

  // ----- the arms -----

  /** The infinity a positive numerator makes over the zero denominator the lowering assumes. */
  function AssumedInfinity(denominator: Operand): D.Double {
    D.Inf(ResolveConstantNumber(denominator) == Some(D.Fin(true, 0.0)))
  }

  /** The denominator's zero has the assumed sign, or never divides anything but a zero. */
  predicate SignKnown(q: Query) {
    IsConstant(q.D()) || (q.D().Variable? && q.integerColumn(q.D().path)) ||
    (IsConstant(q.N()) && ResolveConstantNumber(q.N()).value.IsZero())
  }

  lemma ArmsAsBuilt(c: DivisionCase, q: Query)
    requires Built(c, q)
    ensures var infinity := AssumedInfinity(q.D());
      Arm(q.op, q.enclosing, q.at, D.NaN, q.divisionIsLeft, q.negated) == Done(c.nan) &&
      Arm(q.op, q.enclosing, q.at, infinity, q.divisionIsLeft, q.negated) == Done(c.positive) &&
      Arm(q.op, q.enclosing, q.at, D.Negate(infinity), q.divisionIsLeft, q.negated) == Done(c.negative)
    ensures FoldWithSubstitution(q.enclosing, q.at, D.NaN).Some?
    ensures c.positive == c.negative || SignKnown(q)
  {
    hide FindZeroCapableDivision, ResolveConstantNumber, BuildValueExpression, FoldWithSubstitution;
  }

  /** An arm is the comparison of the folded value with the sentinel. */
  lemma ArmCompares(q: Query, value: D.Double)
    requires FoldWithSubstitution(q.enclosing, q.at, value).Some?
    ensures Arm(q.op, q.enclosing, q.at, value, q.divisionIsLeft, q.negated) ==
      Done(q.Compared(FoldWithSubstitution(q.enclosing, q.at, value).value, ZERO) != q.negated)
  {
  }

  /** The sign of a quotient over zero is the assumed one, unless the sign is not known. */
  lemma QuotientOverZero(q: Query, row: Row)
    requires IntegerZerosArePositive(q.integerColumn, row) && SignKnown(q)
    requires Ieee(q.N(), row).Some? && !Ieee(q.N(), row).value.NaN? && IsZeroValue(Ieee(q.D(), row))
    ensures var x := Ieee(q.N(), row).value;
      D.Div(x, Ieee(q.D(), row).value) ==
        if x.IsZero() then D.NaN
        else if D.Less(ZERO, x) then AssumedInfinity(q.D()) else D.Negate(AssumedInfinity(q.D()))
  {
    if IsConstant(q.N()) {
      ConstantIsIeee(q.N(), row);
    }
    if IsConstant(q.D()) {
      ConstantIsIeee(q.D(), row);
    }
  }

  lemma QuotientIsNonFinite(x: D.Double, y: D.Double)
    requires y.IsZero()
    ensures var value := D.Div(x, y);
      if x.IsZero() || x.NaN? then value.NaN? else value == D.Inf(false) || value == D.Inf(true)
  {
  }

  /** The value whose arm the CASE takes over a zero denominator. */
  function Taken(q: Query, row: Row): D.Double
    requires Ieee(q.N(), row).Some? && Ieee(q.D(), row).Some?
  {
    if Readable(q.N(), row) then D.Div(Ieee(q.N(), row).value, Ieee(q.D(), row).value)
    else D.Negate(AssumedInfinity(q.D()))
  }

  /** Over a zero that SQL reads, the CASE takes the arm of the division's own value where SQL reads the numerator. */
  lemma ZeroTakesArm(c: DivisionCase, q: Query, row: Row)
    requires Built(c, q) && IntegerZerosArePositive(q.integerColumn, row) && !AnyNull(c.guards, row)
    requires Ieee(q.N(), row).Some? && IsZeroValue(Ieee(q.D(), row)) && Readable(q.D(), row)
    ensures Arm(q.op, q.enclosing, q.at, Taken(q, row), q.divisionIsLeft, q.negated).Done?
    ensures CaseHolds(c, row) ==
      OfTruth(Arm(q.op, q.enclosing, q.at, Taken(q, row), q.divisionIsLeft, q.negated).result)
  {
    hide Built, AnyNull, Arm, SqlValue, Ieee, DividesByZero, SignKnown, BuildValueExpression, IntegerZerosArePositive;
    Parts(c, q);
    ArmsAsBuilt(c, q);
    SqlIsIeee(q.N(), row);
    SqlIsIeee(q.D(), row);
    var x, y := Ieee(q.N(), row).value, Ieee(q.D(), row).value;
    QuotientIsNonFinite(x, y);
    StoredOrder(x);
    if Readable(q.N(), row) && c.positive != c.negative {
      QuotientOverZero(q, row);
    }
  }

  lemma StoredOrder(x: D.Double)
    ensures x.NaN? <==> Stored(x).None?
    ensures !x.NaN? ==> (Stored(x).value.IsZero() <==> x.IsZero())
    ensures !x.NaN? ==> (D.Less(ZERO, Stored(x).value) <==> D.Less(ZERO, x))
  {
  }

  /** Elsewhere the CASE compares what SQL reads of the two whole operands. */
  lemma ElseCompares(c: DivisionCase, q: Query, row: Row)
    requires Built(c, q) && !AnyNull(c.guards, row)
    requires !(IsZeroValue(Ieee(q.D(), row)) && Readable(q.D(), row))
    ensures CaseHolds(c, row) == WithPolarity(
      if Readable(q.enclosing, row) && Readable(q.other, row)
      then OfTruth(q.Compared(Ieee(q.enclosing, row).value, Ieee(q.other, row).value)) else Unknown, q.negated)
  {
    hide Built, AnyNull, SqlValue, Ieee, DividesByZero, BuildValueExpression, SqlComparison, NumberComparison, Stored,
      D.Less;
    Parts(c, q);
    SqlIsIeee(q.D(), row);
    SqlIsIeee(q.enclosing, row);
    SqlIsIeee(q.other, row);
    if Readable(q.D(), row) {
      StoredOrder(Ieee(q.D(), row).value);
    }
    if Readable(q.enclosing, row) && Readable(q.other, row) {
      var x, y := Ieee(q.enclosing, row).value, Ieee(q.other, row).value;
      StoredComparison(q.op, x, y);
      StoredComparison(q.op, y, x);
    } else {
      NullComparison(q.op, c.left, c.right, row);
    }
  }

  lemma NullComparison(op: Comparison, left: Sql, right: Sql, row: Row)
    ensures SqlValue(left, row).None? || SqlValue(right, row).None? ==>
      SqlComparison(op, SqlValue(left, row), SqlValue(right, row)) == Unknown
  {
  }

  lemma StoredComparison(op: Comparison, a: D.Double, b: D.Double)
    requires !a.NaN? && !b.NaN?
    ensures SqlComparison(op, Stored(a), Stored(b)) == OfTruth(NumberComparison(op, a, b))
  {
    StoredLess(a, b);
    StoredLess(b, a);
    assert D.Same(a, b) <==> !D.Less(a, b) && !D.Less(b, a);
  }

  lemma StoredLess(a: D.Double, b: D.Double)
    requires !a.NaN? && !b.NaN?
    ensures Stored(a).Some? && Stored(b).Some? && (D.Less(Stored(a).value, Stored(b).value) <==> D.Less(a, b))
  {
  }

  // ----- exactly where the CASE is right -----

  /**
    What makes the CASE right on a row: an operand is missing; or SQL reads every guarded operand and, over
    a zero denominator, the taken arm's value compares with the sentinel 0 as the two operands compare, and
    otherwise SQL reads both of them.
   */
  predicate ExactOn(q: Query, row: Row) {
    var x, y := Ieee(q.enclosing, row), Ieee(q.other, row);
    x.None? || y.None? ||
    (!Unread(q.N(), row) && !Unread(q.D(), row) && !Unread(q.other, row) &&
     if IsZeroValue(Ieee(q.D(), row)) && Readable(q.D(), row) then
       Ieee(q.N(), row).Some? &&
       var arm := FoldWithSubstitution(q.enclosing, q.at, Taken(q, row));
       arm.Some? && q.Compared(arm.value, ZERO) == q.Compared(x.value, y.value)
     else Readable(q.enclosing, row) && Readable(q.other, row))
  }

  lemma PresentIsAnswered(q: Query, row: Row)
    requires Ieee(q.enclosing, row).Some? && Ieee(q.other, row).Some?
    ensures QueryAnswer(q, row) ==
      WithPolarity(OfTruth(q.Compared(Ieee(q.enclosing, row).value, Ieee(q.other, row).value)), q.negated)
  {
  }

  lemma TakenFolds(c: DivisionCase, q: Query, row: Row)
    requires Built(c, q) && Ieee(q.N(), row).Some? && Ieee(q.D(), row).Some?
    ensures FoldWithSubstitution(q.enclosing, q.at, Taken(q, row)).Some?
  {
    hide Built, FoldWithSubstitution;
    ArmsAsBuilt(c, q);
    FoldTotal(q.enclosing, q.at, D.NaN, Taken(q, row));
  }

  lemma CaseExact(c: DivisionCase, q: Query, row: Row)
    requires Built(c, q) && IntegerZerosArePositive(q.integerColumn, row)
    ensures CaseHolds(c, row) == QueryAnswer(q, row) <==> ExactOn(q, row)
  {
    hide Built, IntegerZerosArePositive, AnyNull, Arm, FoldWithSubstitution, Ieee, DividesByZero, NumberComparison;
    GuardsAreExact(c, q, row);
    if Ieee(q.enclosing, row).None? || Ieee(q.other, row).None? {
      MissingIsNull(c, q, row);
    } else {
      EnclosingIsFolded(c, q, row);
      PresentIsAnswered(q, row);
      if AnyNull(c.guards, row) {
        NullAnswersNothing(c, row);
      } else if IsZeroValue(Ieee(q.D(), row)) && Readable(q.D(), row) {
        ZeroTakesArm(c, q, row);
        TakenFolds(c, q, row);
        ArmCompares(q, Taken(q, row));
      } else {
        ElseCompares(c, q, row);
      }
    }
  }

  lemma NullAnswersNothing(c: DivisionCase, row: Row)
    requires AnyNull(c.guards, row)
    ensures CaseHolds(c, row) == Unknown
  {
  }

  /** The comparison that a lowering without refusal was built from. */
  function QueryOf(op: Comparison, left: Operand, right: Operand, integerColumn: Path -> bool, negated: bool):
      (q: Query)
    requires BuildZeroCapableComparison(op, left, right, integerColumn, negated).Done?
    ensures Built(BuildZeroCapableComparison(op, left, right, integerColumn, negated).result, q)
    ensures InWireOrder(q.divisionIsLeft, q.enclosing, q.other) == (left, right)
    ensures q.op == op && q.integerColumn == integerColumn && q.negated == negated
  {
    var found := FindZeroCapableDivision(left);
    if found.Some? then Query(op, left, found.value, right, true, integerColumn, negated)
    else Query(op, right, FindZeroCapableDivision(right).value, left, false, integerColumn, negated)
  }

  /** Whatever constants the plan carries, the CASE is the IEEE comparison of the operands on exactly these rows. */
  lemma DivisionCaseExact(op: Comparison, left: Operand, right: Operand, integerColumn: Path -> bool, negated: bool,
      row: Row)
    requires BuildZeroCapableComparison(op, left, right, integerColumn, negated).Done?
    requires IntegerZerosArePositive(integerColumn, row)
    ensures ExactOn(QueryOf(op, left, right, integerColumn, negated), row) <==>
      CaseHolds(BuildZeroCapableComparison(op, left, right, integerColumn, negated).result, row) ==
      Answer(op, left, right, negated, row)
  {
    hide Built, ExactOn, CaseHolds, Answer;
    var q := QueryOf(op, left, right, integerColumn, negated);
    CaseExact(BuildZeroCapableComparison(op, left, right, integerColumn, negated).result, q, row);
    SidesAnswer(q, row);
  }

  lemma SidesAnswer(q: Query, row: Row)
    ensures var sides := InWireOrder(q.divisionIsLeft, q.enclosing, q.other);
      QueryAnswer(q, row) == Answer(q.op, sides.0, sides.1, q.negated, row)
  {
  }

  // ----- finite constants -----

  /** Every constant the plan carries, folded or not, is finite. */
  predicate ConstantsFinite(e: Operand)
    decreases e
  {
    (IsConstant(e) ==> ResolveConstantNumber(e).value.Fin?) &&
    (e.Expr? ==> forall i | 0 <= i < |e.operands| :: ConstantsFinite(e.operands[i]))
  }

  ghost predicate FiniteRow(row: Row) {
    forall path: Path :: row(path).Some? ==> row(path).value.Fin?
  }

  lemma {:induction false} ConstantsBelow(e: Operand, at: seq<nat>)
    requires ConstantsFinite(e)
    ensures ConstantsFinite(At(e, at))
    decreases |at|
  {
    if at != [] && e.Expr? && at[0] < |e.operands| {
      ConstantsBelow(e.operands[at[0]], at[1..]);
    }
  }

  /** Without a zero-capable division, what an operand divides by is settled before any row is read. */
  lemma {:induction false} NoneFoundNonZero(e: Operand, row: Row, other: Row)
    requires FindZeroCapableDivision(e).None? && BuildValueExpression(e).Done?
    ensures DividesByZero(e, row) <==> DividesByZero(e, other)
    decreases e
  {
    hide FindZeroCapableDivision;
    if e.Expr? && !QuotientOfLiterals(e) {
      var a, b := e.operands[0], e.operands[1];
      NoneFoundBelow(e);
      NoneFoundNonZero(a, row, other);
      NoneFoundNonZero(b, row, other);
      DividesBelow(e, row);
      DividesBelow(e, other);
      if e.operator == Arith(Div) {
        ConstantIsIeee(b, row);
        ConstantIsIeee(b, other);
      }
    } else if QuotientOfLiterals(e) {
      QuotientDividesNothing(e, row);
      QuotientDividesNothing(e, other);
    }
  }

  lemma QuotientDividesNothing(e: Operand, row: Row)
    requires QuotientOfLiterals(e)
    ensures !DividesByZero(e, row)
  {
    assert forall i | 0 <= i < |e.operands| :: !DividesByZero(e.operands[i], row);
  }

  /** Neither operand holds a zero-capable division, and a denominator is a constant. */
  lemma NoneFoundBelow(e: Operand)
    requires FindZeroCapableDivision(e).None? && Foldable(e)
    ensures FindZeroCapableDivision(e.operands[0]).None? && FindZeroCapableDivision(e.operands[1]).None?
    ensures e.operator == Arith(Div) ==> IsConstant(e.operands[1])
    ensures e.operator == Arith(Div) && !IsConstant(e) ==> !ResolveConstantNumber(e.operands[1]).value.IsZero()
  {
    FoundAmong(e, 0);
    assert IsConstant(e) ==> IsConstant(e.operands[0]) && IsConstant(e.operands[1]);
    if IsConstant(e) {
      ConstantHoldsNone(e.operands[0]);
      ConstantHoldsNone(e.operands[1]);
    }
  }

  lemma ConstantHoldsNone(e: Operand)
    requires IsConstant(e)
    ensures FindZeroCapableDivision(e).None?
  {
    if FindZeroCapableDivision(e).Some? {
      FoundIsNotConstant(e);
    }
  }

  lemma ApplyFinite(op: Arithmetic, x: D.Double, y: D.Double)
    requires x.Fin? && y.Fin? && op != Mod
    ensures Apply(op, x, y).Fin? <==> !(op == Div && y.IsZero())
  {
  }

  /** With finite columns and constants an operand without a zero-capable division is finite, and SQL reads it. */
  lemma {:induction false} FiniteOperand(e: Operand, row: Row)
    requires FindZeroCapableDivision(e).None? && BuildValueExpression(e).Done?
    requires ConstantsFinite(e) && FiniteRow(row)
    ensures !DividesByZero(e, row)
    ensures Ieee(e, row).Some? ==> Ieee(e, row).value.Fin? && Readable(e, row)
    decreases e
  {
    hide FindZeroCapableDivision, Apply, FiniteRow;
    if e.Expr? {
      var a, b := e.operands[0], e.operands[1];
      NoneFoundBelow(e);
      FiniteOperand(a, row);
      FiniteOperand(b, row);
      if IsConstant(e) {
        ConstantIsIeee(e, row);
        ConstantIsIeee(a, row);
      } else if IsConstant(b) {
        ConstantIsIeee(b, row);
      }
      FiniteOperation(e, row);
    } else {
      FiniteLeaf(e, row);
    }
  }

  lemma FiniteLeaf(e: Operand, row: Row)
    requires BuildValueExpression(e).Done? && ConstantsFinite(e) && FiniteRow(row) && !e.Expr?
    ensures !DividesByZero(e, row)
    ensures Ieee(e, row).Some? ==> Ieee(e, row).value.Fin?
  {
  }

  ghost predicate IsFinite(e: Operand, row: Row) {
    !DividesByZero(e, row) && (Ieee(e, row).Some? ==> Ieee(e, row).value.Fin?)
  }

  /** One operation over finite operands, whose denominator is not zero or whose own value is finite. */
  lemma FiniteOperation(e: Operand, row: Row)
    requires Foldable(e) && IsFinite(e.operands[0], row) && IsFinite(e.operands[1], row)
    requires e.operator == Arith(Div) && IsZeroValue(Ieee(e.operands[1], row)) ==>
      Ieee(e, row).Some? && Ieee(e, row).value.Fin?
    ensures IsFinite(e, row)
  {
    hide Apply;
    var a, b := e.operands[0], e.operands[1];
    if Ieee(a, row).Some? && Ieee(b, row).Some? {
      ApplyFinite(e.operator.arithmetic, Ieee(a, row).value, Ieee(b, row).value);
    }
    if QuotientOfLiterals(e) {
      QuotientDividesNothing(e, row);
    } else {
      DividesBelow(e, row);
    }
  }

  lemma {:induction false} ConstantBuilds(e: Operand)
    requires IsConstant(e)
    ensures BuildValueExpression(e).Done?
    decreases e
  {
    if e.Expr? {
      ConstantBuilds(e.operands[0]);
      ConstantBuilds(e.operands[1]);
    }
  }

  /** Above a finite division there is only finite constant arithmetic, and it divides by no zero. */
  lemma {:induction false} EnclosingFinite(e: Operand, at: seq<nat>, x: D.Double, row: Row)
    requires FindZeroCapableDivision(e) == Some(at) && FoldWithSubstitution(e, at, x).Some?
    requires ConstantsFinite(e) && FiniteRow(row) && IsFinite(At(e, at), row)
    ensures IsFinite(e, row)
    decreases |at|
  {
    hide IsFinite, FiniteRow, FindZeroCapableDivision;
    if at != [] {
      FoundBelow(e, at);
      var i := at[0];
      var constant := e.operands[1 - i];
      assert ConstantsFinite(e.operands[i]) && ConstantsFinite(constant);
      EnclosingFinite(e.operands[i], at[1..], x, row);
      ConstantIsFinite(constant, row);
      ConstantIsIeee(constant, row);
      FiniteOperation(e, row);
    }
  }

  lemma ConstantIsFinite(e: Operand, row: Row)
    requires IsConstant(e) && ConstantsFinite(e) && FiniteRow(row)
    ensures IsFinite(e, row)
  {
    ConstantHoldsNone(e);
    ConstantBuilds(e);
    FiniteOperand(e, row);
  }

  /** The division is finite unless it divides by zero. */
  lemma DivisionFinite(c: DivisionCase, q: Query, row: Row)
    requires Built(c, q) && ConstantsFinite(q.enclosing) && FiniteRow(row)
    ensures IsFinite(q.N(), row) && IsFinite(q.D(), row)
    ensures !IsZeroValue(Ieee(q.D(), row)) ==> IsFinite(q.enclosing, row)
  {
    hide BuildDivisionComparison, FindZeroCapableDivision, FiniteRow, DividesByZero, FoldWithSubstitution, Ieee;
    Parts(c, q);
    ArmsAsBuilt(c, q);
    ConstantsBelow(q.enclosing, q.at);
    var division := At(q.enclosing, q.at);
    assert ConstantsFinite(division.operands[0]) && ConstantsFinite(division.operands[1]);
    FiniteOperand(q.N(), row);
    FiniteOperand(q.D(), row);
    if !IsZeroValue(Ieee(q.D(), row)) {
      FiniteOperation(division, row);
      EnclosingFinite(q.enclosing, q.at, D.NaN, row);
    }
  }

  /**
    With finite columns and finite constants around the division, only the comparand decides: over a zero
    denominator its comparison must be the sentinel's, and elsewhere SQL must read it.
   */
  lemma ComparandDecides(c: DivisionCase, q: Query, row: Row)
    requires Built(c, q) && ConstantsFinite(q.enclosing) && FiniteRow(row)
    requires Ieee(q.enclosing, row).Some? && Ieee(q.other, row).Some?
    ensures var x, y := Ieee(q.enclosing, row).value, Ieee(q.other, row).value;
      ExactOn(q, row) <==>
      if IsZeroValue(Ieee(q.D(), row)) then !Unread(q.other, row) && q.Compared(x, ZERO) == q.Compared(x, y)
      else Readable(q.other, row)
  {
    hide Built, FiniteRow, ConstantsFinite, FoldWithSubstitution, Ieee, DividesByZero, NumberComparison;
    EnclosingIsFolded(c, q, row);
    DivisionFinite(c, q, row);
  }

  /** Against a constant `k` the condition needs no row beyond the division's own value. */
  lemma ComparandExact(c: DivisionCase, q: Query, k: D.Double, row: Row)
    requires Built(c, q) && ConstantsFinite(q.enclosing) && FiniteRow(row)
    requires IntegerZerosArePositive(q.integerColumn, row)
    requires ResolveConstantNumber(q.other) == Some(k) && Ieee(q.enclosing, row).Some?
    ensures var x := Ieee(q.enclosing, row).value;
      CaseHolds(c, row) == QueryAnswer(q, row) <==>
      if IsZeroValue(Ieee(q.D(), row)) then q.Compared(x, ZERO) == q.Compared(x, k)
      else !k.NaN? && !DividesByZero(q.other, row)
  {
    hide Built, FiniteRow, ConstantsFinite, DividesByZero, NumberComparison, CaseHolds, ExactOn;
    ConstantIsIeee(q.other, row);
    CaseExact(c, q, row);
    ComparandDecides(c, q, row);
  }

  /**
    With finite columns and constants, the CASE is the IEEE comparison of the two whole operands wherever the
    lowering does not refuse, and NULL exactly where one of them reads a missing column.
   */
  lemma DivisionCaseCorrect(op: Comparison, left: Operand, right: Operand, integerColumn: Path -> bool,
      negated: bool, row: Row)
    requires BuildZeroCapableComparison(op, left, right, integerColumn, negated).Done?
    requires ConstantsFinite(left) && ConstantsFinite(right)
    requires FiniteRow(row) && IntegerZerosArePositive(integerColumn, row)
    ensures CaseHolds(BuildZeroCapableComparison(op, left, right, integerColumn, negated).result, row) ==
      Answer(op, left, right, negated, row)
  {
    hide Built, FiniteRow, ConstantsFinite, ExactOn, CaseHolds, Answer, BuildZeroCapableComparison,
      FindZeroCapableDivision;
    var c := BuildZeroCapableComparison(op, left, right, integerColumn, negated).result;
    var q := QueryOf(op, left, right, integerColumn, negated);
    DivisionCaseExact(op, left, right, integerColumn, negated, row);
    FiniteIsExact(c, q, row);
  }

  lemma FiniteIsExact(c: DivisionCase, q: Query, row: Row)
    requires Built(c, q) && ConstantsFinite(q.enclosing) && ConstantsFinite(q.other) && FiniteRow(row)
    ensures ExactOn(q, row)
  {
    hide FiniteRow, ConstantsFinite, DividesByZero, NumberComparison, FindZeroCapableDivision, BuildValueExpression,
      FoldWithSubstitution;
    Parts(c, q);
    FiniteOperand(q.other, row);
    if Ieee(q.enclosing, row).Some? && Ieee(q.other, row).Some? {
      ComparandDecides(c, q, row);
      if IsZeroValue(Ieee(q.D(), row)) {
        OverZeroIsNonFinite(c, q, row);
        SentinelStands(q.op, Ieee(q.enclosing, row).value, Ieee(q.other, row).value, q.divisionIsLeft);
      }
    }
  }

  lemma OverZeroIsNonFinite(c: DivisionCase, q: Query, row: Row)
    requires Built(c, q) && Ieee(q.enclosing, row).Some? && IsZeroValue(Ieee(q.D(), row))
    ensures !Ieee(q.enclosing, row).value.Fin?
  {
    hide FoldWithSubstitution, Ieee, BuildDivisionComparison;
    EnclosingIsFolded(c, q, row);
    var x, y := Ieee(q.N(), row).value, Ieee(q.D(), row).value;
    QuotientIsNonFinite(x, y);
    FoldNonFinite(q.enclosing, q.at, D.Div(x, y));
  }

  /** A non-finite value compares with every finite one as with the sentinel. */
  lemma SentinelStands(op: Comparison, nonFinite: D.Double, finite: D.Double, sideIsLeft: bool)
    requires !nonFinite.Fin? && finite.Fin?
    ensures var a := InWireOrder(sideIsLeft, nonFinite, ZERO);
      var b := InWireOrder(sideIsLeft, nonFinite, finite);
      NumberComparison(op, a.0, a.1) == NumberComparison(op, b.0, b.1)
  {
  }

  // ----- a constant comparand, before any row is read -----

  /** The comparand that every non-finite value compares with as with the sentinel. */
  predicate SentinelFits(op: Comparison, k: D.Double, divisionIsLeft: bool) {
    match k
    case Fin(_, _) => true
    case NaN => op == Eq || op == Ne
    case Inf(neg) =>
      ((op == Lt || op == Ge) && neg != divisionIsLeft) || ((op == Le || op == Gt) && neg == divisionIsLeft)
  }

  /** The comparison of a value with the sentinel is the one with `k`. */
  predicate StandsFor(q: Query, x: D.Double, k: D.Double) {
    q.Compared(x, ZERO) == q.Compared(x, k)
  }

  /** For which operators, sides and constants the sentinel stands for the constant, whatever the arm. */
  lemma SentinelExactly(q: Query, k: D.Double)
    ensures StandsFor(q, D.NaN, k) && StandsFor(q, D.Inf(false), k) && StandsFor(q, D.Inf(true), k) <==>
      SentinelFits(q.op, k, q.divisionIsLeft)
    ensures SentinelFits(q.op, k, q.divisionIsLeft) ==> forall x: D.Double | !x.Fin? :: StandsFor(q, x, k)
  {
    if k.Fin? {
      SentinelStands(q.op, D.NaN, k, q.divisionIsLeft);
      SentinelStands(q.op, D.Inf(false), k, q.divisionIsLeft);
      SentinelStands(q.op, D.Inf(true), k, q.divisionIsLeft);
    }
    forall x: D.Double | !x.Fin?
      ensures x == D.NaN || x == D.Inf(false) || x == D.Inf(true)
    {
    }
  }

  const NO_COLUMNS: Row := path => None

  /** `R.a / R.b`, over two different columns. */
  predicate IsColumnQuotient(e: Operand, a: Path, b: Path) {
    e == Expr(Arith(Div), [Variable(a), Variable(b)]) && a != b
  }

  /** The CASE is right on the row, if the row is one the store can hold. */
  ghost predicate RightOn(c: DivisionCase, q: Query, row: Row) {
    FiniteRow(row) && IntegerZerosArePositive(q.integerColumn, row) ==> CaseHolds(c, row) == QueryAnswer(q, row)
  }

  function TwoColumns(a: Path, x: D.Double, b: Path, y: D.Double): Row {
    path => if path == a then Some(x) else if path == b then Some(y) else None
  }

  /**
    Whether the CASE for a quotient of two columns against a constant is right on every row is settled by the
    operator, the side and the constant: the sentinel must stand for it, and SQL must have a value for it.
   */
  lemma QuotientExact(c: DivisionCase, q: Query, a: Path, b: Path, k: D.Double)
    requires Built(c, q) && IsColumnQuotient(q.enclosing, a, b) && ResolveConstantNumber(q.other) == Some(k)
    ensures (forall row: Row :: RightOn(c, q, row)) <==>
      SentinelFits(q.op, k, q.divisionIsLeft) && !k.NaN? && !DividesByZero(q.other, NO_COLUMNS)
  {
    hide Built, CaseHolds, QueryAnswer, DividesByZero, SentinelFits, ResolveConstantNumber, RightOn;
    SentinelExactly(q, k);
    if SentinelFits(q.op, k, q.divisionIsLeft) && !k.NaN? && !DividesByZero(q.other, NO_COLUMNS) {
      forall row: Row ensures RightOn(c, q, row) {
        QuotientRight(c, q, a, b, k, row);
      }
    }
    var one, minus := D.Fin(false, 1.0), D.Fin(true, 1.0);
    assert D.Div(one, ZERO) == D.Inf(false) && D.Div(minus, ZERO) == D.Inf(true) && D.Div(ZERO, ZERO) == D.NaN;
    if forall row: Row :: RightOn(c, q, row) {
      Witness(c, q, a, b, k, one, one);
      Witness(c, q, a, b, k, one, ZERO);
      Witness(c, q, a, b, k, minus, ZERO);
      Witness(c, q, a, b, k, ZERO, ZERO);
    }
  }

  lemma QuotientParts(q: Query, a: Path, b: Path, row: Row)
    requires FindZeroCapableDivision(q.enclosing) == Some(q.at) && IsColumnQuotient(q.enclosing, a, b)
    ensures q.at == [] && q.N() == Variable(a) && q.D() == Variable(b) && ConstantsFinite(q.enclosing)
    ensures Ieee(q.enclosing, row) == if row(a).None? || row(b).None? then None
      else Some(D.Div(row(a).value, row(b).value))
  {
    var e := q.enclosing;
    assert e.operands[0] == Variable(a) && e.operands[1] == Variable(b);
    assert !IsConstant(e.operands[0]) && !IsConstant(e.operands[1]);
    assert Ieee(e.operands[0], row) == row(a) && Ieee(e.operands[1], row) == row(b);
    assert IsZeroCapableDivision(e);
    assert ConstantsFinite(e.operands[0]) && ConstantsFinite(e.operands[1]);
  }

  lemma ConstantDivides(e: Operand, row: Row)
    requires IsConstant(e)
    ensures DividesByZero(e, row) <==> DividesByZero(e, NO_COLUMNS)
  {
    ConstantHoldsNone(e);
    ConstantBuilds(e);
    NoneFoundNonZero(e, row, NO_COLUMNS);
  }

  /** On a row that has both columns. */
  lemma PresentRow(c: DivisionCase, q: Query, a: Path, b: Path, k: D.Double, row: Row)
    requires Built(c, q) && IsColumnQuotient(q.enclosing, a, b) && ResolveConstantNumber(q.other) == Some(k)
    requires FiniteRow(row) && IntegerZerosArePositive(q.integerColumn, row) && row(a).Some? && row(b).Some?
    ensures CaseHolds(c, row) == QueryAnswer(q, row) <==>
      if row(b).value.IsZero() then StandsFor(q, D.Div(row(a).value, row(b).value), k)
      else !k.NaN? && !DividesByZero(q.other, NO_COLUMNS)
  {
    hide CaseHolds, QueryAnswer, DividesByZero, BuildDivisionComparison, ConstantsFinite, IntegerZerosArePositive;
    QuotientParts(q, a, b, row);
    ConstantDivides(q.other, row);
    ComparandExact(c, q, k, row);
  }

  /** Such a constant is compared rightly on every row, however the division is enclosed. */
  lemma SettledIsRight(c: DivisionCase, q: Query, k: D.Double, row: Row)
    requires Built(c, q) && ConstantsFinite(q.enclosing) && ResolveConstantNumber(q.other) == Some(k)
    requires SentinelFits(q.op, k, q.divisionIsLeft) && !k.NaN? && !DividesByZero(q.other, NO_COLUMNS)
    ensures RightOn(c, q, row)
  {
    hide CaseHolds, QueryAnswer, DividesByZero, Built, ConstantsFinite, FiniteRow, IntegerZerosArePositive,
      SentinelFits, FoldWithSubstitution;
    SentinelExactly(q, k);
    if FiniteRow(row) && IntegerZerosArePositive(q.integerColumn, row) {
      if Ieee(q.enclosing, row).None? {
        MissingIsNull(c, q, row);
      } else {
        ConstantDivides(q.other, row);
        ComparandExact(c, q, k, row);
        if IsZeroValue(Ieee(q.D(), row)) {
          OverZeroIsNonFinite(c, q, row);
        }
      }
    }
  }

  lemma QuotientRight(c: DivisionCase, q: Query, a: Path, b: Path, k: D.Double, row: Row)
    requires Built(c, q) && IsColumnQuotient(q.enclosing, a, b) && ResolveConstantNumber(q.other) == Some(k)
    requires SentinelFits(q.op, k, q.divisionIsLeft) && !k.NaN? && !DividesByZero(q.other, NO_COLUMNS)
    ensures RightOn(c, q, row)
  {
    hide RightOn, DividesByZero, SentinelFits, BuildDivisionComparison;
    QuotientParts(q, a, b, row);
    SettledIsRight(c, q, k, row);
  }

  /** A row that holds the two numbers shows what the CASE needs of the constant. */
  lemma Witness(c: DivisionCase, q: Query, a: Path, b: Path, k: D.Double, x: D.Double, y: D.Double)
    requires Built(c, q) && IsColumnQuotient(q.enclosing, a, b) && ResolveConstantNumber(q.other) == Some(k)
    requires x.Fin? && y.Fin? && !IsMinusZero(x) && !IsMinusZero(y)
    requires forall row: Row :: RightOn(c, q, row)
    ensures if y.IsZero() then StandsFor(q, D.Div(x, y), k) else !k.NaN? && !DividesByZero(q.other, NO_COLUMNS)
  {
    hide CaseHolds, QueryAnswer, DividesByZero, Built, ResolveConstantNumber;
    var row := TwoColumns(a, x, b, y);
    assert RightOn(c, q, row);
    PresentRow(c, q, a, b, k, row);
  }

  predicate IsMinusZero(x: D.Double) {
    x.IsZero() && x.neg
  }

  // ----- the sign of a stored zero -----

  /** SQL sees the two rows alike: they differ in the signs of zeros only. */
  ghost predicate StoredAlike(row: Row, other: Row) {
    forall path: Path :: SqlValue(ColumnOf(path), row) == SqlValue(ColumnOf(path), other)
  }

  /**
    A stored zero's sign never changes the CASE. Between rows that differ in nothing else the answer changes
    exactly when the CASE is right on one of them and wrong on the other.
   */
  lemma ZeroSignIsUnobservable(c: DivisionCase, q: Query, row: Row, other: Row)
    requires Built(c, q) && StoredAlike(row, other)
    requires IntegerZerosArePositive(q.integerColumn, row) && IntegerZerosArePositive(q.integerColumn, other)
    ensures CaseHolds(c, row) == CaseHolds(c, other)
    ensures ExactOn(q, row) ==> (ExactOn(q, other) <==> QueryAnswer(q, row) == QueryAnswer(q, other))
  {
    hide Built, IntegerZerosArePositive, StoredAlike, ExactOn, QueryAnswer;
    CaseExact(c, q, row);
    CaseExact(c, q, other);
    forall s: Sql ensures SqlValue(s, row) == SqlValue(s, other) {
      SqlIgnoresZeroSigns(s, row, other);
    }
  }

  lemma {:induction false} SqlIgnoresZeroSigns(s: Sql, row: Row, other: Row)
    requires StoredAlike(row, other)
    ensures SqlValue(s, row) == SqlValue(s, other)
    decreases s
  {
    if s.Operate? {
      SqlIgnoresZeroSigns(s.left, row, other);
      SqlIgnoresZeroSigns(s.right, row, other);
    } else if s.ColumnOf? {
      assert s == ColumnOf(s.path);
    }
  }

  // ----- an infinite comparand -----

  /** `R.a / R.b != 1.0 / 0.0`. */
  const QUOTIENT := Expr(Arith(Div), [Variable(["a"]), Variable(["b"])])
  const INFINITY := Expr(Arith(Div), [Literal(Num(D.Fin(false, 1.0))), Literal(Num(ZERO))])

  /** Over a positive zero the two sides are the same infinity, and the CASE keeps the row. */
  lemma InfiniteComparandMisread(integerColumn: Path -> bool, row: Row)
    requires row(["a"]) == Some(D.Fin(false, 1.0)) && row(["b"]) == Some(ZERO)
    ensures BuildZeroCapableComparison(Ne, QUOTIENT, INFINITY, integerColumn, false).Done?
    ensures CaseHolds(BuildZeroCapableComparison(Ne, QUOTIENT, INFINITY, integerColumn, false).result, row) == True
    ensures Answer(Ne, QUOTIENT, INFINITY, false, row) == False
  {
    hide ExactOn, CaseHolds, BuildZeroCapableComparison;
    QuotientLowers(integerColumn);
    BothInfinite(row);
    var q := Query(Ne, QUOTIENT, [], INFINITY, true, integerColumn, false);
    var c := BuildDivisionComparison(Ne, QUOTIENT, [], INFINITY, true, integerColumn, false).result;
    InfiniteKept(c, q, row);
  }

  lemma QuotientLowers(integerColumn: Path -> bool)
    ensures FindZeroCapableDivision(QUOTIENT) == Some([]) && FindZeroCapableDivision(INFINITY) == None
    ensures BuildDivisionComparison(Ne, QUOTIENT, [], INFINITY, true, integerColumn, false).Done?
    ensures BuildZeroCapableComparison(Ne, QUOTIENT, INFINITY, integerColumn, false) ==
      BuildDivisionComparison(Ne, QUOTIENT, [], INFINITY, true, integerColumn, false)
  {
    var a, b := Variable(["a"]), Variable(["b"]);
    assert QUOTIENT.operands == [a, b] && At(QUOTIENT, []) == QUOTIENT;
    assert ResolveConstantNumber(a).None? && ResolveConstantNumber(b).None?;
    assert BuildValueExpression(a).Done? && BuildValueExpression(b).Done?;
    assert FindZeroCapableDivision(a).None? && FindZeroCapableDivision(b).None?;
    assert QuotientOfLiterals(INFINITY);
    assert BuildValueExpression(INFINITY).Done?;
    ConstantHoldsNone(INFINITY);
  }

  lemma BothInfinite(row: Row)
    requires row(["a"]) == Some(D.Fin(false, 1.0)) && row(["b"]) == Some(ZERO)
    ensures Ieee(QUOTIENT, row) == Some(D.Inf(false)) && Ieee(INFINITY, row) == Some(D.Inf(false))
    ensures IsConstant(INFINITY) && Answer(Ne, QUOTIENT, INFINITY, false, row) == False
  {
    var one := D.Fin(false, 1.0);
    assert Ieee(Literal(Num(one)), row) == Some(one) && Ieee(Literal(Num(ZERO)), row) == Some(ZERO);
    assert Ieee(Variable(["a"]), row) == Some(one) && Ieee(Variable(["b"]), row) == Some(ZERO);
    assert ResolveConstantNumber(Literal(Num(one))) == Some(one);
  }

  lemma InfiniteKept(c: DivisionCase, q: Query, row: Row)
    requires Built(c, q) && q.op == Ne && q.enclosing == QUOTIENT && q.at == [] && q.other == INFINITY && !q.negated
    requires row(["a"]) == Some(D.Fin(false, 1.0)) && row(["b"]) == Some(ZERO)
    ensures CaseHolds(c, row) == True
  {
    Parts(c, q);
    assert q.N() == Variable(["a"]) && q.D() == Variable(["b"]);
    assert SqlValue(c.numerator, row) == Some(D.Fin(false, 1.0)) && SqlValue(c.denominator, row) == Some(ZERO);
    GuardsAreExact(c, q, row);
    BothInfinite(row);
    ArmsAsBuilt(c, q);
  }
}
