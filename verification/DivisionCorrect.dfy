/** The division CASE against the IEEE comparison of the whole expression: exactly where they agree. */
module DivisionCorrect {
  import opened Wrappers
  import D = Doubles
  import opened Cel
  import opened Plans
  import opened DivisionLowering

  /** What CEL computes over a row: IEEE arithmetic throughout, an error where a column is missing. */
  function Ieee(e: Operand, row: Row): Option<D.Double> {
    match e
    case Literal(v) => if v.Num? then Some(v.n) else None
    case Variable(path) => row(path)
    case Expr(op, args) =>
      if !op.Arith? || |args| != 2 then None
      else
        var a, b := Ieee(args[0], row), Ieee(args[1], row);
        if a.None? || b.None? then None else Some(Apply(op.arithmetic, a.value, b.value))
  }

  /** Whether SQL performs a division by zero for the operand on this row. */
  predicate DividesByZero(e: Operand, row: Row)
    decreases e
  {
    e.Expr? &&
    ((exists i | 0 <= i < |e.operands| :: DividesByZero(e.operands[i], row)) ||
     (e.operator == Arith(Div) && |e.operands| == 2 && !QuotientOfLiterals(e) && IsZeroValue(Ieee(e.operands[1], row))))
  }

  /** Whether SQL has a value for the operand: it is present, is not NaN, and divides by no zero. */
  predicate Readable(e: Operand, row: Row) {
    Ieee(e, row).Some? && !Ieee(e, row).value.NaN? && !DividesByZero(e, row)
  }

  /** SQL's value of an operand is the stored IEEE value, and NULL exactly where it is not readable. */
  predicate ReadsAsIeee(e: Operand, row: Row)
    requires BuildValueExpression(e).Done?
  {
    SqlValue(BuildValueExpression(e).result, row) == if Readable(e, row) then Stored(Ieee(e, row).value) else None
  }

  // ----- constants -----

  lemma {:induction false} ConstantIsIeee(e: Operand, row: Row)
    requires ResolveConstantNumber(e).Some?
    ensures Ieee(e, row) == ResolveConstantNumber(e)
    decreases e
  {
    if e.Expr? {
      ConstantIsIeee(e.operands[0], row);
      ConstantIsIeee(e.operands[1], row);
    }
  }

  // ----- SQL's values -----

  lemma StoredIsReal(d: D.Double)
    requires d.Fin?
    ensures Stored(d) == Some(D.FromReal(d.Real())) && Stored(d).value.Fin? && Stored(d).value.Real() == d.Real()
  {
  }

  lemma FiniteApply(op: Arithmetic, a: D.Double, b: D.Double)
    requires a.Fin? && b.Fin? && op != Mod && (op == Div ==> !b.IsZero())
    ensures Apply(op, a, b).Fin? && (op == Div ==> b.Real() != 0.0)
    ensures Apply(op, a, b).Real() == Exact(op, a.Real(), b.Real())
  {
    var x, y := a.Real(), b.Real();
    if op == Mult {
      SignedProduct(a, b, x, y);
      ComputesProduct(x, y, D.Mul(a, b).Real());
    } else if op == Div {
      SignedQuotient(a, b, x, y);
    }
  }

  lemma ComputesProduct(x: real, y: real, product: real)
    requires product == x * y
    ensures Exact(Mult, x, y) == product
  {
  }

  lemma SignedProduct(a: D.Double, b: D.Double, r: real, s: real)
    requires a.Fin? && b.Fin? && r == a.Real() && s == b.Real()
    ensures D.Mul(a, b).Fin? && D.Mul(a, b).Real() == r * s
  {
    var x, y: real := a.mag, b.mag;
    assert (0.0 - x) * y == 0.0 - x * y && x * (0.0 - y) == 0.0 - x * y && (0.0 - x) * (0.0 - y) == x * y;
  }

  lemma SignedQuotient(a: D.Double, b: D.Double, r: real, s: real)
    requires a.Fin? && b.Fin? && !b.IsZero() && r == a.Real() && s == b.Real()
    ensures s != 0.0 && D.Div(a, b).Fin? && D.Div(a, b).Real() == r / s
  {
    var x, y: real := a.mag, b.mag;
    var q := x / y;
    assert q * y == x;
    assert (0.0 - q) * y == 0.0 - x && (0.0 - q) * (0.0 - y) == x && q * (0.0 - y) == 0.0 - x;
    Quotient(0.0 - q, y, 0.0 - x);
    Quotient(0.0 - q, 0.0 - y, x);
    Quotient(q, 0.0 - y, 0.0 - x);
  }

  lemma Quotient(q: real, y: real, x: real)
    requires y != 0.0 && q * y == x
    ensures x / y == q
  {
  }

  /** An operation over what SQL stores is what SQL stores of the IEEE result. */
  lemma StoredApply(op: Arithmetic, a: D.Double, b: D.Double)
    requires op != Mod && !(op == Div && b.IsZero())
    ensures var x, y := Stored(a), Stored(b);
      Stored(Apply(op, a, b)) == if x.None? || y.None? then None else Compute(op, x.value, y.value)
  {
    if a.Fin? && b.Fin? {
      hide Apply, Exact;
      StoredIsReal(a);
      StoredIsReal(b);
      FiniteApply(op, a, b);
      StoredIsReal(Apply(op, a, b));
    }
  }

  /** SQL's value of an operand is the stored IEEE value; it is NULL exactly where the operand is not readable. */
  lemma {:induction false} SqlIsIeee(e: Operand, row: Row)
    requires BuildValueExpression(e).Done?
    ensures ReadsAsIeee(e, row)
    decreases e
  {
    hide Apply, Compute, Stored;
    if e.Expr? {
      var a, b := e.operands[0], e.operands[1];
      if QuotientOfLiterals(e) {
        QuotientIsStored(e, row);
      } else {
        SqlIsIeee(a, row);
        SqlIsIeee(b, row);
        OperationIsStored(e, row);
      }
    } else {
      LeafIsStored(e, row);
    }
  }

  lemma LeafIsStored(e: Operand, row: Row)
    requires BuildValueExpression(e).Done? && !e.Expr?
    ensures ReadsAsIeee(e, row)
  {
  }

  lemma QuotientIsStored(e: Operand, row: Row)
    requires QuotientOfLiterals(e)
    ensures ReadsAsIeee(e, row)
  {
    var a, b := e.operands[0], e.operands[1];
    var quotient := D.Div(a.value.n, b.value.n);
    assert Ieee(a, row) == Some(a.value.n) && Ieee(b, row) == Some(b.value.n);
    assert Ieee(e, row) == Some(quotient);
    assert BuildValueExpression(e) == Done(Const(quotient));
    assert !DividesByZero(a, row) && !DividesByZero(b, row);
    assert forall i | 0 <= i < |e.operands| :: !DividesByZero(e.operands[i], row);
  }

  lemma OperationIsStored(e: Operand, row: Row)
    requires BuildValueExpression(e).Done? && e.Expr? && !QuotientOfLiterals(e)
    requires ReadsAsIeee(e.operands[0], row) && ReadsAsIeee(e.operands[1], row)
    ensures ReadsAsIeee(e, row)
  {
    hide Apply, Compute, Stored;
    var a, b := e.operands[0], e.operands[1];
    var op := e.operator.arithmetic;
    DividesBelow(e, row);
    if Readable(a, row) && Readable(b, row) {
      var x, y := Ieee(a, row).value, Ieee(b, row).value;
      StoredSome(x);
      StoredSome(y);
      if op == Div && y.IsZero() {
        ComputeByZero(Stored(x).value, Stored(y).value);
      } else {
        StoredApply(op, x, y);
        StoredNaN(Apply(op, x, y));
      }
    } else if Ieee(a, row).Some? && Ieee(b, row).Some? {
      NaNPropagates(op, Ieee(a, row).value, Ieee(b, row).value);
    }
  }

  lemma DividesBelow(e: Operand, row: Row)
    requires Foldable(e) && !QuotientOfLiterals(e)
    ensures DividesByZero(e, row) <==>
      DividesByZero(e.operands[0], row) || DividesByZero(e.operands[1], row) ||
      (e.operator == Arith(Div) && IsZeroValue(Ieee(e.operands[1], row)))
  {
  }

  lemma StoredSome(x: D.Double)
    requires !x.NaN?
    ensures Stored(x).Some? && (x.IsZero() <==> Stored(x).value.IsZero())
  {
  }

  lemma StoredNaN(x: D.Double)
    ensures x.NaN? ==> Stored(x).None?
  {
  }

  lemma ComputeByZero(x: D.Double, y: D.Double)
    requires y.IsZero()
    ensures Compute(Div, x, y).None?
  {
  }

  lemma NaNPropagates(op: Arithmetic, x: D.Double, y: D.Double)
    requires op != Mod
    ensures x.NaN? || y.NaN? ==> Apply(op, x, y).NaN?
  {
  }

  // ----- where the found division sits -----

  lemma {:induction false} FoundAmong(e: Operand, i: nat)
    requires e.Expr? && i <= |e.operands|
    ensures var found := FindAmong(e, i);
      (found.Some? ==>
        found.value != [] && i <= found.value[0] < |e.operands| &&
        FindZeroCapableDivision(e.operands[found.value[0]]) == Some(found.value[1..])) &&
      (found.None? ==> forall j | i <= j < |e.operands| :: FindZeroCapableDivision(e.operands[j]).None?)
    decreases |e.operands| - i
  {
    if i < |e.operands| {
      var here := FindZeroCapableDivision(e.operands[i]);
      if here.Some? {
        assert ([i] + here.value)[1..] == here.value;
      } else {
        FoundAmong(e, i + 1);
      }
    }
  }

  lemma {:induction false} FoundIsNotConstant(e: Operand)
    requires FindZeroCapableDivision(e).Some?
    ensures ResolveConstantNumber(e).None?
    decreases e
  {
    if !IsZeroCapableDivision(e) {
      FoundAmong(e, 0);
      FoundIsNotConstant(e.operands[FindAmong(e, 0).value[0]]);
    }
  }

  /** Above the found division stand only foldable nodes, and it is nowhere under a denominator. */
  lemma FoundBelow(e: Operand, at: seq<nat>)
    requires FindZeroCapableDivision(e) == Some(at) && at != [] && Foldable(e)
    ensures at[0] < 2 && FindZeroCapableDivision(e.operands[at[0]]) == Some(at[1..])
    ensures e.operator == Arith(Div) ==>
      at[0] == 0 && var d := ResolveConstantNumber(e.operands[1]); d.Some? && !d.value.IsZero()
  {
    FoundAmong(e, 0);
    FoundIsNotConstant(e);
    FoundIsNotConstant(e.operands[at[0]]);
  }

  lemma {:induction false} FoundIsDivision(e: Operand, at: seq<nat>)
    requires FindZeroCapableDivision(e) == Some(at)
    ensures IsZeroCapableDivision(At(e, at))
    decreases |at|
  {
    if !IsZeroCapableDivision(e) {
      FoundAmong(e, 0);
      FoundIsDivision(e.operands[at[0]], at[1..]);
    }
  }

  // ----- folding -----

  lemma {:induction false} FoldTotal(e: Operand, at: seq<nat>, x: D.Double, y: D.Double)
    ensures FoldWithSubstitution(e, at, x).Some? ==> FoldWithSubstitution(e, at, y).Some?
    decreases |at|
  {
    if at != [] && Foldable(e) && at[0] <= 1 {
      FoldTotal(e.operands[at[0]], at[1..], x, y);
    }
  }

  /** The fold computes the enclosing expression from the division's own value. */
  lemma {:induction false} FoldIsIeee(e: Operand, at: seq<nat>, x: D.Double, row: Row)
    requires FoldWithSubstitution(e, at, x).Some?
    ensures var v := Ieee(At(e, at), row);
      Ieee(e, row) == if v.None? then None else FoldWithSubstitution(e, at, v.value)
    decreases |at|
  {
    if at != [] {
      FoldIsIeee(e.operands[at[0]], at[1..], x, row);
      ConstantIsIeee(e.operands[1 - at[0]], row);
      var v := Ieee(At(e, at), row);
      if v.Some? {
        FoldTotal(e.operands[at[0]], at[1..], x, v.value);
      }
    }
  }

  lemma ApplyNonFinite(op: Arithmetic, a: D.Double, b: D.Double)
    requires op != Mod && (!a.Fin? || (!b.Fin? && op != Div))
    ensures !Apply(op, a, b).Fin?
  {
  }

  /** A non-finite division stays non-finite through the arithmetic above it. */
  lemma {:induction false} FoldNonFinite(e: Operand, at: seq<nat>, x: D.Double)
    requires FindZeroCapableDivision(e) == Some(at) && !x.Fin? && FoldWithSubstitution(e, at, x).Some?
    ensures !FoldWithSubstitution(e, at, x).value.Fin?
    decreases |at|
  {
    if at != [] {
      FoundBelow(e, at);
      var inner := FoldWithSubstitution(e.operands[at[0]], at[1..], x).value;
      FoldNonFinite(e.operands[at[0]], at[1..], x);
      var constant := ResolveConstantNumber(e.operands[1 - at[0]]).value;
      if at[0] == 0 {
        ApplyNonFinite(e.operator.arithmetic, inner, constant);
      } else {
        ApplyNonFinite(e.operator.arithmetic, constant, inner);
      }
    }
  }

}
