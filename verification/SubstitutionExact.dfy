/** At one node: exactly which operands make a substituted expression answer differently from a bound one. */
module SubstitutionExact {
  import opened Wrappers
  import D = Doubles
  import opened Texts
  import opened DoubleText
  import opened Durations
  import opened Cel
  import opened Plans
  import opened Evaluator
  import opened EvaluatorLaws
  import opened Substitution
  import IntLaws

  // ----- the same two numbers as doubles and as ints -----

  predicate IsNegativeZero(d: D.Double) {
    d.IsZero() && d.neg
  }

  /** Whether the double operation yields a zero with a minus sign, which no int has. */
  predicate YieldsNegativeZero(op: Arithmetic, a: D.Double, b: D.Double)
    requires a.Fin? && b.Fin?
  {
    match op
    case Add => IsNegativeZero(a) && IsNegativeZero(b)
    case Sub => IsNegativeZero(a) && b.IsZero() && !b.neg
    case Mult => (a.IsZero() || b.IsZero()) && a.neg != b.neg
    case _ => a.IsZero() && a.neg != b.neg
  }

  predicate Safe(i: int) {
    -MAX_SAFE <= i <= MAX_SAFE
  }

  /** Whether an operation on two whole numbers has one answer over doubles and over ints. */
  predicate AgreeAsNumbers(op: Arithmetic, a: D.Double, b: D.Double)
    requires a.IsInteger() && b.IsInteger()
  {
    var i, j := a.Truncated(), b.Truncated();
    var r := IntLaws.Exact(op, i, j);
    op != Mod && r.Some? && Safe(r.value) && (op == Div ==> i == j * r.value) && !YieldsNegativeZero(op, a, b)
  }

  function DoubleOf(op: Arithmetic, a: D.Double, b: D.Double): D.Double {
    match op
    case Add => D.Add(a, b)
    case Sub => D.Sub(a, b)
    case Mult => D.Mul(a, b)
    case Div => D.Div(a, b)
    case Mod => D.Mod(a, b)
  }

  lemma WholeIsReal(a: D.Double)
    requires a.IsInteger()
    ensures a.Real() == a.Truncated() as real && (a.IsZero() <==> a.Truncated() == 0)
  {
  }

  lemma IsWhole(d: D.Double, r: int)
    requires d.Fin?
    ensures d == D.FromInt(r) <==> d.Real() == r as real && !IsNegativeZero(d)
  {
  }

  lemma CarriedAs(d: D.Double, r: int)
    ensures CelInt(r) == Ok(Num(d)) <==> Safe(r) && d == D.FromInt(r)
  {
  }

  lemma SumIsReal(a: D.Double, b: D.Double)
    requires a.Fin? && b.Fin?
    ensures D.Add(a, b).Fin? && D.Add(a, b).Real() == a.Real() + b.Real()
    ensures IsNegativeZero(D.Add(a, b)) <==> YieldsNegativeZero(Add, a, b)
    ensures D.Sub(a, b).Fin? && D.Sub(a, b).Real() == a.Real() - b.Real()
    ensures IsNegativeZero(D.Sub(a, b)) <==> YieldsNegativeZero(Sub, a, b)
  {
  }

  lemma ProductIsReal(a: D.Double, b: D.Double)
    requires a.Fin? && b.Fin?
    ensures D.Mul(a, b).Fin? && D.Mul(a, b).Real() == a.Real() * b.Real()
    ensures IsNegativeZero(D.Mul(a, b)) <==> YieldsNegativeZero(Mult, a, b)
  {
    var x, y: real := a.mag, b.mag;
    assert (0.0 - x) * y == 0.0 - x * y && x * (0.0 - y) == 0.0 - x * y && (0.0 - x) * (0.0 - y) == x * y;
  }

  lemma QuotientIsReal(a: D.Double, b: D.Double, r: real)
    requires a.Fin? && b.Fin? && !b.IsZero()
    ensures D.Div(a, b).Fin? && (D.Div(a, b).Real() == r <==> a.Real() == b.Real() * r)
    ensures IsNegativeZero(D.Div(a, b)) <==> YieldsNegativeZero(Div, a, b)
  {
    var x, y: real := a.mag, b.mag;
    var q := x / y;
    assert q * y == x;
    Scaled(y, q, r);
    Scaled(y, 0.0 - q, r);
    assert (0.0 - q) * y == 0.0 - x && (0.0 - y) * r == 0.0 - y * r;
  }

  lemma Scaled(y: real, q: real, r: real)
    requires y > 0.0
    ensures q == r <==> y * q == y * r
  {
    if y * q == y * r {
      assert y * (q - r) == 0.0;
    }
  }

  lemma CastProduct(i: int, j: int)
    ensures (i * j) as real == i as real * j as real
  {
  }

  /** What a double operation on whole numbers yields, beside the int result `r`. */
  ghost predicate Yields(op: Arithmetic, a: D.Double, b: D.Double, r: int)
    requires a.IsInteger() && b.IsInteger()
  {
    var d := DoubleOf(op, a, b);
    d.Fin? && (IsNegativeZero(d) <==> YieldsNegativeZero(op, a, b)) &&
    (d.Real() == r as real <==> (op == Div ==> a.Truncated() == b.Truncated() * r))
  }

  lemma SumYields(a: D.Double, b: D.Double)
    requires a.IsInteger() && b.IsInteger()
    ensures Yields(Add, a, b, a.Truncated() + b.Truncated())
    ensures Yields(Sub, a, b, a.Truncated() - b.Truncated())
  {
    hide D.Add, D.Sub, YieldsNegativeZero;
    WholeIsReal(a);
    WholeIsReal(b);
    SumIsReal(a, b);
  }

  lemma ProductYields(a: D.Double, b: D.Double)
    requires a.IsInteger() && b.IsInteger()
    ensures Yields(Mult, a, b, a.Truncated() * b.Truncated())
  {
    hide D.Mul, YieldsNegativeZero;
    WholeIsReal(a);
    WholeIsReal(b);
    ProductIsReal(a, b);
    CastProduct(a.Truncated(), b.Truncated());
  }

  lemma QuotientYields(a: D.Double, b: D.Double, r: int)
    requires a.IsInteger() && b.IsInteger() && !b.IsZero()
    ensures Yields(Div, a, b, r)
  {
    hide D.Div, YieldsNegativeZero;
    WholeIsReal(a);
    WholeIsReal(b);
    QuotientIsReal(a, b, r as real);
    CastProduct(b.Truncated(), r);
  }

  /** The double result is the int result unless that is too large, inexact, or a negative zero. */
  lemma SameNumber(op: Arithmetic, a: D.Double, b: D.Double)
    requires a.IsInteger() && b.IsInteger() && op != Mod && !(op == Div && b.IsZero())
    ensures IntLaws.Exact(op, a.Truncated(), b.Truncated()).Some?
    ensures Ok(Num(DoubleOf(op, a, b))) == CelInt(IntLaws.Exact(op, a.Truncated(), b.Truncated()).value) <==>
      AgreeAsNumbers(op, a, b)
  {
    hide CelInt, YieldsNegativeZero, DoubleOf, Quotient, D.Double.Truncated;
    WholeIsReal(b);
    var r := IntLaws.Exact(op, a.Truncated(), b.Truncated()).value;
    match op {
      case Add => SumYields(a, b);
      case Sub => SumYields(a, b);
      case Mult => ProductYields(a, b);
      case _ => QuotientYields(a, b, r);
    }
    IsWhole(DoubleOf(op, a, b), r);
    CarriedAs(DoubleOf(op, a, b), r);
  }

  // ----- arithmetic beside a CEL int -----

  /** Whether a bound number and an int expression's value answer differently once the number is a literal. */
  predicate IntsDiffer(op: Arithmetic, a: Value, b: Value) {
    var i, j := ToBigInt(a), ToBigInt(b);
    if a.Num? && b.Num? && op != Mod then !(i.Some? && j.Some? && AgreeAsNumbers(op, a.n, b.n))
    else
      i.Some? && j.Some? && var r := IntLaws.Exact(op, i.value, j.value); r.Some? && InInt64(r.value)
  }

  /** The form of a node over a bound variable and an operand that is no document field and not temporal. */
  predicate BoundForm(form: Form) {
    form.ArithmeticForm? && !form.temporal && !form.isInt && !form.mixed && form.variable && !form.documentDivisor
  }

  lemma DoubleStep(op: Arithmetic, form: Form, a: D.Double, b: D.Double)
    requires BoundForm(form)
    ensures ArithmeticOf(op, form, Num(a), Num(b)) ==
      if op == Mod then Err
      else if op == Div && b.IsZero() && !a.IsZero() then Throw
      else Ok(Num(DoubleOf(op, a, b)))
  {
  }

  lemma NumberStep(op: Arithmetic, form: Form, a: Value, b: Value)
    requires BoundForm(form) && (a.Num? || b.Num?)
    ensures !(a.Num? && b.Num?) ==> ArithmeticOf(op, form, a, b) == Err
  {
  }

  /** The two answers of such a node are the same exactly where that says so. */
  lemma IntsDifferExactly(op: Arithmetic, form: Form, a: Value, b: Value)
    requires BoundForm(form) && (a.Num? || b.Num?)
    ensures ArithmeticOf(op, form, a, b) == IntArithmetic(op, a, b) <==> !IntsDiffer(op, a, b)
  {
    hide ArithmeticOf, IntArithmetic, AgreeAsNumbers, DoubleOf, CelInt;
    NumberStep(op, form, a, b);
    IntStep(op, a, b);
    if a.Num? && b.Num? {
      DoubleStep(op, form, a.n, b.n);
      if op != Mod && ToBigInt(a).Some? && ToBigInt(b).Some? {
        DoublesDiffer(op, a.n, b.n);
      }
    }
  }

  /** Int arithmetic errs without two ints, on a zero divisor and on overflow, and otherwise carries its result. */
  lemma IntStep(op: Arithmetic, a: Value, b: Value)
    ensures var i, j := ToBigInt(a), ToBigInt(b);
      var r := if i.None? || j.None? then None else IntLaws.Exact(op, i.value, j.value);
      IntArithmetic(op, a, b) == (if r.None? then Err else CelInt(r.value)) &&
      (r.Some? ==> (CelInt(r.value) == Err <==> !InInt64(r.value)) && !CelInt(r.value).Throw?)
  {
  }

  lemma DoublesDiffer(op: Arithmetic, a: D.Double, b: D.Double)
    requires a.IsInteger() && b.IsInteger() && op != Mod
    ensures var r := IntLaws.Exact(op, a.Truncated(), b.Truncated());
      var bound := if op == Div && b.IsZero() && !a.IsZero() then Throw else Ok(Num(DoubleOf(op, a, b)));
      (bound == if r.None? then Err else CelInt(r.value)) <==> AgreeAsNumbers(op, a, b)
  {
    hide DoubleOf, CelInt, YieldsNegativeZero, Quotient, D.Double.Truncated;
    WholeIsReal(b);
    if !(op == Div && b.IsZero()) {
      SameNumber(op, a, b);
    }
  }

  // ----- one arithmetic node -----

  /** A `%` all of whose variable operands substitution replaces. */
  predicate LosesVariable(x: Operand, y: Operand, name: string) {
    (RootedAt(x, name) || RootedAt(y, name)) && !(x.Variable? && !RootedAt(x, name)) &&
    !(y.Variable? && !RootedAt(y, name))
  }

  /** The outcomes of its operands on which a node answers differently once an element is substituted. */
  predicate Differs(op: Arithmetic, x: Operand, y: Operand, name: string, element: Value, a: Value, b: Value) {
    if AnyInt([x, y]) && (ReadsFraction(x, name, element) || ReadsFraction(y, name, element)) then
      op != Mod && a.Num? && b.Num?
    else if AnyInt([x, y]) && (ReadsInteger(x, name, element) || ReadsInteger(y, name, element)) then
      IntsDiffer(op, a, b)
    else
      op == Mod && LosesVariable(x, y, name) && a.Num? && b.Num? && !b.n.IsZero()
  }

  lemma {:induction false} IntIsNotTemporal(x: Operand)
    ensures IsIntExpression(x) || !x.Expr? ==> TemporalKindOf(x).None?
    decreases x
  {
    if x.Expr? && x.operator.Arith? && |x.operands| >= 2 {
      IntIsNotTemporal(x.operands[0]);
      IntIsNotTemporal(x.operands[1]);
    }
  }

  /** A bound number beside an int expression. */
  predicate BesideInt(x: Operand, y: Operand, name: string, element: Value) {
    (IsIntExpression(x) && ReadsNumber(y, name, element)) || (IsIntExpression(y) && ReadsNumber(x, name, element))
  }

  lemma BoundBesideInt(op: Arithmetic, x: Operand, y: Operand, name: string, element: Value, bound: set<string>)
    requires BesideInt(x, y, name, element)
    ensures BoundForm(FormOf(Arith(op), [x, y], bound + {name}))
  {
    hide TemporalKindOf, IsIntExpression, Known, FormOf;
    IntIsNotTemporal(x);
    IntIsNotTemporal(y);
    IntIsExpression(x);
    IntIsExpression(y);
    PairForms(op, x, y, bound + {name});
  }

  lemma LiteralBesideInt(op: Arithmetic, x: Operand, y: Operand, p: Operand, q: Operand, name: string, element: Value,
      bound: set<string>)
    requires Substitutable(x, name, element) && Substitutable(y, name, element) && BesideInt(x, y, name, element)
    requires Substitute(x, [name], element) == Done(p) && Substitute(y, [name], element) == Done(q)
    ensures var after := FormOf(Arith(op), [p, q], bound);
      after.ArithmeticForm? && !after.temporal &&
      if ReadsInteger(x, name, element) || ReadsInteger(y, name, element) then after.isInt
      else !after.isInt && after.mixed
  {
    hide Substitute, TemporalKindOf, IsIntExpression, Placed, ShapesKept, Known, FormOf;
    ShapeBySubstitution(x, p, name, element);
    ShapeBySubstitution(y, q, name, element);
    IntIsNotTemporal(x);
    IntIsNotTemporal(y);
    FractionBySubstitution(x, p, name, element);
    FractionBySubstitution(y, q, name, element);
    IntIsExpression(x);
    IntIsExpression(y);
    PairForms(op, p, q, bound);
  }

  lemma IntIsExpression(x: Operand)
    ensures IsIntExpression(x) ==> x.Expr? && x.operator != ToDouble
  {
  }

  lemma PairForms(op: Arithmetic, x: Operand, y: Operand, bound: set<string>)
    ensures var form := FormOf(Arith(op), [x, y], bound);
      form.ArithmeticForm? &&
      (form.temporal <==> (op == Add || op == Sub) && (TemporalKindOf(x).Some? || TemporalKindOf(y).Some?)) &&
      form.isInt == (!IsNeither(x) && !IsNeither(y) && AnyInt([x, y])) &&
      form.mixed == (AnyInt([x, y]) && (IsDoubleOperand(x, bound) || IsDoubleOperand(y, bound))) &&
      AnyInt([x, y]) == (IsIntExpression(x) || IsIntExpression(y)) &&
      (form.variable <==> x.Variable? || y.Variable?) && form.documentDivisor == IsDocumentField(y, bound)
  {
    hide TemporalKindOf;
    var args := [x, y];
    assert args[0] == x && args[1] == y;
    assert IsIntExpression(Expr(Arith(op), args)) <==>
      (forall i | 0 <= i < |args| :: IsIntegerLiteral(args[i]) || IsIntExpression(args[i])) &&
      exists i | 0 <= i < |args| :: IsIntExpression(args[i]);
  }

  /** Away from numbers beside an int, only the variable operands of a node change. */
  lemma PlainForms(op: Arithmetic, x: Operand, y: Operand, p: Operand, q: Operand, name: string, element: Value,
      bound: set<string>)
    requires Substitutable(x, name, element) && Substitutable(y, name, element) && !BesideInt(x, y, name, element)
    requires Substitute(x, [name], element) == Done(p) && Substitute(y, [name], element) == Done(q)
    ensures var before, after := FormOf(Arith(op), [x, y], bound + {name}), FormOf(Arith(op), [p, q], bound);
      before.ArithmeticForm? && after.ArithmeticForm? && after == before.(variable := after.variable) &&
      (LosesVariable(x, y, name) <==> before.variable && !after.variable) &&
      (!LosesVariable(x, y, name) ==> after.variable == before.variable) &&
      (op == Mod && LosesVariable(x, y, name) ==> !before.isInt && !before.temporal)
  {
    hide Substitute, TemporalKindOf, IsIntExpression, Placed, ShapesKept, Known, FormOf;
    ShapeBySubstitution(x, p, name, element);
    ShapeBySubstitution(y, q, name, element);
    LiteralBySubstitution(x, p, name, element);
    LiteralBySubstitution(y, q, name, element);
    DocumentBySubstitution(x, p, name, element, bound);
    DocumentBySubstitution(y, q, name, element, bound);
    VariableBySubstitution(x, p, name, element);
    VariableBySubstitution(y, q, name, element);
    PairForms(op, x, y, bound + {name});
    PairForms(op, p, q, bound);
    PairKind(op, x, y, bound + {name});
    PairKind(op, p, q, bound);
  }

  lemma PairKind(op: Arithmetic, x: Operand, y: Operand, bound: set<string>)
    ensures var form := FormOf(Arith(op), [x, y], bound);
      form.ArithmeticForm? && form.kind == TemporalResultKind(op, TemporalKindOf(x), TemporalKindOf(y))
  {
  }

  lemma VariableBySubstitution(x: Operand, y: Operand, name: string, element: Value)
    requires Substitute(x, [name], element) == Done(y)
    ensures y.Variable? <==> x.Variable? && !RootedAt(x, name)
    ensures RootedAt(x, name) ==> IsNeither(x)
  {
    if x.Expr? {
      NodeBySubstitution(x, y, [name], element);
    } else {
      LeafBySubstitution(x, y, name, element);
    }
  }

  lemma ModuloStep(form: Form, a: Value, b: Value)
    requires form.ArithmeticForm? && !form.temporal && !form.isInt
    ensures ArithmeticOf(Mod, form, a, b) ==
      if form.mixed || !a.Num? || !b.Num? || form.variable || b.n.IsZero() then Err else Ok(Num(D.Mod(a.n, b.n)))
  {
  }

  /** A pair of operands without a number beside an int. */
  lemma PlainPairDiffers(op: Arithmetic, x: Operand, y: Operand, p: Operand, q: Operand, name: string, element: Value,
      sc: Scope, a: Value, b: Value)
    requires Substitutable(x, name, element) && Substitutable(y, name, element) && !BesideInt(x, y, name, element)
    requires Substitute(x, [name], element) == Done(p) && Substitute(y, [name], element) == Done(q)
    requires !sc.nullIsMissing
    requires Evaluate(x, BoundTo(sc, name, element)) == Ok(a) && Evaluate(y, BoundTo(sc, name, element)) == Ok(b)
    ensures var before := FormOf(Arith(op), [x, y], sc.bindings.Keys + {name});
      var after := FormOf(Arith(op), [p, q], sc.bindings.Keys);
      before.ArithmeticForm? && after.ArithmeticForm? &&
      (ArithmeticOf(op, before, a, b) == ArithmeticOf(op, after, a, b) <==> !Differs(op, x, y, name, element, a, b))
  {
    hide Evaluate, FormOf, ArithmeticOf, Substitutable, Substitute, Known, IsIntExpression, IntsDiffer;
    var before := FormOf(Arith(op), [x, y], sc.bindings.Keys + {name});
    var after := FormOf(Arith(op), [p, q], sc.bindings.Keys);
    PlainForms(op, x, y, p, q, name, element, sc.bindings.Keys);
    IntIsExpression(x);
    IntIsExpression(y);
    PairForms(op, x, y, sc.bindings.Keys + {name});
    if op == Mod && LosesVariable(x, y, name) {
      ModuloStep(before, a, b);
      ModuloStep(after, a, b);
      MixedErrs(x, y, p, q, name, element, sc, a, b);
    } else {
      VariableUnread(op, before, after, a, b);
    }
  }

  /** A replaced variable beside an int, and no number, is no number as an outcome either. */
  lemma MixedErrs(x: Operand, y: Operand, p: Operand, q: Operand, name: string, element: Value, sc: Scope, a: Value,
      b: Value)
    requires Substitute(x, [name], element) == Done(p) && Substitute(y, [name], element) == Done(q)
    requires !sc.nullIsMissing && !BesideInt(x, y, name, element) && LosesVariable(x, y, name)
    requires Evaluate(x, BoundTo(sc, name, element)) == Ok(a) && Evaluate(y, BoundTo(sc, name, element)) == Ok(b)
    ensures IsIntExpression(x) || IsIntExpression(y) ==> !a.Num? || !b.Num?
  {
    hide Evaluate, Substitute;
    IntIsExpression(x);
    IntIsExpression(y);
    if RootedAt(x, name) {
      LeafKnown(x, p, name, element);
      KnownEvaluates(x, name, element, sc);
    }
    if RootedAt(y, name) {
      LeafKnown(y, q, name, element);
      KnownEvaluates(y, name, element, sc);
    }
  }

  lemma LeafKnown(x: Operand, y: Operand, name: string, element: Value)
    requires RootedAt(x, name) && Substitute(x, [name], element) == Done(y)
    ensures Known(x, name, element).Some?
  {
    LeafBySubstitution(x, y, name, element);
  }

  /** A pair in which a number of the element stands beside an int. */
  lemma IntPairDiffers(op: Arithmetic, x: Operand, y: Operand, p: Operand, q: Operand, name: string, element: Value,
      sc: Scope, a: Value, b: Value)
    requires Substitutable(x, name, element) && Substitutable(y, name, element) && BesideInt(x, y, name, element)
    requires Substitute(x, [name], element) == Done(p) && Substitute(y, [name], element) == Done(q)
    requires !sc.nullIsMissing
    requires Evaluate(x, BoundTo(sc, name, element)) == Ok(a) && Evaluate(y, BoundTo(sc, name, element)) == Ok(b)
    ensures var before := FormOf(Arith(op), [x, y], sc.bindings.Keys + {name});
      var after := FormOf(Arith(op), [p, q], sc.bindings.Keys);
      before.ArithmeticForm? && after.ArithmeticForm? &&
      (ArithmeticOf(op, before, a, b) == ArithmeticOf(op, after, a, b) <==> !Differs(op, x, y, name, element, a, b))
  {
    hide Evaluate, FormOf, ArithmeticOf, Substitutable, Substitute, IsIntExpression, IntsDiffer;
    var before := FormOf(Arith(op), [x, y], sc.bindings.Keys + {name});
    var after := FormOf(Arith(op), [p, q], sc.bindings.Keys);
    BoundBesideInt(op, x, y, name, element, sc.bindings.Keys);
    LiteralBesideInt(op, x, y, p, q, name, element, sc.bindings.Keys);
    IntIsExpression(x);
    IntIsExpression(y);
    PairForms(op, x, y, sc.bindings.Keys + {name});
    if ReadsNumber(x, name, element) {
      KnownEvaluates(x, name, element, sc);
    } else {
      KnownEvaluates(y, name, element, sc);
    }
    IntOrMixed(op, after, a, b);
    IntsDifferExactly(op, before, a, b);
    NumberStep(op, before, a, b);
    if a.Num? && b.Num? {
      DoubleStep(op, before, a.n, b.n);
    }
  }

  lemma IntOrMixed(op: Arithmetic, form: Form, a: Value, b: Value)
    requires form.ArithmeticForm? && !form.temporal
    ensures form.isInt ==> ArithmeticOf(op, form, a, b) == IntArithmetic(op, a, b)
    ensures !form.isInt && form.mixed ==> ArithmeticOf(op, form, a, b) == Err
  {
  }

  /**
    An arithmetic node whose operands can be substituted into answers, substituted, as it does bound, except
    exactly on the operand values named: beside a CEL int, and under `%` that has lost its variable.
   */
  lemma ArithmeticAgrees(op: Arithmetic, x: Operand, y: Operand, p: Operand, q: Operand, name: string, element: Value,
      sc: Scope)
    requires Substitutable(x, name, element) && Substitutable(y, name, element) && !sc.nullIsMissing
    requires Substitute(x, [name], element) == Done(p) && Substitute(y, [name], element) == Done(q)
    ensures var inner := BoundTo(sc, name, element);
      var a, b := Evaluate(x, inner), Evaluate(y, inner);
      Evaluate(Expr(Arith(op), [p, q]), sc) == Evaluate(Expr(Arith(op), [x, y]), inner) <==>
      !(a.Ok? && b.Ok? && Differs(op, x, y, name, element, a.value, b.value))
  {
    hide Evaluate, FormOf, ArithmeticOf, Substitutable, Substitute, Differs, BesideInt;
    var inner := BoundTo(sc, name, element);
    var a, b := Evaluate(x, inner), Evaluate(y, inner);
    SubstituteIsBinding(x, name, element, sc);
    SubstituteIsBinding(y, name, element, sc);
    assert inner.bindings.Keys == sc.bindings.Keys + {name};
    BinaryStep(Arith(op), x, y, inner);
    BinaryStep(Arith(op), p, q, sc);
    if a.Ok? && b.Ok? {
      if BesideInt(x, y, name, element) {
        IntPairDiffers(op, x, y, p, q, name, element, sc, a.value, b.value);
      } else {
        PlainPairDiffers(op, x, y, p, q, name, element, sc, a.value, b.value);
      }
    }
  }

  // ----- string() -----

  /** The values that `string()` spells one way as an int and another as a double. */
  predicate SpellsDiffer(v: Value, host: Host) {
    v.Num? && v.n.IsInteger() && IntText(v.n.Truncated()) != FormatDouble(v.n, host)
  }

  /** `string()` answers alike unless the int type it found is gone and the value is spelled by it. */
  lemma StringAgrees(x: Operand, p: Operand, name: string, element: Value, sc: Scope)
    requires Substitutable(x, name, element) && !sc.nullIsMissing && Substitute(x, [name], element) == Done(p)
    ensures var inner := BoundTo(sc, name, element);
      var v := Evaluate(x, inner);
      Evaluate(Expr(ToString, [p]), sc) == Evaluate(Expr(ToString, [x]), inner) <==>
      !(v.Ok? && SpellsDiffer(v.value, sc.host) &&
        (TypeAfter(x, name, element) == Some(IntType) <==> NumericTypeOf(x) != Some(IntType)))
  {
    hide Evaluate, Substitute, Substitutable, NumericTypeOf, TypeAfter, FormatDouble;
    var inner := BoundTo(sc, name, element);
    SubstituteIsBinding(x, name, element, sc);
    TypeBySubstitution(x, p, name, element);
    UnaryStep(ToString, x, inner);
    UnaryStep(ToString, p, sc);
    SpellStep(x, inner.bindings.Keys, inner.Env());
    SpellStep(p, sc.bindings.Keys, sc.Env());
  }

  lemma SpellStep(x: Operand, bound: set<string>, settings: Settings)
    ensures forall v ::
      ApplyOne(ToString, FormOf(ToString, [x], bound), settings, v) ==
      ConvertToString(v, NumericTypeOf(x) == Some(IntType), settings.host)
  {
  }

  // ----- inputs on which substitution changes the answer -----

  /** `size("a") / t` over 2: a half as long as `t` is a variable, and 0 once it is an int literal. */
  lemma DivisionBesideIntDiffers(sc: Scope)
    requires !sc.nullIsMissing
    ensures var body := Expr(Arith(Div), [Expr(Size, [Literal(Str("a"))]), Variable(["t"])]);
      var two := Num(D.FromInt(2));
      Substitute(body, ["t"], two).Done? &&
      Evaluate(Substitute(body, ["t"], two).result, sc) != Evaluate(body, BoundTo(sc, "t", two))
  {
    hide Evaluate, Substitute, IntLaws.Exact;
    var a, t, two := Literal(Str("a")), Variable(["t"]), Num(D.FromInt(2));
    var x := Expr(Size, [a]);
    LeafSubstituted(a, "t", two);
    LeafSubstituted(t, "t", two);
    UnarySubstituted(Size, a, a, "t", two);
    PairSubstituted(Arith(Div), x, t, x, Literal(two), "t", two);
    SizeOfA(BoundTo(sc, "t", two));
    RootedEvaluates(t, "t", two, sc);
    assert t.path[1..] == [];
    ArithmeticAgrees(Div, x, t, x, Literal(two), "t", two, sc);
    HalfIsNoInt();
    IntLaws.WholeReal(2);
    assert IsIntExpression([x, t][0]) && Known(t, "t", two) == Some(two) && ReadsInteger(t, "t", two);
  }

  lemma SizeOfA(sc: Scope)
    ensures Evaluate(Expr(Size, [Literal(Str("a"))]), sc) == Ok(Num(D.FromInt(1)))
  {
    UnaryStep(Size, Literal(Str("a")), sc);
  }

  lemma HalfIsNoInt()
    ensures IntsDiffer(Div, Num(D.FromInt(1)), Num(D.FromInt(2)))
  {
    IntLaws.WholeReal(1);
    IntLaws.WholeReal(2);
  }

  /** `c ? t : int(1000000.0)` */
  function Choice(whole: Value): Operand {
    Expr(If, [Literal(Bool(false)), Variable(["t"]), Expr(ToInt, [Literal(whole)])])
  }

  /**
    `string(c ? t : int(1000000.0))` where `c` is false: an int as long as `t` is a variable, and `1e+06` once it is
    a fraction, which makes the whole ternary a double.
   */
  lemma StringOfTernaryDiffers(sc: Scope, half: D.Double)
    requires !sc.nullIsMissing && half == D.Fin(false, 0.5)
    requires sc.host.shortest(D.FromInt(1000000)) == Decimal("1", 6)
    ensures var body := Expr(ToString, [Choice(Num(D.FromInt(1000000)))]);
      Substitute(body, ["t"], Num(half)).Done? &&
      Evaluate(Substitute(body, ["t"], Num(half)).result, sc) != Evaluate(body, BoundTo(sc, "t", Num(half)))
  {
    hide Evaluate, Substitute;
    var million := Num(D.FromInt(1000000));
    var p := ChoiceSubstituted(million, Num(half));
    UnarySubstituted(ToString, Choice(million), p, "t", Num(half));
    ChoiceSubstitutable(million, Num(half));
    ChoiceTypes(million, half);
    ChoiceEvaluates(1000000, BoundTo(sc, "t", Num(half)));
    MillionSpells(sc.host);
    StringAgrees(Choice(million), p, "t", Num(half), sc);
  }

  lemma ChoiceSubstituted(v: Value, element: Value) returns (p: Operand)
    ensures Substitute(Choice(v), ["t"], element) == Done(p)
  {
    var c, t, i := Literal(Bool(false)), Variable(["t"]), Literal(v);
    var whole := Expr(ToInt, [i]);
    hide Substitute;
    LeafSubstituted(c, "t", element);
    LeafSubstituted(t, "t", element);
    LeafSubstituted(i, "t", element);
    UnarySubstituted(ToInt, i, i, "t", element);
    SubstituteCons(whole, [], ["t"], element);
    SubstituteCons(t, [whole], ["t"], element);
    SubstituteCons(c, [t, whole], ["t"], element);
    assert [c] + [t, whole] == [c, t, whole] && [t] + [whole] == [t, whole] && [whole] + [] == [whole];
    p := TernarySubstituted(c, t, whole, "t", element);
  }

  lemma TernarySubstituted(x: Operand, y: Operand, z: Operand, name: string, element: Value) returns (p: Operand)
    requires SubstituteAll([x, y, z], [name], element).Done?
    ensures Substitute(Expr(If, [x, y, z]), [name], element) == Done(p)
  {
    p := Expr(If, SubstituteAll([x, y, z], [name], element).result);
  }

  lemma ChoiceSubstitutable(whole: Value, element: Value)
    ensures Substitutable(Choice(whole), "t", element)
  {
    hide Placed, ShapesKept;
    var args := Choice(whole).operands;
    NodeSubstitutable(ToInt, args[2].operands, "t", element);
    assert args[2] == Expr(ToInt, args[2].operands);
    NodeSubstitutable(If, args, "t", element);
  }

  /** A conversion to int or a ternary can be substituted into where its operands can, or are leaves. */
  lemma NodeSubstitutable(op: Operator, args: seq<Operand>, name: string, element: Value)
    requires op.ToInt? || op.If?
    requires forall i | 0 <= i < |args| :: !args[i].Expr? || Substitutable(args[i], name, element)
    ensures Substitutable(Expr(op, args), name, element)
  {
    assert Evaluated(op, args) == args;
    assert forall i | 0 <= i < |args| :: Placed(args[i]) && ShapesKept(args[i], name, element);
  }

  lemma ChoiceTypes(whole: Value, half: D.Double)
    requires half == D.Fin(false, 0.5)
    ensures NumericTypeOf(Choice(whole)) == Some(IntType)
    ensures TypeAfter(Choice(whole), "t", Num(half)) == Some(DoubleType)
  {
    assert (0.5).Floor == 0;
    var t := Variable(["t"]);
    assert t.path[1..] == [] && Known(t, "t", Num(half)) == Some(Num(half));
    assert ReadsFraction(t, "t", Num(half));
  }

  lemma ChoiceEvaluates(i: int, sc: Scope)
    requires Safe(i)
    ensures Evaluate(Choice(Num(D.FromInt(i))), sc) == Ok(Num(D.FromInt(i)))
  {
    hide Evaluate;
    var args := Choice(Num(D.FromInt(i))).operands;
    IntLaws.WholeReal(i);
    IntEvaluates(i, sc);
    LiteralEvaluates(Bool(false), sc);
    EvaluateStep(If, args, sc);
    assert Evaluated(If, args) == args;
  }

  lemma LiteralEvaluates(v: Value, sc: Scope)
    ensures Evaluate(Literal(v), sc) == Ok(v)
  {
  }

  lemma IntEvaluates(i: int, sc: Scope)
    requires Safe(i)
    ensures Evaluate(Expr(ToInt, [Literal(Num(D.FromInt(i)))]), sc) == Ok(Num(D.FromInt(i)))
  {
    hide Evaluate;
    IntLaws.WholeReal(i);
    LiteralEvaluates(Num(D.FromInt(i)), sc);
    UnaryStep(ToInt, Literal(Num(D.FromInt(i))), sc);
  }

  /** One spelling is all digits and the other has an exponent. */
  lemma MillionSpells(host: Host)
    requires host.shortest(D.FromInt(1000000)) == Decimal("1", 6)
    ensures SpellsDiffer(Num(D.FromInt(1000000)), host)
  {
    IntLaws.WholeReal(1000000);
    var text := FormatDouble(D.FromInt(1000000), host);
    assert text == ExponentForm("", Decimal("1", 6));
    assert text[1] == 'e';
    assert AllDigits(IntText(1000000));
  }
}
