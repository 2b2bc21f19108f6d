/** The CEL type a plan's expression certainly has: one typing, and the shape tests that read it. */
module PlanTypes {
  import opened Wrappers
  import opened Doubles
  import opened DoubleLaws
  import opened IntLaws
  import opened Durations
  import opened DurationGrammar
  import opened Cel
  import opened Plans
  import opened Evaluator

  datatype CelType = Instant | Elapsed | Whole | WholeConstant | Fraction | Unsaid

  /** What CEL's `+` and `-` make of timestamps and durations. */
  const OVERLOADS: map<(Arithmetic, CelType, CelType), CelType> := map[
    (Add, Elapsed, Elapsed) := Elapsed, (Sub, Elapsed, Elapsed) := Elapsed,
    (Add, Instant, Elapsed) := Instant, (Sub, Instant, Elapsed) := Instant,
    (Add, Elapsed, Instant) := Instant, (Sub, Instant, Instant) := Elapsed]

  /** A bare number is an int or a double; arithmetic is int only beside something that surely is. */
  ghost function Typing(e: Operand): CelType
    decreases e
  {
    match e
    case Literal(Num(n)) => if IsWhole(n) then WholeConstant else Fraction
    case Expr(ToTimestamp, _) => Instant
    case Expr(ToDuration, _) => Elapsed
    case Expr(SinceNow, _) => Elapsed
    case Expr(ToInt, _) => Whole
    case Expr(Size, _) => Whole
    case Expr(ToDouble, _) => Fraction
    case Expr(Arith(op), args) =>
      var types := seq(|args|, i requires 0 <= i < |args| => Typing(args[i]));
      if Whole in types && forall t | t in types :: t == Whole || t == WholeConstant then Whole
      else if |types| >= 2 && (op, types[0], types[1]) in OVERLOADS then OVERLOADS[(op, types[0], types[1])]
      else Unsaid
    case _ => Unsaid
  }

  /** The shape tests are the typing. */
  lemma {:induction false} ShapesAreTypes(e: Operand)
    ensures TemporalKindOf(e) == KindOfType(Typing(e))
    ensures IsIntExpression(e) <==> Typing(e) == Whole
    ensures IsIntegerLiteral(e) <==> Typing(e) == WholeConstant
    ensures IsFractionalLiteral(e) || (e.Expr? && e.operator == ToDouble) <==> Typing(e) == Fraction
    decreases e
  {
    match e
    case Literal(v) =>
      if v.Num? {
        WholeNumbers(v.n);
      }
    case Variable(_) =>
    case Expr(op, args) =>
      if op.Arith? {
        forall i | 0 <= i < |args| ensures TypesAgree(args[i]) {
          ShapesAreTypes(args[i]);
        }
        ArithmeticTypes(op.arithmetic, args);
      }
  }

  ghost predicate TypesAgree(e: Operand) {
    TemporalKindOf(e) == KindOfType(Typing(e)) &&
    (IsIntExpression(e) <==> Typing(e) == Whole) &&
    (IsIntegerLiteral(e) <==> Typing(e) == WholeConstant)
  }

  lemma ArithmeticTypes(op: Arithmetic, args: seq<Operand>)
    requires forall i | 0 <= i < |args| :: TypesAgree(args[i])
    ensures TypesAgree(Expr(Arith(op), args))
  {
    hide TemporalKindOf, IsIntExpression, AllInt;
    IntTyped(op, args);
    if AllInt(args) {
      IntHasNoKind(op, args);
    } else {
      KindTyped(op, args);
    }
  }

  function KindOfType(t: CelType): Option<TemporalKind> {
    match t
    case Instant => Some(Timestamp)
    case Elapsed => Some(Span)
    case _ => None
  }

  lemma KindTyped(op: Arithmetic, args: seq<Operand>)
    requires forall i | 0 <= i < |args| :: TypesAgree(args[i])
    ensures TemporalKindOf(Expr(Arith(op), args)) ==
      if |args| >= 2 && (op, Typing(args[0]), Typing(args[1])) in OVERLOADS
      then KindOfType(OVERLOADS[(op, Typing(args[0]), Typing(args[1]))]) else None
  {
    hide IsIntExpression, Typing;
    if |args| >= 2 {
      assert TypesAgree(args[0]) && TypesAgree(args[1]);
    }
  }

  ghost function TypesOf(args: seq<Operand>): seq<CelType> {
    seq(|args|, i requires 0 <= i < |args| => Typing(args[i]))
  }

  predicate AllInt(args: seq<Operand>) {
    (forall i | 0 <= i < |args| :: IsIntegerLiteral(args[i]) || IsIntExpression(args[i])) &&
    exists i | 0 <= i < |args| :: IsIntExpression(args[i])
  }

  lemma IntTyped(op: Arithmetic, args: seq<Operand>)
    requires forall i | 0 <= i < |args| :: TypesAgree(args[i])
    ensures IsIntExpression(Expr(Arith(op), args)) == AllInt(args)
    ensures AllInt(args) <==>
      Whole in TypesOf(args) && forall t | t in TypesOf(args) :: t == Whole || t == WholeConstant
  {
    hide TemporalKindOf, Typing;
    var types := TypesOf(args);
    assert forall i | 0 <= i < |args| :: types[i] == Typing(args[i]) && TypesAgree(args[i]);
    if AllInt(args) {
      var i :| 0 <= i < |args| && IsIntExpression(args[i]);
      assert types[i] == Whole;
    } else if Whole in types {
      var i :| 0 <= i < |args| && types[i] == Whole;
      assert IsIntExpression(args[i]);
      var j :| 0 <= j < |args| && !(IsIntegerLiteral(args[j]) || IsIntExpression(args[j]));
      assert types[j] in types;
    }
  }

  lemma IntHasNoKind(op: Arithmetic, args: seq<Operand>)
    requires forall i | 0 <= i < |args| :: TypesAgree(args[i])
    requires AllInt(args)
    ensures TemporalKindOf(Expr(Arith(op), args)) == None
  {
    hide Typing;
    if |args| >= 2 {
      assert TypesAgree(args[0]) && TypesAgree(args[1]);
    }
  }

  // ----- ternaries -----

  /** The expressions a ternary may stand for, the first branch's first. */
  function Branches(e: Operand): seq<Operand>
    decreases e
  {
    match e
    case Expr(If, args) =>
      (if |args| > 1 then Branches(args[1]) else []) + if |args| > 2 then Branches(args[2]) else []
    case _ => [e]
  }

  ghost function FirstNumeric(branches: seq<Operand>): Option<NumericType> {
    if branches == [] then None
    else match Typing(branches[0])
      case Whole => Some(IntType)
      case Fraction => Some(DoubleType)
      case _ => FirstNumeric(branches[1..])
  }

  lemma {:induction false} FirstOfBoth(a: seq<Operand>, b: seq<Operand>)
    ensures FirstNumeric(a + b) == if FirstNumeric(a).Some? then FirstNumeric(a) else FirstNumeric(b)
    decreases |a|
  {
    if a == [] {
      assert a + b == b;
    } else {
      assert (a + b)[1..] == a[1..] + b;
      FirstOfBoth(a[1..], b);
    }
  }

  /** A ternary has the type of its first branch that has one, since CEL gives both the same. */
  lemma {:induction false} TernaryType(e: Operand)
    ensures NumericTypeOf(e) == FirstNumeric(Branches(e))
    decreases e
  {
    if e.Expr? && e.operator.If? {
      ShapesAreTypes(e);
      var args := e.operands;
      var first := if |args| > 1 then Branches(args[1]) else [];
      var second := if |args| > 2 then Branches(args[2]) else [];
      if |args| > 1 {
        TernaryType(args[1]);
      }
      if |args| > 2 {
        TernaryType(args[2]);
      }
      FirstOfBoth(first, second);
    } else {
      ShapesAreTypes(e);
      assert FirstNumeric([]) == None;
      assert Branches(e) == [e] && [e][1..] == [];
    }
  }

  // ----- values -----

  /** What a value of the type is, to the evaluator. */
  ghost predicate HasType(t: CelType, v: Value) {
    match t
    case Instant => v.BigInt?
    case Elapsed => v.Duration? && InInt64(v.nanos)
    case Whole => ToBigInt(v).Some?
    case WholeConstant => v.Num? && IsWhole(v.n)
    case Fraction => v.Num?
    case Unsaid => true
  }

  /** An expression that has a value has one of its type. */
  lemma TypingIsSound(e: Operand, sc: Scope)
    requires Typing(e) != Unsaid && Evaluate(e, sc).Ok?
    ensures HasType(Typing(e), Evaluate(e, sc).value)
  {
    hide Evaluate, FormOf, HasType, StrictResult;
    match e
    case Literal(v) =>
      LiteralTyped(v, sc);
    case Expr(op, args) =>
      EvaluateStep(op, args, sc);
      var outs := Outcomes(Evaluated(op, args), sc);
      if op.Arith? {
        ArithmeticTyped(op.arithmetic, args, sc, outs);
      } else {
        ConversionTyped(op, |args|, FormOf(op, args, sc.bindings.Keys), sc.Env(), outs);
      }
  }

  lemma LiteralTyped(v: Value, sc: Scope)
    requires Typing(Literal(v)) != Unsaid
    ensures Evaluate(Literal(v), sc) == Ok(v) && HasType(Typing(Literal(v)), v)
  {
  }

  /** The operators whose results have one type, and that type. */
  function ResultType(op: Operator): CelType {
    match op
    case ToTimestamp => Instant
    case ToDuration => Elapsed
    case SinceNow => Elapsed
    case ToInt => Whole
    case Size => Whole
    case ToDouble => Fraction
    case _ => Unsaid
  }

  lemma ConversionTyped(op: Operator, count: nat, form: Form, settings: Settings, outs: seq<Outcome>)
    requires ResultType(op) != Unsaid && StrictResult(op, count, form, settings, outs).Ok?
    ensures HasType(ResultType(op), StrictResult(op, count, form, settings, outs).value)
  {
    hide ParseDuration, FormatDouble, FromInt;
    var v := outs[0].value;
    assert StrictResult(op, count, form, settings, outs) == ApplyOne(op, form, settings, v);
    if op.ToDuration? {
      AcceptedFits(v.s, settings.host.fractionStep);
    } else if op.Size? {
      SizesAreWhole(v);
    } else if op.ToInt? {
      IntsAreWhole(v);
    }
  }

  lemma SizesAreWhole(v: Value)
    ensures SizeOf(v).Ok? ==> ToBigInt(SizeOf(v).value).Some?
  {
    if SizeOf(v).Ok? {
      WholeReal(if v.Str? then |v.s| else if v.List? then |v.items| else |v.keys|);
    }
  }

  lemma IntsAreWhole(v: Value)
    ensures ConvertToInt(v).Ok? ==> ToBigInt(ConvertToInt(v).value).Some?
  {
    hide FromInt, ToBigInt, CelInt;
    if ConvertToInt(v).Ok? {
      var i :| ConvertToInt(v) == CelInt(i);
      CarriedExactly(i);
    }
  }

  /** The overload arithmetic takes is its type's: temporal, int, or neither. */
  lemma FormIsTyped(op: Arithmetic, args: seq<Operand>, bound: set<string>)
    requires |args| >= 2
    ensures var form, t := FormOf(Arith(op), args, bound), Typing(Expr(Arith(op), args));
      form.ArithmeticForm? && (form.isInt <==> t == Whole) &&
      (t == Whole ==> !form.temporal) &&
      (t == Instant || t == Elapsed ==> form.temporal && form.kind == KindOfType(t)) &&
      (form.temporal && t != Instant && t != Elapsed ==> form.kind.None?)
    ensures Typing(Expr(Arith(op), args)) != WholeConstant && Typing(Expr(Arith(op), args)) != Fraction
  {
    hide TemporalKindOf, IsIntExpression, IsDocumentField, Typing;
    var e := Expr(Arith(op), args);
    forall i | 0 <= i < |args| ensures TypesAgree(args[i]) {
      ShapesAreTypes(args[i]);
    }
    ShapesAreTypes(e);
    KindIsTyped(op, args);
    if IsIntExpression(e) {
      IntTyped(op, args);
      forall i | 0 <= i < |args| ensures TemporalKindOf(args[i]).None? {
        assert TypesAgree(args[i]);
      }
    }
  }

  lemma KindIsTyped(op: Arithmetic, args: seq<Operand>)
    requires |args| >= 2
    ensures var t := Typing(Expr(Arith(op), args));
      t != WholeConstant && t != Fraction &&
      (t == Instant || t == Elapsed ==>
        (op == Add || op == Sub) && AnyTemporal(args) &&
        TemporalResultKind(op, TemporalKindOf(args[0]), TemporalKindOf(args[1])) == KindOfType(t)) &&
      ((op == Add || op == Sub) && t != Whole && t != Instant && t != Elapsed ==>
        TemporalResultKind(op, TemporalKindOf(args[0]), TemporalKindOf(args[1])).None?)
  {
    ShapesAreTypes(args[0]);
    ShapesAreTypes(args[1]);
    ShapesAreTypes(Expr(Arith(op), args));
  }

  lemma ArithmeticTyped(op: Arithmetic, args: seq<Operand>, sc: Scope, outs: seq<Outcome>)
    requires Typing(Expr(Arith(op), args)) != Unsaid
    requires StrictResult(Arith(op), |args|, FormOf(Arith(op), args, sc.bindings.Keys), sc.Env(), outs).Ok?
    ensures HasType(Typing(Expr(Arith(op), args)),
      StrictResult(Arith(op), |args|, FormOf(Arith(op), args, sc.bindings.Keys), sc.Env(), outs).value)
  {
    hide Typing, FormOf, ArithmeticOf;
    var form := FormOf(Arith(op), args, sc.bindings.Keys);
    assert StrictResult(Arith(op), |args|, form, sc.Env(), outs) ==
      ApplyTwo(Arith(op), form, sc.Env(), outs[0].value, outs[1].value);
    if |args| >= 2 {
      FormIsTyped(op, args, sc.bindings.Keys);
      ResultTyped(op, form, outs[0].value, outs[1].value);
    } else {
      FormOfFew(op, args, sc.bindings.Keys);
    }
  }

  lemma FormOfFew(op: Arithmetic, args: seq<Operand>, bound: set<string>)
    requires |args| < 2
    ensures FormOf(Arith(op), args, bound).Valued?
  {
  }

  lemma ResultTyped(op: Arithmetic, form: Form, a: Value, b: Value)
    requires form.ArithmeticForm? && ArithmeticOf(op, form, a, b).Ok?
    ensures var v := ArithmeticOf(op, form, a, b).value;
      if form.temporal then
        form.kind.Some? && if form.kind == Some(Timestamp) then v.BigInt? else v.Duration? && InInt64(v.nanos)
      else form.isInt ==> ToBigInt(v).Some?
  {
    hide ToBigInt, IntArithmetic, NumberArithmetic;
    IntsAreCarried(op, a, b);
  }

  lemma IntsAreCarried(op: Arithmetic, a: Value, b: Value)
    ensures IntArithmetic(op, a, b).Ok? ==> ToBigInt(IntArithmetic(op, a, b).value).Some?
  {
    hide ToBigInt, CelInt, Quotient;
    if IntArithmetic(op, a, b).Ok? {
      var i :| IntArithmetic(op, a, b) == CelInt(i);
      CarriedExactly(i);
    }
  }
}
