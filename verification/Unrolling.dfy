/** Unrolling every literal-list `map` of a plan keeps the plan's value. */
module Unrolling {
  import opened Wrappers
  import opened Cel
  import opened Plans
  import opened Evaluator
  import opened Substitution

  /** Everything about an operand's form that an enclosing operator can observe. */
  ghost predicate SameShape(x: Operand, y: Operand) {
    (x.Expr? <==> y.Expr?) && (!x.Expr? ==> x == y) &&
    (x.Expr? ==> (x.operator == ToDouble <==> y.operator == ToDouble)) &&
    TemporalKindOf(x) == TemporalKindOf(y) && IsIntExpression(x) == IsIntExpression(y) &&
    NumericTypeOf(x) == NumericTypeOf(y)
  }

  ghost predicate SameShapes(xs: seq<Operand>, ys: seq<Operand>) {
    |xs| == |ys| && forall i | 0 <= i < |xs| :: SameShape(xs[i], ys[i])
  }

  lemma IntShapes(op: Arithmetic, xs: seq<Operand>, ys: seq<Operand>)
    requires SameShapes(xs, ys)
    ensures IsIntExpression(Expr(Arith(op), xs)) == IsIntExpression(Expr(Arith(op), ys))
  {
    assert forall i | 0 <= i < |xs| :: IsIntegerLiteral(xs[i]) == IsIntegerLiteral(ys[i]);
    assert forall i | 0 <= i < |xs| :: IsIntExpression(xs[i]) == IsIntExpression(ys[i]);
  }

  /** Nodes of one operator over operands of the same shapes have the same shape. */
  lemma NodeShape(op: Operator, xs: seq<Operand>, ys: seq<Operand>)
    requires SameShapes(xs, ys)
    ensures SameShape(Expr(op, xs), Expr(op, ys))
  {
    if op.Arith? {
      IntShapes(op.arithmetic, xs, ys);
    }
  }

  lemma {:induction false} UnrollShape(e: Operand)
    requires UnrollKnownValueMaps(e).Done?
    ensures SameShape(e, UnrollKnownValueMaps(e).result)
    decreases e
  {
    if e.Expr? {
      var operands := UnrollAll(e.operands).result;
      forall i | 0 <= i < |operands| ensures SameShape(e.operands[i], operands[i]) {
        UnrollShape(e.operands[i]);
      }
      NodeShape(e.operator, e.operands, operands);
    }
  }

  lemma AnyByShape(xs: seq<Operand>, ys: seq<Operand>, bound: set<string>)
    requires SameShapes(xs, ys)
    ensures AnyTemporal(xs) == AnyTemporal(ys) && AnyInt(xs) == AnyInt(ys)
    ensures AnyDouble(xs, bound) == AnyDouble(ys, bound) && AnyVariable(xs) == AnyVariable(ys)
  {
    assert forall i | 0 <= i < |xs| :: TemporalKindOf(xs[i]) == TemporalKindOf(ys[i]);
    assert forall i | 0 <= i < |xs| :: IsIntExpression(xs[i]) == IsIntExpression(ys[i]);
    assert forall i | 0 <= i < |xs| :: IsDoubleOperand(xs[i], bound) == IsDoubleOperand(ys[i], bound);
    assert forall i | 0 <= i < |xs| :: xs[i].Variable? == ys[i].Variable?;
  }

  /** Operands of the same shapes have the same form. */
  lemma FormByShape(op: Operator, xs: seq<Operand>, ys: seq<Operand>, bound: set<string>)
    requires SameShapes(xs, ys)
    ensures FormOf(op, xs, bound) == FormOf(op, ys, bound)
  {
    if op.Arith? && |xs| >= 2 {
      IntShapes(op.arithmetic, xs, ys);
      AnyByShape(xs, ys, bound);
      assert SameShape(xs[0], ys[0]) && SameShape(xs[1], ys[1]);
    } else if op.GetField? && |xs| >= 2 {
      assert SameShape(xs[1], ys[1]);
    } else if xs != [] {
      assert SameShape(xs[0], ys[0]);
    }
  }

  /** An operator cannot tell operands of the same shapes and outcomes apart. */
  lemma CombineByShape(op: Operator, xs: seq<Operand>, ys: seq<Operand>, bound: set<string>, settings: Settings,
      outs: seq<Outcome>)
    requires SameShapes(xs, ys) && !op.Macro()
    requires |outs| == |Evaluated(op, xs)| == |Evaluated(op, ys)|
    requires op.Struct? ==> EntryKeys(xs) == EntryKeys(ys)
    ensures Combine(op, xs, FormOf(op, xs, bound), settings, outs) ==
      Combine(op, ys, FormOf(op, ys, bound), settings, outs)
  {
    FormByShape(op, xs, ys, bound);
  }

  /**
    Plans the rewrite preserves: well-placed lambdas, and under a `map` over a literal a body-first
    lambda whose body, once unrolled itself, each element can be substituted into. Everything else is
    unconstrained.
   */
  predicate Unrollable(e: Operand)
    decreases e
  {
    match e
    case Literal(_) => true
    case Variable(_) => true
    case Expr(op, args) =>
      var operands := Evaluated(op, args);
      (op.Struct? ==> forall i | 0 <= i < |args| :: IsEntry(args[i])) &&
      (op.Macro() ==>
        |args| == 2 && LambdaComponents(args[1]).Some? && Unrollable(LambdaComponents(args[1]).value.body) &&
        (op.MapEach? && args[0].Literal? && args[0].value.List? ==>
          BodyFirst(args[1]) &&
          var body := UnrollKnownValueMaps(args[1].operands[0]);
          body.Done? ==> SubstitutableAll(body.result, args[1].operands[1].path[0], args[0].value.items))) &&
      forall i | 0 <= i < |operands| :: Unrollable(operands[i])
  }

  // ----- what unrolling makes of a node -----

  lemma UnrolledOperands(op: Operator, args: seq<Operand>, operands: seq<Operand>)
    requires !op.Macro() && UnrollAll(args) == Done(operands)
    requires op.Struct? ==> forall i | 0 <= i < |args| :: IsEntry(args[i])
    ensures |Evaluated(op, operands)| == |Evaluated(op, args)|
    ensures forall i | 0 <= i < |Evaluated(op, args)| ::
      UnrollKnownValueMaps(Evaluated(op, args)[i]) == Done(Evaluated(op, operands)[i])
    ensures op.Struct? ==> forall i | 0 <= i < |args| ::
      IsEntry(operands[i]) && operands[i].operands[0] == args[i].operands[0]
  {
    if op.Struct? {
      forall i | 0 <= i < |args|
        ensures IsEntry(operands[i]) && operands[i].operands[0] == args[i].operands[0]
        ensures UnrollKnownValueMaps(args[i].operands[1]) == Done(operands[i].operands[1])
      {
        assert UnrollKnownValueMaps(args[i]) == Done(operands[i]);
        assert UnrollAll(args[i].operands).Done?;
        assert UnrollKnownValueMaps(args[i].operands[0]) == Done(args[i].operands[0]);
      }
    }
  }

  /** An unrolled lambda binds the same variables over the unrolled body. */
  lemma UnrolledLambda(lambda: Operand)
    requires LambdaComponents(lambda).Some? && UnrollKnownValueMaps(lambda).Done?
    ensures var parts := LambdaComponents(lambda).value;
      var unrolled := UnrollKnownValueMaps(lambda).result;
      UnrollKnownValueMaps(parts.body).Done? &&
      LambdaComponents(unrolled) == Some(LambdaParts(UnrollKnownValueMaps(parts.body).result, parts.variables))
    ensures BodyFirst(lambda) ==> BodyFirst(UnrollKnownValueMaps(lambda).result)
    ensures BodyFirst(lambda) ==> UnrollKnownValueMaps(lambda).result.operands[1] == lambda.operands[1]
  {
    var operands := UnrollAll(lambda.operands).result;
    assert UnrollKnownValueMaps(lambda) == Done(Expr(Lambda, operands));
    forall i | 0 <= i < |operands|
      ensures LooksLikeLambdaVariable(operands[i]) == LooksLikeLambdaVariable(lambda.operands[i])
      ensures LooksLikeLambdaVariable(operands[i]) ==> operands[i] == lambda.operands[i]
    {
      UnrollShape(lambda.operands[i]);
    }
  }

  /** What unrolling makes of a macro: a list of bodies, or the macro over unrolled operands. */
  lemma UnrolledMacro(op: Operator, args: seq<Operand>)
    requires op.Macro() && |args| == 2 && LambdaComponents(args[1]).Some?
    requires UnrollKnownValueMaps(Expr(op, args)).Done?
    ensures UnrollKnownValueMaps(args[0]).Done? && UnrollKnownValueMaps(args[1]).Done?
    ensures var operands := [UnrollKnownValueMaps(args[0]).result, UnrollKnownValueMaps(args[1]).result];
      UnrollAll(args) == Done(operands) &&
      (UnrollsHere(op, operands) ==> args[0] == operands[0])
  {
    var operands := UnrollAll(args).result;
    assert UnrollKnownValueMaps(args[0]) == Done(operands[0]);
    assert operands == [operands[0], operands[1]];
    UnrollShape(args[0]);
  }

  // ----- the rewrite preserves meaning -----

  /** Under the explicit-null convention, the unrolled plan evaluates as the plan does. */
  lemma {:induction false} UnrollPreserves(e: Operand, sc: Scope)
    requires Unrollable(e) && UnrollKnownValueMaps(e).Done? && !sc.nullIsMissing
    ensures Evaluate(UnrollKnownValueMaps(e).result, sc) == Evaluate(e, sc)
    decreases e, 2
  {
    match e
    case Literal(_) =>
    case Variable(_) =>
    case Expr(op, args) =>
      if op.Macro() {
        MacroPreserved(op, args, sc);
      } else {
        NodePreserved(op, args, sc);
      }
  }

  lemma {:induction false} NodePreserved(op: Operator, args: seq<Operand>, sc: Scope)
    requires !op.Macro() && Unrollable(Expr(op, args)) && UnrollAll(args).Done? && !sc.nullIsMissing
    ensures Evaluate(Expr(op, UnrollAll(args).result), sc) == Evaluate(Expr(op, args), sc)
    decreases Expr(op, args), 1
  {
    hide Evaluate, Combine, FormOf;
    var operands := UnrollAll(args).result;
    UnrolledOperands(op, args, operands);
    EvaluateStep(op, args, sc);
    EvaluateStep(op, operands, sc);
    var before, after := Evaluated(op, args), Evaluated(op, operands);
    forall i | 0 <= i < |before| ensures Evaluate(after[i], sc) == Evaluate(before[i], sc) {
      UnrollPreserves(before[i], sc);
    }
    forall i | 0 <= i < |args| ensures SameShape(args[i], operands[i]) {
      UnrollShape(args[i]);
    }
    var outs := Outcomes(before, sc);
    assert Outcomes(after, sc) == outs;
    assert op.Struct? ==> EntryKeys(args) == EntryKeys(operands);
    CombineByShape(op, args, operands, sc.bindings.Keys, sc.Env(), outs);
  }

  lemma {:induction false} MacroPreserved(op: Operator, args: seq<Operand>, sc: Scope)
    requires op.Macro() && Unrollable(Expr(op, args)) && !sc.nullIsMissing
    requires UnrollKnownValueMaps(Expr(op, args)).Done?
    ensures Evaluate(UnrollKnownValueMaps(Expr(op, args)).result, sc) == Evaluate(Expr(op, args), sc)
    decreases Expr(op, args), 1
  {
    UnrolledMacro(op, args);
    UnrolledLambda(args[1]);
    var operands := UnrollAll(args).result;
    MacroOverUnrolled(op, args, operands, sc);
    if UnrollsHere(op, operands) {
      MapIsList(operands[0].value.items, operands[1], sc);
    }
  }

  lemma {:induction false} MacroOverUnrolled(op: Operator, args: seq<Operand>, operands: seq<Operand>, sc: Scope)
    requires op.Macro() && Unrollable(Expr(op, args)) && !sc.nullIsMissing
    requires UnrollAll(args) == Done(operands) && UnrollKnownValueMaps(args[1]).Done?
    ensures Evaluate(Expr(op, operands), sc) == Evaluate(Expr(op, args), sc)
    decreases Expr(op, args), 0, 1
  {
    hide Combine, MacroOutcome, StartMacro, MacroResult, Evaluate;
    EvaluateStep(op, args, sc);
    EvaluateStep(op, operands, sc);
    assert Evaluated(op, args) == [args[0]] && Evaluated(op, operands) == [operands[0]];
    UnrollPreserves(args[0], sc);
    var outs := Outcomes(Evaluated(op, args), sc);
    assert Outcomes(Evaluated(op, operands), sc) == outs;
    StartedUnrolled(op, args, operands, outs, sc);
  }

  /** Past its collection, a macro goes on alike over the unrolled body. */
  lemma {:induction false} StartedUnrolled(op: Operator, args: seq<Operand>, operands: seq<Operand>,
      outs: seq<Outcome>, sc: Scope)
    requires op.Macro() && Unrollable(Expr(op, args)) && !sc.nullIsMissing
    requires UnrollAll(args) == Done(operands) && UnrollKnownValueMaps(args[1]).Done?
    ensures MacroOutcome(op, StartMacro(op, operands, outs), sc) == MacroOutcome(op, StartMacro(op, args, outs), sc)
    decreases Expr(op, args), 0, 0
  {
    hide MacroResult, Evaluate;
    UnrolledLambda(args[1]);
    assert operands[1] == UnrollKnownValueMaps(args[1]).result;
    if StartMacro(op, args, outs).Iterate? {
      var Iterate(lambda, rows) := StartMacro(op, args, outs);
      var after := LambdaComponents(operands[1]).value;
      forall i | 0 <= i < |rows|
        ensures Evaluate(after.body, Bind(sc, after.variables, rows[i])) ==
          Evaluate(lambda.body, Bind(sc, lambda.variables, rows[i]))
      {
        UnrollPreserves(lambda.body, Bind(sc, lambda.variables, rows[i]));
      }
      assert BodyOutcomes(after, rows, sc) == BodyOutcomes(lambda, rows, sc);
    }
  }
}
