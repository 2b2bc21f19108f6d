/** Substitution and unrolling node by node: what is replaced, what is left, and exactly what is refused. */
module SubstitutionShape {
  import opened Wrappers
  import opened Cel
  import opened Plans
  import opened PlanChecks
  import opened Substitution

  // ----- which nodes substitution reaches -----

  /** Whether the node is a macro, or an `except`, whose lambda binds the variable again. */
  predicate Shadows(e: Operand, variable: Path) {
    e.Expr? && |e.operands| == 2 &&
    (match e.operator
     case Quantify(_) => true
     case Filter => true
     case MapEach => true
     case Except => true
     case _ => false) &&
    match e.operands[1]
    case Expr(Lambda, parts) => |parts| >= 2 && parts[1] == Variable(variable)
    case _ => false
  }

  /** Whether no lambda on the way to the position binds the variable again. */
  predicate Unshadowed(e: Operand, variable: Path, route: seq<nat>)
    decreases |route|
  {
    route == [] ||
    (e.Expr? && route[0] < |e.operands| && (Shadows(e, variable) ==> route[0] == 0) &&
     Unshadowed(e.operands[route[0]], variable, route[1..]))
  }

  /** What the reference reads of the element: the element itself, or a field under it. */
  function ReadOf(path: Path, variable: Path, element: Value): Option<Outcome> {
    if variable <= path then Some(Nested(element, path[|variable|..])) else None
  }

  /** A node after substitution: a reference through the variable becomes what it reads, all else stays. */
  predicate Replaced(node: Operand, after: Operand, variable: Path, element: Value) {
    match node
    case Literal(_) => after == node
    case Variable(path) =>
      (match ReadOf(path, variable, element)
       case None => after == node
       case Some(read) => read.Ok? && after == Literal(read.value))
    case Expr(op, args) => after.Expr? && after.operator == op && |after.operands| == |args|
  }

  lemma ShadowsAlike(e: Operand, variable: Path)
    ensures Shadows(e, variable) <==>
      e.Expr? && BindsLambda(e.operator) && |e.operands| == 2 && Rebinds(e.operands[1], variable)
  {
  }

  /** Every node of the result stands where it stood, replaced if no lambda shadows the variable there. */
  lemma {:induction false} SubstitutedAt(e: Operand, variable: Path, element: Value, route: seq<nat>)
    requires Substitute(e, variable, element).Done? && At(e, route).Some?
    ensures var after := At(Substitute(e, variable, element).result, route);
      after.Some? &&
      if Unshadowed(e, variable, route) then Replaced(At(e, route).value, after.value, variable, element)
      else after == At(e, route)
    decreases |route|
  {
    ShadowsAlike(e, variable);
    if route == [] {
      NodeReplaced(e, variable, element);
    } else {
      ChildSubstituted(e, variable, element, route[0]);
      if !(Shadows(e, variable) && route[0] > 0) {
        SubstitutedAt(e.operands[route[0]], variable, element, route[1..]);
      }
    }
  }

  lemma NodeReplaced(e: Operand, variable: Path, element: Value)
    requires Substitute(e, variable, element).Done?
    ensures Replaced(e, Substitute(e, variable, element).result, variable, element)
  {
    if e.Variable? && e.path == variable {
      assert e.path[|variable|..] == [];
    }
  }

  lemma ChildSubstituted(e: Operand, variable: Path, element: Value, i: nat)
    requires Substitute(e, variable, element).Done? && e.Expr? && i < |e.operands|
    ensures var r := Substitute(e, variable, element).result;
      r.Expr? && i < |r.operands| &&
      if Shadows(e, variable) && i > 0 then r.operands[i] == e.operands[i]
      else Substitute(e.operands[i], variable, element) == Done(r.operands[i])
  {
    ShadowsAlike(e, variable);
  }

  // ----- refusals -----

  /** A reference through the variable to what the element does not have. */
  predicate MissesAt(e: Operand, variable: Path, element: Value, route: seq<nat>) {
    Unshadowed(e, variable, route) &&
    match At(e, route)
    case Some(Variable(path)) => variable <= path && !Nested(element, path[|variable|..]).Ok?
    case _ => false
  }

  ghost predicate Misses(e: Operand, variable: Path, element: Value) {
    exists route :: MissesAt(e, variable, element, route)
  }

  lemma MissesBelow(e: Operand, variable: Path, element: Value, i: nat, route: seq<nat>)
    requires e.Expr? && i < |e.operands|
    ensures MissesAt(e, variable, element, [i] + route) <==>
      (Shadows(e, variable) ==> i == 0) && MissesAt(e.operands[i], variable, element, route)
  {
    assert ([i] + route)[1..] == route;
  }

  lemma MissesHereOrBelow(e: Operand, variable: Path, element: Value)
    requires e.Expr?
    ensures Misses(e, variable, element) <==>
      exists i | 0 <= i < |e.operands| && (Shadows(e, variable) ==> i == 0) ::
        Misses(e.operands[i], variable, element)
  {
    hide Shadows;
    if Misses(e, variable, element) {
      var route :| MissesAt(e, variable, element, route);
      assert route == [route[0]] + route[1..];
      MissesBelow(e, variable, element, route[0], route[1..]);
      assert Misses(e.operands[route[0]], variable, element);
    }
    if i: nat :| i < |e.operands| && (Shadows(e, variable) ==> i == 0) && Misses(e.operands[i], variable, element) {
      var route :| MissesAt(e.operands[i], variable, element, route);
      MissesBelow(e, variable, element, i, route);
    }
  }

  /** Substitution is refused exactly where the element lacks what an unshadowed reference reads of it. */
  lemma {:induction false} SubstitutionRefused(e: Operand, variable: Path, element: Value)
    ensures Substitute(e, variable, element).Refused? <==> Misses(e, variable, element)
    decreases e
  {
    hide Misses;
    if e.Expr? {
      forall i | 0 <= i < |e.operands|
        ensures Substitute(e.operands[i], variable, element).Refused? <==> Misses(e.operands[i], variable, element)
      {
        SubstitutionRefused(e.operands[i], variable, element);
      }
      AllRefused(e.operands, variable, element);
      MissesHereOrBelow(e, variable, element);
      ShadowsAlike(e, variable);
    } else {
      LeafMisses(e, variable, element);
    }
  }

  lemma LeafMisses(e: Operand, variable: Path, element: Value)
    requires !e.Expr?
    ensures Substitute(e, variable, element).Refused? <==> Misses(e, variable, element)
  {
    if e.Variable? && e.path == variable {
      assert e.path[|variable|..] == [];
    }
    assert Substitute(e, variable, element).Refused? ==> MissesAt(e, variable, element, []);
  }

  lemma {:induction false} AllRefused(es: seq<Operand>, variable: Path, element: Value)
    ensures SubstituteAll(es, variable, element).Refused? <==>
      exists i | 0 <= i < |es| :: Substitute(es[i], variable, element).Refused?
    decreases |es|
  {
    if es != [] {
      AllRefused(es[1..], variable, element);
      assert forall i | 0 < i < |es| :: es[i] == es[1..][i - 1];
    }
  }

  // ----- lambdas -----

  /** The lowering splits a lambda as the evaluator does, where the evaluator binds one bare name. */
  lemma ExtractsAsEvaluator(lambda: Operand, name: string, body: Operand)
    ensures ExtractLambda(lambda) == Done(([name], body)) <==>
      LambdaComponents(lambda) == Some(LambdaParts(body, [name]))
  {
    if lambda.Expr? && |lambda.operands| == 2 {
      assert forall i | 0 <= i < 2 ::
        LooksLikeLambdaVariable(lambda.operands[i]) ==> lambda.operands[i].path == [lambda.operands[i].path[0]];
    }
  }

  /** It is refused exactly without two operands, one of them a reference. */
  lemma LambdaRefused(lambda: Operand)
    ensures ExtractLambda(lambda).Refused? <==>
      !(lambda.Expr? && lambda.operator.Lambda? && |lambda.operands| == 2 &&
        (lambda.operands[0].Variable? || lambda.operands[1].Variable?))
  {
  }

  // ----- unrolling -----

  /** A list constant under a lambda, which `map` unrolls over. */
  predicate ListUnderLambda(operands: seq<Operand>) {
    |operands| == 2 && operands[0].Literal? && operands[0].value.List? &&
    match operands[1]
    case Expr(Lambda, _) => true
    case _ => false
  }

  /** A node over its unrolled operands: the list of bodies for such a `map`, and itself for any other. */
  ghost predicate UnrolledNode(op: Operator, operands: seq<Operand>, r: Operand) {
    if op.MapEach? && ListUnderLambda(operands) then
      r.Expr? && r.operator.ListOf? && |r.operands| == |operands[0].value.items| &&
      exists variable, body :: UnrolledBodies(operands[1], operands[0].value.items, r.operands, variable, body)
    else r == Expr(op, operands)
  }

  ghost predicate UnrolledBodies(lambda: Operand, items: seq<Value>, bodies: seq<Operand>, variable: Path,
      body: Operand)
    requires |bodies| == |items|
  {
    ExtractLambda(lambda) == Done((variable, body)) &&
    forall i | 0 <= i < |items| :: Substitute(body, variable, items[i]) == Done(bodies[i])
  }

  /** Unrolling goes through every node, and replaces each `map` over a list constant. */
  lemma UnrolledEverywhere(op: Operator, args: seq<Operand>)
    requires UnrollKnownValueMaps(Expr(op, args)).Done?
    ensures exists operands ::
      UnrolledOperands(args, operands) && UnrolledNode(op, operands, UnrollKnownValueMaps(Expr(op, args)).result)
  {
    hide Substitute, ExtractLambda;
    var operands := UnrollAll(args).result;
    assert UnrolledOperands(args, operands);
    if op.MapEach? && ListUnderLambda(operands) {
      var lambda := ExtractLambda(operands[1]).result;
      var r := UnrollKnownValueMaps(Expr(op, args)).result;
      assert UnrolledBodies(operands[1], operands[0].value.items, r.operands, lambda.0, lambda.1);
    }
  }

  predicate UnrolledOperands(args: seq<Operand>, operands: seq<Operand>) {
    |operands| == |args| && forall i | 0 <= i < |args| :: UnrollKnownValueMaps(args[i]) == Done(operands[i])
  }

  /** A `map` over a list constant whose lambda has no variable, or whose body an element lacks a field for. */
  ghost predicate Unfoldable(op: Operator, operands: seq<Operand>) {
    op.MapEach? && ListUnderLambda(operands) &&
    match ExtractLambda(operands[1])
    case Refused => true
    case Done((variable, body)) => exists v :: v in operands[0].value.items && Misses(body, variable, v)
  }

  /** Unrolling is refused exactly where an operand's is, or over such a `map`. */
  lemma UnrollingRefused(op: Operator, args: seq<Operand>)
    ensures UnrollKnownValueMaps(Expr(op, args)).Refused? <==>
      (exists i | 0 <= i < |args| :: UnrollKnownValueMaps(args[i]).Refused?) ||
      exists operands :: UnrolledOperands(args, operands) && Unfoldable(op, operands)
  {
    hide Substitute, ExtractLambda, Misses;
    UnrollAllRefused(args);
    if UnrollAll(args).Done? {
      var operands := UnrollAll(args).result;
      assert UnrolledOperands(args, operands);
      assert forall other :: UnrolledOperands(args, other) ==> other == operands;
      if ListUnderLambda(operands) && ExtractLambda(operands[1]).Done? {
        var lambda := ExtractLambda(operands[1]).result;
        BodiesRefused(lambda.1, lambda.0, operands[0].value.items);
      }
    }
  }

  lemma {:induction false} UnrollAllRefused(es: seq<Operand>)
    ensures UnrollAll(es).Refused? <==> exists i | 0 <= i < |es| :: UnrollKnownValueMaps(es[i]).Refused?
    decreases |es|
  {
    if es != [] {
      UnrollAllRefused(es[1..]);
      assert forall i | 0 < i < |es| :: es[i] == es[1..][i - 1];
    }
  }

  lemma {:induction false} BodiesRefused(body: Operand, variable: Path, elements: seq<Value>)
    ensures Bodies(body, variable, elements).Refused? <==>
      exists v :: v in elements && Misses(body, variable, v)
    decreases |elements|
  {
    hide Misses, Substitute;
    if elements != [] {
      SubstitutionRefused(body, variable, elements[0]);
      BodiesRefused(body, variable, elements[1..]);
      assert elements == [elements[0]] + elements[1..];
    }
  }
}
