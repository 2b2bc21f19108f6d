/** The refusals, node by node: exactly which plans the adapter does not translate. */
module PlanChecks {
  import opened Wrappers
  import opened Doubles
  import opened DoubleLaws
  import opened Cel
  import opened Plans
  import opened Evaluator
  import opened EvaluatorLaws
  import opened PlanTypes
  import opened MacroLaws
  import opened Validate
  import opened Pushdown
  import opened QueryPlans

  // ----- positions -----

  /** The node that a list of operand positions leads to. */
  function At(e: Operand, route: seq<nat>): Option<Operand>
    decreases |route|
  {
    if route == [] then Some(e)
    else if e.Expr? && route[0] < |e.operands| then At(e.operands[route[0]], route[1..])
    else None
  }

  /** The operator a node stands under; `above` where it is the root. */
  function Under(e: Operand, route: seq<nat>, above: Option<Operator>): Option<Operator>
    decreases |route|
  {
    if route == [] then above
    else if e.Expr? && route[0] < |e.operands| then Under(e.operands[route[0]], route[1..], Some(e.operator))
    else None
  }

  predicate IsConstantZero(e: Operand) {
    e.Literal? && e.value.Num? && (e.value.n == Fin(false, 0.0) || e.value.n == Fin(true, 0.0))
  }

  /** A ternary nested in branches at `route`, all of them without a numeric type, and the constant there. */
  ghost predicate UntypedConstant(e: Operand, route: seq<nat>, host: Host)
    decreases |route|
  {
    if route == [] then
      e.Literal? && e.value.Num? && IsWhole(e.value.n) &&
      ConvertToString(e.value, true, host) != ConvertToString(e.value, false, host)
    else
      e.Expr? && e.operator.If? && FirstNumeric(Branches(e)).None? && 1 <= route[0] < |e.operands| &&
      UntypedConstant(e.operands[route[0]], route[1..], host)
  }

  ghost predicate HasUntyped(e: Operand, host: Host) {
    exists route :: UntypedConstant(e, route, host)
  }

  lemma {:induction false} RendersExactly(e: Operand, host: Host)
    ensures RendersUntypedConstant(e, None, host) <==> HasUntyped(e, host)
    decreases e
  {
    hide ConvertToString, HasUntyped, Branches, FirstNumeric, NumericTypeOf;
    if e.Expr? && e.operator.If? {
      forall i | 1 <= i < |e.operands|
        ensures RendersUntypedConstant(e.operands[i], None, host) <==> HasUntyped(e.operands[i], host)
        ensures forall t: NumericType :: !RendersUntypedConstant(e.operands[i], Some(t), host)
      {
        RendersExactly(e.operands[i], host);
        forall t: NumericType ensures !RendersUntypedConstant(e.operands[i], Some(t), host) {
          TypedRendersNothing(e.operands[i], t, host);
        }
      }
      TernaryType(e);
      BranchRendered(e, host);
    } else {
      LeafRendered(e, host);
    }
  }

  lemma LeafRendered(e: Operand, host: Host)
    requires e.Expr? ==> !e.operator.If?
    ensures RendersUntypedConstant(e, None, host) <==> HasUntyped(e, host)
  {
    hide ConvertToString;
    if e.Literal? && e.value.Num? {
      WholeNumbers(e.value.n);
    }
    assert UntypedConstant(e, [], host) <==> RendersUntypedConstant(e, None, host);
  }

  lemma {:induction false} TypedRendersNothing(e: Operand, t: NumericType, host: Host)
    ensures !RendersUntypedConstant(e, Some(t), host)
    decreases e
  {
    if e.Expr? && e.operator.If? {
      forall i | 1 <= i < |e.operands| ensures !RendersUntypedConstant(e.operands[i], Some(t), host) {
        TypedRendersNothing(e.operands[i], t, host);
      }
    }
  }

  lemma BranchRendered(e: Operand, host: Host)
    requires e.Expr? && e.operator.If?
    ensures HasUntyped(e, host) <==>
      FirstNumeric(Branches(e)).None? && exists i | 1 <= i < |e.operands| :: HasUntyped(e.operands[i], host)
  {
    hide ConvertToString, Branches, FirstNumeric;
    if HasUntyped(e, host) {
      var route :| UntypedConstant(e, route, host);
      assert UntypedConstant(e.operands[route[0]], route[1..], host);
      assert HasUntyped(e.operands[route[0]], host);
    }
    if FirstNumeric(Branches(e)).None? && exists i | 1 <= i < |e.operands| :: HasUntyped(e.operands[i], host) {
      var i :| 1 <= i < |e.operands| && HasUntyped(e.operands[i], host);
      var route :| UntypedConstant(e.operands[i], route, host);
      assert ([i] + route)[1..] == route;
      assert UntypedConstant(e, [i] + route, host);
    }
  }

  // ----- structure -----

  ghost predicate IsEntryOf(e: Operand, key: string, value: Operand) {
    e == Entry(key, value)
  }

  ghost predicate IsMapEntry(e: Operand) {
    exists key, value :: IsEntryOf(e, key, value)
  }

  ghost predicate TakesLambda(op: Operator, e: Operand) {
    exists body, names :: IsLambda(e, body, names) && (op.Quantify? || |names| == 1)
  }

  /** What is wrong with a node by itself: an operator not known, or one over operands it cannot answer. */
  ghost predicate Offence(op: Operator, args: seq<Operand>, above: Option<Operator>, host: Host,
      safePattern: string -> bool)
  {
    match op
    case Unlisted(_) => true
    case SetField => above != Some(Struct)
    case Struct => exists i | 0 <= i < |args| :: !IsMapEntry(args[i])
    case Arith(Div) =>
      |args| >= 2 &&
      ((exists inner :: args[1] == Expr(Arith(Div), inner)) || (IsConstantZero(args[1]) && !IsConstantZero(args[0])))
    case Arith(Mod) => exists i | 0 <= i < |args| :: !args[i].Variable? && Typing(args[i]) !in {Whole, WholeConstant}
    case ToString => args != [] && HasUntyped(args[0], host)
    case Matches => |args| < 2 || !args[1].Literal? || !args[1].value.Str? || !safePattern(args[1].value.s)
    case Quantify(_) => |args| < 2 || !TakesLambda(op, args[1])
    case Filter => |args| < 2 || !TakesLambda(op, args[1])
    case MapEach => |args| < 2 || !TakesLambda(op, args[1])
    case _ => false
  }

  lemma OffenceExactly(op: Operator, args: seq<Operand>, above: Option<Operator>, host: Host,
      safePattern: string -> bool)
    ensures Offence(op, args, above, host, safePattern) <==>
      op.Unlisted? || (op.SetField? && above != Some(Struct)) || !OperatorAccepts(op, args, host, safePattern)
  {
    hide Typing, IsIntExpression, RendersUntypedConstant, HasUntyped, LambdaComponents, IsLambda,
      IsMapEntry, IsEntry, TakesLambda, LambdaHolds;
    if op.ToString? && args != [] {
      RendersExactly(args[0], host);
    } else if op == Arith(Mod) {
      forall i | 0 <= i < |args| ensures TypesAgree(args[i]) {
        ShapesAreTypes(args[i]);
      }
    } else if op.Struct? {
      forall i | 0 <= i < |args| ensures IsEntry(args[i]) <==> IsMapEntry(args[i]) {
        EntryIs(args[i]);
      }
    } else if op.Macro() && |args| >= 2 {
      LambdaTaken(op, args[1]);
    }
  }

  lemma EntryIs(e: Operand)
    ensures IsEntry(e) <==> IsMapEntry(e)
  {
    if IsEntry(e) {
      assert IsEntryOf(e, e.operands[0].value.s, e.operands[1]);
    }
  }

  lemma LambdaTaken(op: Operator, e: Operand)
    ensures LambdaHolds(op, e) <==> TakesLambda(op, e)
  {
    hide IsLambda;
    var parts := LambdaComponents(e);
    if parts.Some? {
      LambdaRead(e, parts.value.body, parts.value.variables);
    }
    forall body, names | IsLambda(e, body, names) ensures parts == Some(LambdaParts(body, names)) {
      LambdaRead(e, body, names);
    }
  }

  /** The offending node at a position. */
  ghost predicate OffendsAt(e: Operand, route: seq<nat>, above: Option<Operator>, host: Host,
      safePattern: string -> bool)
  {
    var node := At(e, route);
    node.Some? && node.value.Expr? &&
    Offence(node.value.operator, node.value.operands, Under(e, route, above), host, safePattern)
  }

  lemma OffendsBelow(op: Operator, args: seq<Operand>, i: nat, route: seq<nat>, above: Option<Operator>, host: Host,
      safePattern: string -> bool)
    requires i < |args|
    ensures OffendsAt(Expr(op, args), [i] + route, above, host, safePattern) <==>
      OffendsAt(args[i], route, Some(op), host, safePattern)
  {
    hide Offence;
    assert ([i] + route)[1..] == route;
  }

  /** Structural validation refuses exactly the plans with an offending node, wherever it stands. */
  lemma {:induction false} StructureRefused(e: Operand, above: Option<Operator>, host: Host,
      safePattern: string -> bool)
    ensures ValidateStructure(e, above, host, safePattern) <==>
      !exists route :: OffendsAt(e, route, above, host, safePattern)
    decreases e
  {
    hide Offence, OperatorAccepts;
    if e.Expr? {
      var op, args := e.operator, e.operands;
      forall i: nat | i < |args|
        ensures ValidateStructure(args[i], Some(op), host, safePattern) <==>
          !exists route :: OffendsAt(args[i], route, Some(op), host, safePattern)
      {
        StructureRefused(args[i], Some(op), host, safePattern);
      }
      OffenceExactly(op, args, above, host, safePattern);
      NodeOrBelow(op, args, above, host, safePattern);
    } else {
      forall route ensures !OffendsAt(e, route, above, host, safePattern) {
      }
    }
  }

  lemma NodeOrBelow(op: Operator, args: seq<Operand>, above: Option<Operator>, host: Host,
      safePattern: string -> bool)
    ensures (exists route :: OffendsAt(Expr(op, args), route, above, host, safePattern)) <==>
      Offence(op, args, above, host, safePattern) ||
      exists i: nat | i < |args| :: exists route :: OffendsAt(args[i], route, Some(op), host, safePattern)
  {
    hide Offence;
    var e := Expr(op, args);
    if route :| OffendsAt(e, route, above, host, safePattern) {
      if route != [] {
        var i := route[0];
        assert route == [i] + route[1..];
        OffendsBelow(op, args, i, route[1..], above, host, safePattern);
      }
    }
    if Offence(op, args, above, host, safePattern) {
      assert OffendsAt(e, [], above, host, safePattern);
    }
    if i: nat :| i < |args| && exists route :: OffendsAt(args[i], route, Some(op), host, safePattern) {
      var route :| OffendsAt(args[i], route, Some(op), host, safePattern);
      OffendsBelow(op, args, i, route, above, host, safePattern);
    }
  }

  // ----- the other checks -----

  /** Whether only `and`, `or` and `not` stand above the position. */
  predicate InCondition(e: Operand, route: seq<nat>)
    decreases |route|
  {
    route == [] ||
    (e.Expr? && (e.operator.And? || e.operator.Or? || e.operator.Not?) && route[0] < |e.operands| &&
     InCondition(e.operands[route[0]], route[1..]))
  }

  predicate YieldsList(e: Operand) {
    e.Expr? && (e.operator.Filter? || e.operator.MapEach?)
  }

  predicate ListAt(e: Operand, route: seq<nat>) {
    InCondition(e, route) && At(e, route).Some? && YieldsList(At(e, route).value)
  }

  lemma ListBelow(op: Operator, args: seq<Operand>, i: nat, route: seq<nat>)
    requires i < |args|
    ensures ListAt(Expr(op, args), [i] + route) <==> (op.And? || op.Or? || op.Not?) && ListAt(args[i], route)
  {
    assert ([i] + route)[1..] == route;
  }

  ghost predicate HasList(e: Operand) {
    exists route :: ListAt(e, route)
  }

  /** A list stands where a boolean is read. */
  lemma {:induction false} ListsRefused(e: Operand)
    ensures NoListValuedCondition(e) <==> !HasList(e)
    decreases e
  {
    if e.Expr? {
      forall i | 0 <= i < |e.operands| ensures NoListValuedCondition(e.operands[i]) <==> !HasList(e.operands[i]) {
        ListsRefused(e.operands[i]);
      }
      ListHereOrBelow(e.operator, e.operands);
    }
  }

  lemma ListHereOrBelow(op: Operator, args: seq<Operand>)
    ensures HasList(Expr(op, args)) <==>
      YieldsList(Expr(op, args)) ||
      ((op.And? || op.Or? || op.Not?) && exists i | 0 <= i < |args| :: HasList(args[i]))
  {
    var e := Expr(op, args);
    if HasList(e) {
      var route :| ListAt(e, route);
      if route != [] {
        assert route == [route[0]] + route[1..];
        ListBelow(op, args, route[0], route[1..]);
        assert HasList(args[route[0]]);
      }
    }
    assert YieldsList(e) ==> ListAt(e, []);
    if i: nat :| i < |args| && HasList(args[i]) {
      var route :| ListAt(args[i], route);
      ListBelow(op, args, i, route);
    }
  }

  predicate IsNullConstant(e: Operand) {
    e == Literal(Null) ||
    (e.Literal? && e.value.List? && exists i | 0 <= i < |e.value.items| :: e.value.items[i] == Null)
  }

  predicate NullAt(e: Operand, route: seq<nat>) {
    At(e, route).Some? && IsNullConstant(At(e, route).value)
  }

  ghost predicate HasNull(e: Operand) {
    exists route :: NullAt(e, route)
  }

  lemma NullBelow(op: Operator, args: seq<Operand>, i: nat, route: seq<nat>)
    requires i < |args|
    ensures NullAt(Expr(op, args), [i] + route) <==> NullAt(args[i], route)
  {
    assert ([i] + route)[1..] == route;
  }

  lemma NullHereOrBelow(e: Operand)
    ensures HasNull(e) <==>
      IsNullConstant(e) || (e.Expr? && exists i | 0 <= i < |e.operands| :: HasNull(e.operands[i]))
  {
    hide IsNullConstant;
    if HasNull(e) {
      var route :| NullAt(e, route);
      if route != [] {
        assert route == [route[0]] + route[1..];
        NullBelow(e.operator, e.operands, route[0], route[1..]);
        assert HasNull(e.operands[route[0]]);
      }
    }
    assert IsNullConstant(e) ==> NullAt(e, []);
    if e.Expr? && exists i | 0 <= i < |e.operands| :: HasNull(e.operands[i]) {
      var i: nat :| i < |e.operands| && HasNull(e.operands[i]);
      var route :| NullAt(e.operands[i], route);
      NullBelow(e.operator, e.operands, i, route);
    }
  }

  /** A null constant, or a list of one, is an operand somewhere. */
  lemma {:induction false} NullsRefused(e: Operand)
    ensures NoNullComparisonOperands(e) <==> e.Expr? ==> !HasNull(e)
    decreases e
  {
    NullHereOrBelow(e);
    if e.Expr? {
      forall i | 0 <= i < |e.operands|
        ensures !CarriesNullLiteral(e.operands[i]) && NoNullComparisonOperands(e.operands[i]) <==>
          !HasNull(e.operands[i])
      {
        NullsRefused(e.operands[i]);
        NullHereOrBelow(e.operands[i]);
      }
    }
  }

  /** Whether the plan reads the reference, other than through a lambda that binds its root. */
  ghost predicate Mentions(e: Operand, path: Path)
    decreases e
  {
    if !e.Expr? then e == Variable(path)
    else if e.operator.Lambda? then
      exists body, names :: IsLambda(e, body, names) && body < e && path[0] !in names && Mentions(body, path)
    else
      exists i | 0 <= i < |e.operands| && (e.operator.GetField? ==> i == 0) :: Mentions(e.operands[i], path)
  }

  /** Every lambda the check goes through has a body and names. */
  ghost predicate LambdasRead(e: Operand)
    decreases e
  {
    if !e.Expr? then true
    else if e.operator.Lambda? then
      exists body, names :: IsLambda(e, body, names) && body < e && LambdasRead(body)
    else
      forall i | 0 <= i < |e.operands| && (e.operator.GetField? ==> i == 0) :: LambdasRead(e.operands[i])
  }

  /** Every reference read under no binder, the lambdas around it aside, has an entry. */
  ghost predicate Mapped(e: Operand, mapper: Mapper, bound: set<string>) {
    LambdasRead(e) && forall path: Path | Mentions(e, path) :: path[0] in bound || mapper(path).Some?
  }

  /** The reference check passes exactly then. */
  lemma {:induction false} UnmappedRefused(e: Operand, mapper: Mapper, bound: set<string>)
    ensures EveryReferenceMapped(e, mapper, bound) <==> Mapped(e, mapper, bound)
    decreases e
  {
    hide LambdaComponents, Mapped;
    match e
    case Literal(v) => LeafMapped(e, mapper, bound);
    case Variable(_) => LeafMapped(e, mapper, bound);
    case Expr(op, args) =>
      if op.Lambda? {
        LambdaMapped(e, mapper, bound);
        if LambdaComponents(e).Some? {
          var parts := LambdaComponents(e).value;
          UnmappedRefused(parts.body, mapper, bound + set name | name in parts.variables);
        }
      } else {
        forall i | 0 <= i < |args|
          ensures EveryReferenceMapped(args[i], mapper, bound) <==> Mapped(args[i], mapper, bound)
        {
          UnmappedRefused(args[i], mapper, bound);
        }
        NodeMapped(e, mapper, bound);
      }
  }

  lemma LeafMapped(e: Operand, mapper: Mapper, bound: set<string>)
    requires !e.Expr?
    ensures EveryReferenceMapped(e, mapper, bound) <==> Mapped(e, mapper, bound)
  {
    assert e.Variable? ==> Mentions(e, e.path);
  }

  lemma NodeMapped(e: Operand, mapper: Mapper, bound: set<string>)
    requires e.Expr? && !e.operator.Lambda?
    ensures Mapped(e, mapper, bound) <==>
      forall i | 0 <= i < |e.operands| && (e.operator.GetField? ==> i == 0) :: Mapped(e.operands[i], mapper, bound)
  {
    NodeMentions(e);
    if Mapped(e, mapper, bound) {
      forall i | 0 <= i < |e.operands| && (e.operator.GetField? ==> i == 0)
        ensures Mapped(e.operands[i], mapper, bound)
      {
        forall path: Path | Mentions(e.operands[i], path) ensures path[0] in bound || mapper(path).Some? {
          assert Mentions(e, path);
        }
      }
    }
  }

  lemma NodeMentions(e: Operand)
    requires e.Expr? && !e.operator.Lambda?
    ensures LambdasRead(e) <==>
      forall i | 0 <= i < |e.operands| && (e.operator.GetField? ==> i == 0) :: LambdasRead(e.operands[i])
    ensures forall path: Path :: Mentions(e, path) <==>
      exists i | 0 <= i < |e.operands| && (e.operator.GetField? ==> i == 0) :: Mentions(e.operands[i], path)
  {
    hide IsLambda;
    forall path: Path
      ensures Mentions(e, path) <==>
        exists i | 0 <= i < |e.operands| && (e.operator.GetField? ==> i == 0) :: Mentions(e.operands[i], path)
    {
    }
  }

  lemma LambdaMapped(e: Operand, mapper: Mapper, bound: set<string>)
    requires e.Expr? && e.operator.Lambda?
    ensures Mapped(e, mapper, bound) <==>
      LambdaComponents(e).Some? &&
      var parts := LambdaComponents(e).value;
      Mapped(parts.body, mapper, bound + set name | name in parts.variables)
  {
    hide LambdaComponents, Mentions, LambdasRead;
    LambdaMentions(e);
  }

  lemma LambdaMentions(e: Operand)
    requires e.Expr? && e.operator.Lambda?
    ensures LambdasRead(e) <==> LambdaComponents(e).Some? && LambdasRead(LambdaComponents(e).value.body)
    ensures forall path: Path :: Mentions(e, path) <==>
      var parts := LambdaComponents(e);
      parts.Some? && path[0] !in parts.value.variables && Mentions(parts.value.body, path)
  {
    hide IsLambda, LambdaComponents;
    forall body, names ensures IsLambda(e, body, names) <==> LambdaComponents(e) == Some(LambdaParts(body, names)) {
      LambdaRead(e, body, names);
    }
  }

  // ----- the whole translation -----

  /** What a conditional plan is refused for: by itself, by the mapper, or for lack of leave to filter after. */
  ghost predicate Unsupported(condition: Operand, mapper: Mapper, allowPostFilter: bool, omitted: bool, host: Host,
      safePattern: string -> bool)
  {
    HasList(condition) || (omitted && condition.Expr? && HasNull(condition)) ||
    (exists route :: OffendsAt(condition, route, None, host, safePattern)) ||
    !LambdasRead(condition) || (exists path: Path :: Mentions(condition, path) && mapper(path).None?) ||
    (!allowPostFilter && !EngineAnswers(condition, mapper, omitted))
  }

  /** The adapter refuses exactly the unsupported conditions, and never an unconditional plan. */
  lemma RefusedExactly(plan: PlanKind, mapper: Mapper, allowPostFilter: bool, omitted: bool, host: Host,
      safePattern: string -> bool)
    ensures QueryPlanToConvex(plan, mapper, allowPostFilter, omitted, host, safePattern).Refused? <==>
      plan.Conditional? && Unsupported(plan.condition, mapper, allowPostFilter, omitted, host, safePattern)
  {
    hide Offence, HasList, HasNull, Mentions, LambdasRead, EngineAnswers, CanPush, ValidateStructure,
      EveryReferenceMapped, NoListValuedCondition, NoNullComparisonOperands, Effective, OffendsAt;
    if plan.Conditional? {
      ListsRefused(plan.condition);
      NullsRefused(plan.condition);
      StructureRefused(plan.condition, None, host, safePattern);
      UnmappedRefused(plan.condition, mapper, {});
      PushesExactly(plan.condition, mapper, omitted);
    }
  }
}
