/** The refusals made before any filter exists, and what an accepted plan may then rely on. */
module Validate {
  import opened Wrappers
  import opened Cel
  import opened Plans
  import opened Evaluator
  import opened EvaluatorLaws

  // ----- structure -----

  /** Whether `string()` over the operand could render a constant whose int or double type is lost. */
  predicate RendersUntypedConstant(operand: Operand, fixed: Option<NumericType>, host: Host)
    decreases operand
  {
    match operand
    case Literal(v) =>
      fixed.None? && v.Num? && v.n.IsInteger() && ConvertToString(v, true, host) != ConvertToString(v, false, host)
    case Variable(_) => false
    case Expr(op, args) =>
      op.If? &&
      var branchType := if fixed.Some? then fixed else NumericTypeOf(operand);
      exists i | 1 <= i < |args| :: RendersUntypedConstant(args[i], branchType, host)
  }

  predicate IsZeroLiteral(operand: Operand) {
    operand.Literal? && operand.value.Num? && operand.value.n.IsZero()
  }

  /** The operator's own translation-time check. `safePattern` is the supported regex subset. */
  predicate OperatorAccepts(op: Operator, args: seq<Operand>, host: Host, safePattern: string -> bool) {
    match op
    case Arith(Div) =>
      !(|args| > 1 && args[1].Expr? && args[1].operator == Arith(Div)) &&
      !(|args| > 1 && IsZeroLiteral(args[1]) && !IsZeroLiteral(args[0]))
    case Arith(Mod) =>
      forall i | 0 <= i < |args| ::
        args[i].Variable? || IsIntegerLiteral(args[i]) || IsIntExpression(args[i])
    case ToString => args == [] || !RendersUntypedConstant(args[0], None, host)
    case Matches => |args| > 1 && args[1].Literal? && args[1].value.Str? && safePattern(args[1].value.s)
    case Struct => forall i | 0 <= i < |args| :: IsEntry(args[i])
    case _ => op.Macro() ==> |args| > 1 && LambdaHolds(op, args[1])
  }

  /** Every node uses a known operator and passes that operator's check. */
  predicate ValidateStructure(e: Operand, parent: Option<Operator>, host: Host, safePattern: string -> bool)
    decreases e
  {
    match e
    case Literal(_) => true
    case Variable(_) => true
    case Expr(op, args) =>
      !op.Unlisted? && (op.SetField? ==> parent == Some(Struct)) &&
      OperatorAccepts(op, args, host, safePattern) &&
      forall i | 0 <= i < |args| :: ValidateStructure(args[i], Some(op), host, safePattern)
  }

  /** What the structural check leaves to the planner: operand counts, and lambdas under macros only. */
  predicate PlannerShaped(e: Operand)
    decreases e
  {
    match e
    case Literal(_) => true
    case Variable(_) => true
    case Expr(op, args) =>
      var operands := Evaluated(op, args);
      !op.Lambda? && !op.SetField? && ArityHolds(op, |args|) &&
      (op.Macro() && LambdaComponents(args[1]).Some? ==> PlannerShaped(LambdaComponents(args[1]).value.body)) &&
      forall i | 0 <= i < |operands| :: PlannerShaped(operands[i])
  }

  /** A validated plan of the planner's shape is well formed, so it is safe to evaluate. */
  lemma {:induction false} ValidatedIsWellFormed(e: Operand, parent: Option<Operator>, host: Host,
      safePattern: string -> bool)
    requires ValidateStructure(e, parent, host, safePattern) && PlannerShaped(e)
    ensures WellFormed(e)
    decreases e
  {
    match e
    case Literal(_) =>
    case Variable(_) =>
    case Expr(op, args) =>
      var operands := Evaluated(op, args);
      forall i | 0 <= i < |operands| ensures WellFormed(operands[i]) {
        if op.Struct? {
          assert ValidateStructure(args[i], Some(op), host, safePattern);
          ValidatedIsWellFormed(operands[i], Some(SetField), host, safePattern);
        } else {
          assert operands[i] == args[i];
          ValidatedIsWellFormed(operands[i], Some(op), host, safePattern);
        }
      }
      if op.Macro() {
        var body := LambdaComponents(args[1]).value.body;
        assert ValidateStructure(args[1], Some(op), host, safePattern);
        ValidatedIsWellFormed(body, Some(Lambda), host, safePattern);
      }
  }

  /** `filter()` and `map()` never stand where a boolean is read. */
  predicate NoListValuedCondition(e: Operand)
    decreases e
  {
    e.Expr? ==>
      !e.operator.Filter? && !e.operator.MapEach? &&
      (e.operator.And? || e.operator.Or? || e.operator.Not? ==>
        forall i | 0 <= i < |e.operands| :: NoListValuedCondition(e.operands[i]))
  }

  predicate CarriesNullLiteral(e: Operand) {
    e.Literal? && (e.value.Null? || (e.value.List? && Null in e.value.items))
  }

  predicate NoNullComparisonOperands(e: Operand)
    decreases e
  {
    e.Expr? ==>
      forall i | 0 <= i < |e.operands| ::
        !CarriesNullLiteral(e.operands[i]) && NoNullComparisonOperands(e.operands[i])
  }

  // ----- references -----

  /** Every reference outside the lambdas that bind its root has a mapper entry. */
  predicate EveryReferenceMapped(e: Operand, mapper: Mapper, bound: set<string>)
    decreases e
  {
    match e
    case Literal(_) => true
    case Variable(path) => path[0] in bound || IsMappedReference(path, mapper)
    case Expr(op, args) =>
      if op.Lambda? then
        var parts := LambdaComponents(e);
        parts.Some? &&
        EveryReferenceMapped(parts.value.body, mapper, bound + set name | name in parts.value.variables)
      else
        forall i | 0 <= i < |args| && (op.GetField? ==> i < 1) :: EveryReferenceMapped(args[i], mapper, bound)
  }

  /** The check sees every free reference: an unbound one is mapped. */
  lemma {:induction false} FreeReferencesMapped(path: Path, e: Operand, mapper: Mapper, bound: set<string>)
    requires EveryReferenceMapped(e, mapper, bound) && Free(path, e)
    ensures path[0] in bound || IsMappedReference(path, mapper)
    decreases e
  {
    match e
    case Literal(_) =>
    case Variable(_) =>
    case Expr(op, args) =>
      var operands := Evaluated(op, args);
      if i :| 0 <= i < |operands| && Free(path, operands[i]) {
        assert op.Lambda? ==> operands == [];
        assert EveryReferenceMapped(args[i], mapper, bound);
        FreeReferencesMapped(path, operands[i], mapper, bound);
      } else {
        var lambda := LambdaComponents(args[1]).value;
        assert EveryReferenceMapped(args[1], mapper, bound);
        FreeReferencesMapped(path, lambda.body, mapper, bound + set name | name in lambda.variables);
      }
  }

  /** A checked plan reads a document only through the mapped paths of its free references. */
  lemma DocumentsAgree(e: Operand, sc: Scope, other: Value)
    requires EveryReferenceMapped(e, sc.mapper, sc.bindings.Keys)
    requires forall path: Path | Free(path, e) && IsMappedReference(path, sc.mapper) ::
      Nested(other, ResolveField(path, sc.mapper)) == Nested(sc.doc, ResolveField(path, sc.mapper))
    ensures Evaluate(e, sc.(doc := other)) == Evaluate(e, sc)
  {
    var b := sc.(doc := other);
    forall path: Path | Free(path, e) ensures ReadsAlike(path, b, sc) {
      FreeReferencesMapped(path, e, sc.mapper, sc.bindings.Keys);
    }
    Coincidence(e, b, sc);
  }

  /** Binding a name that roots no free reference of the plan changes nothing. */
  lemma FreshBinding(e: Operand, sc: Scope, name: string, v: Value)
    requires forall path: Path | Free(path, e) :: path[0] != name
    ensures Evaluate(e, sc.(bindings := sc.bindings[name := v])) == Evaluate(e, sc)
  {
    Coincidence(e, sc.(bindings := sc.bindings[name := v]), sc);
  }
}
