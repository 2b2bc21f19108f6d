/** The adapter's entry point: routing a validated plan to the engine, the evaluator, or both. */
module QueryPlans {
  import opened Wrappers
  import opened Cel
  import opened Plans
  import opened Evaluator
  import opened EvaluatorLaws
  import opened Pushdown
  import opened PushdownCorrect
  import opened Validate

  datatype PlanKind = AlwaysAllowed | AlwaysDenied | Conditional(condition: Operand)

  /** The halves of a conditional answer: what the engine filters on, and what the evaluator decides. */
  datatype Routed = Routed(filter: Option<Operand>, postFilter: Option<Operand>)

  datatype ConvexResult = Unconditional(allowed: bool) | Selective(mapper: Mapper, routed: Routed)

  function Conjunction(operands: seq<Operand>): Operand {
    if |operands| == 1 then operands[0] else Expr(And, operands)
  }

  /** The operands that can be pushed, or those that cannot, in order. */
  function Chosen(operands: seq<Operand>, mapper: Mapper, pushable: bool): seq<Operand> {
    if operands == [] then []
    else
      var rest := Chosen(operands[1..], mapper, pushable);
      if CanPush(operands[0], mapper) == pushable then [operands[0]] + rest else rest
  }

  function Route(e: Operand, mapper: Mapper): Routed {
    if CanPush(e, mapper) then Routed(Some(e), None)
    else if e.Expr? && e.operator.And? && |e.operands| > 1 &&
            Chosen(e.operands, mapper, true) != [] && Chosen(e.operands, mapper, false) != [] then
      Routed(Some(Conjunction(Chosen(e.operands, mapper, true))),
             Some(Conjunction(Chosen(e.operands, mapper, false))))
    else Routed(None, Some(e))
  }

  lemma {:induction false} ChosenAppend(operands: seq<Operand>, last: Operand, mapper: Mapper, pushable: bool)
    ensures Chosen(operands + [last], mapper, pushable) ==
      Chosen(operands, mapper, pushable) + if CanPush(last, mapper) == pushable then [last] else []
    decreases |operands|
  {
    var all := operands + [last];
    if operands == [] {
      assert all[1..] == [];
    } else {
      assert all[1..] == operands[1..] + [last];
      ChosenAppend(operands[1..], last, mapper, pushable);
    }
  }

  /** The source's routing, which sorts a root conjunction's operands with a loop. */
  method BuildFilters(e: Operand, mapper: Mapper) returns (r: Routed)
    ensures r == Route(e, mapper)
  {
    if CanPush(e, mapper) {
      return Routed(Some(e), None);
    }
    if e.Expr? && e.operator.And? && |e.operands| > 1 {
      var pushable, nonPushable := [], [];
      for i := 0 to |e.operands|
        invariant pushable == Chosen(e.operands[..i], mapper, true)
        invariant nonPushable == Chosen(e.operands[..i], mapper, false)
      {
        var operand := e.operands[i];
        assert e.operands[..i + 1] == e.operands[..i] + [operand];
        ChosenAppend(e.operands[..i], operand, mapper, true);
        ChosenAppend(e.operands[..i], operand, mapper, false);
        if CanPush(operand, mapper) {
          pushable := pushable + [operand];
        } else {
          nonPushable := nonPushable + [operand];
        }
      }
      assert e.operands[..|e.operands|] == e.operands;
      if |pushable| > 0 && |nonPushable| > 0 {
        return Routed(Some(Conjunction(pushable)), Some(Conjunction(nonPushable)));
      }
    }
    return Routed(None, Some(e));
  }

  /** The mapper as the convention reads it. */
  function Effective(mapper: Mapper, omitted: bool): Mapper {
    if omitted then WithOmittedNullDefault(mapper) else mapper
  }

  /** The whole translation; `Refused` where the source throws. */
  function QueryPlanToConvex(plan: PlanKind, mapper: Mapper, allowPostFilter: bool, omitted: bool, host: Host,
      safePattern: string -> bool): Translation<ConvexResult>
  {
    match plan
    case AlwaysAllowed => Done(Unconditional(true))
    case AlwaysDenied => Done(Unconditional(false))
    case Conditional(condition) =>
      if !NoListValuedCondition(condition) || (omitted && !NoNullComparisonOperands(condition)) ||
         !ValidateStructure(condition, None, host, safePattern) || !EveryReferenceMapped(condition, mapper, {}) then
        Refused
      else
        var effective := Effective(mapper, omitted);
        var routed := Route(condition, effective);
        if routed.postFilter.Some? && !allowPostFilter then Refused else Done(Selective(effective, routed))
  }

  /** Whether the caller, applying every filter it was given, keeps the document. */
  ghost predicate Selects(r: Routed, sc: Scope) {
    (r.filter.Some? ==>
      var f := Emit(r.filter.value, sc.mapper, false);
      f.Done? && Holds(f.result, sc.doc)) &&
    (r.postFilter.Some? ==> Evaluate(r.postFilter.value, sc) == OfBool(true))
  }

  // ----- what a plan and a document must meet -----

  ghost predicate JsonLiterals(e: Operand)
    decreases e
  {
    match e
    case Literal(v) => Json(v)
    case Variable(_) => true
    case Expr(_, args) => forall i | 0 <= i < |args| :: JsonLiterals(args[i])
  }

  /**
    In condition position a literal is a boolean, `not` has an operand, and a pushed bare reference
    under an odd number of `not`s reads a boolean.
   */
  ghost predicate BooleanPositions(e: Operand, sc: Scope, negated: bool)
    decreases e
  {
    match e
    case Literal(v) => v.Bool?
    case Variable(path) =>
      negated ==> FieldRead(path, sc).Ok? && FieldRead(path, sc).value.Bool?
    case Expr(op, args) =>
      (op.Not? ==> args != []) &&
      (op.And? || op.Or? || op.Not? ==>
        forall i | 0 <= i < |args| :: BooleanPositions(args[i], sc, if op.Not? then !negated else negated))
  }

  /** The same of what is pushed: the whole plan, or those operands of a root conjunction that can be. */
  ghost predicate PushedBooleans(e: Operand, sc: Scope) {
    if CanPush(e, sc.mapper) then BooleanPositions(e, sc, false)
    else
      e.Expr? && e.operator.And? ==>
        forall i | 0 <= i < |e.operands| && CanPush(e.operands[i], sc.mapper) ::
          BooleanPositions(e.operands[i], sc, false)
  }

  /** Every mapped field not declared nullable is present to CEL, and the document is JSON. */
  ghost predicate AdmissibleDocument(sc: Scope) {
    Json(sc.doc) &&
    forall path: Path | IsMappedReference(path, sc.mapper) && !IsNullableField(path, sc.mapper) :: Present(path, sc)
  }

  ghost predicate AdmissiblePlan(e: Operand, sc: Scope) {
    sc.bindings == map[] && JsonLiterals(e) &&
    EveryReferenceMapped(e, sc.mapper, {}) &&
    (sc.nullIsMissing ==> NoNullComparisonOperands(e))
  }

  lemma {:induction false} NestedJson(obj: Value, path: seq<string>)
    requires Json(obj)
    ensures Nested(obj, path).Ok? ==> Json(Nested(obj, path).value)
    decreases |path|
  {
    if path != [] && obj.Map? && path[0] in obj.entries {
      NestedJson(obj.entries[path[0]], path[1..]);
    }
  }

  lemma LeafOperands(op: Operator, args: seq<Operand>, sc: Scope)
    requires AdmissiblePlan(Expr(op, args), sc) && |args| >= 2 && !op.Lambda? && !op.GetField?
    ensures forall i | 0 <= i < 2 :: args[i].Literal? ==>
      Json(args[i].value) && (sc.nullIsMissing ==> !CarriesNullLiteral(args[i]))
    ensures forall i | 0 <= i < 2 :: args[i].Variable? ==> IsMappedReference(args[i].path, sc.mapper)
  {
    forall i | 0 <= i < 2
      ensures args[i].Literal? ==> Json(args[i].value) && (sc.nullIsMissing ==> !CarriesNullLiteral(args[i]))
      ensures args[i].Variable? ==> IsMappedReference(args[i].path, sc.mapper)
    {
      assert JsonLiterals(args[i]) && EveryReferenceMapped(args[i], sc.mapper, {});
    }
  }

  /** An admissible plan, where it can be pushed, is emitted and meets every leaf's condition. */
  lemma {:induction false} AdmissibleIsFaithful(e: Operand, sc: Scope, negated: bool)
    requires AdmissiblePlan(e, sc) && AdmissibleDocument(sc) && CanPush(e, sc.mapper)
    requires BooleanPositions(e, sc, negated)
    ensures Faithful(e, sc, negated) && Emit(e, sc.mapper, negated).Done?
    decreases e
  {
    match e
    case Literal(_) =>
    case Variable(_) =>
    case Expr(op, args) =>
      if op.Compare? || op.In? {
        LeafOperands(op, args, sc);
        var path := if args[0].Variable? then args[0].path else args[1].path;
        NestedJson(sc.doc, ResolveField(path, sc.mapper));
      } else {
        forall i | 0 <= i < |args|
          ensures Faithful(args[i], sc, if op.Not? then !negated else negated)
          ensures Emit(args[i], sc.mapper, if op.Not? then !negated else negated).Done?
        {
          var inner := if op.Not? then !negated else negated;
          assert BooleanPositions(args[i], sc, inner) && JsonLiterals(args[i]);
          AdmissibleIsFaithful(args[i], sc, inner);
        }
      }
  }

  // ----- the split -----

  /** A conjunction is true exactly when every operand is, whatever the others error or throw. */
  lemma {:induction false} AndIsTrue(outs: seq<Outcome>, sawError: bool)
    ensures Junction(false, outs, sawError) == OfBool(true) <==>
      !sawError && forall i | 0 <= i < |outs| :: outs[i] == OfBool(true)
    decreases |outs|
  {
    if outs != [] {
      AndIsTrue(outs[1..], true);
      AndIsTrue(outs[1..], sawError);
      assert forall i | 0 < i < |outs| :: outs[i] == outs[1..][i - 1];
    }
  }

  lemma ConjunctionIsTrue(operands: seq<Operand>, sc: Scope)
    ensures Evaluate(Conjunction(operands), sc) == OfBool(true) <==>
      forall i | 0 <= i < |operands| :: Evaluate(operands[i], sc) == OfBool(true)
  {
    JunctionStep(And, operands, sc);
    AndIsTrue(Outcomes(operands, sc), false);
  }

  /** The two halves together hold every operand, and each operand is in the half its test names. */
  lemma {:induction false} ChosenCover(operands: seq<Operand>, mapper: Mapper, pushable: bool)
    ensures forall x :: x in Chosen(operands, mapper, pushable) <==> x in operands && CanPush(x, mapper) == pushable
    decreases |operands|
  {
    if operands != [] {
      ChosenCover(operands[1..], mapper, pushable);
    }
  }

  lemma HalfIsAdmissible(operands: seq<Operand>, half: seq<Operand>, sc: Scope)
    requires AdmissiblePlan(Expr(And, operands), sc)
    requires half != [] && forall x :: x in half ==> x in operands
    requires forall x :: x in half ==> BooleanPositions(x, sc, false)
    ensures AdmissiblePlan(Conjunction(half), sc) && BooleanPositions(Conjunction(half), sc, false)
  {
    forall i | 0 <= i < |half|
      ensures AdmissiblePlan(half[i], sc) && BooleanPositions(half[i], sc, false)
      ensures sc.nullIsMissing ==> !CarriesNullLiteral(half[i])
    {
      assert half[i] in half;
      var k :| 0 <= k < |operands| && operands[k] == half[i];
      assert EveryReferenceMapped(operands[k], sc.mapper, {});
    }
  }

  /** A pushed admissible plan is answered by its filter alone. */
  lemma PushedIsSelected(e: Operand, sc: Scope)
    requires AdmissiblePlan(e, sc) && AdmissibleDocument(sc) && CanPush(e, sc.mapper)
    requires BooleanPositions(e, sc, false)
    ensures var f := Emit(e, sc.mapper, false);
      f.Done? && (Holds(f.result, sc.doc) <==> Evaluate(e, sc) == OfBool(true))
  {
    AdmissibleIsFaithful(e, sc, false);
    EmitCorrect(e, sc, false);
  }

  /** Every route selects exactly the documents on which CEL answers true. */
  lemma RouteCorrect(e: Operand, sc: Scope)
    requires AdmissiblePlan(e, sc) && AdmissibleDocument(sc) && PushedBooleans(e, sc)
    ensures Selects(Route(e, sc.mapper), sc) <==> Evaluate(e, sc) == OfBool(true)
  {
    if CanPush(e, sc.mapper) {
      PushedIsSelected(e, sc);
    } else if Route(e, sc.mapper).filter.Some? {
      ChosenCover(e.operands, sc.mapper, true);
      SplitCorrect(e.operands, sc);
    }
  }

  /** Narrowing with the pushable conjuncts and deciding with the rest is the whole conjunction. */
  lemma SplitCorrect(operands: seq<Operand>, sc: Scope)
    requires AdmissiblePlan(Expr(And, operands), sc) && AdmissibleDocument(sc)
    requires Chosen(operands, sc.mapper, true) != []
    requires forall x :: x in Chosen(operands, sc.mapper, true) ==> BooleanPositions(x, sc, false)
    ensures var pushable, rest := Chosen(operands, sc.mapper, true), Chosen(operands, sc.mapper, false);
      var f := Emit(Conjunction(pushable), sc.mapper, false);
      f.Done? &&
      (Holds(f.result, sc.doc) && Evaluate(Conjunction(rest), sc) == OfBool(true) <==>
       Evaluate(Expr(And, operands), sc) == OfBool(true))
  {
    hide Evaluate, Emit, AdmissiblePlan;
    var pushable, rest := Chosen(operands, sc.mapper, true), Chosen(operands, sc.mapper, false);
    ChosenCover(operands, sc.mapper, true);
    ChosenCover(operands, sc.mapper, false);
    HalfIsAdmissible(operands, pushable, sc);
    assert forall i | 0 <= i < |pushable| :: pushable[i] in pushable;
    assert CanPush(Conjunction(pushable), sc.mapper);
    PushedIsSelected(Conjunction(pushable), sc);
    ConjunctionIsTrue(pushable, sc);
    ConjunctionIsTrue(rest, sc);
    JunctionStep(And, operands, sc);
    AndIsTrue(Outcomes(operands, sc), false);
    SplitIsWhole(operands, pushable, rest, sc);
  }

  lemma SplitIsWhole(operands: seq<Operand>, pushable: seq<Operand>, rest: seq<Operand>, sc: Scope)
    requires forall x :: x in operands <==> x in pushable || x in rest
    ensures (forall i | 0 <= i < |operands| :: Evaluate(operands[i], sc) == OfBool(true)) <==>
      (forall i | 0 <= i < |pushable| :: Evaluate(pushable[i], sc) == OfBool(true)) &&
      (forall i | 0 <= i < |rest| :: Evaluate(rest[i], sc) == OfBool(true))
  {
    assert forall i | 0 <= i < |operands| :: operands[i] in operands;
    assert forall i | 0 <= i < |pushable| :: pushable[i] in operands;
    assert forall i | 0 <= i < |rest| :: rest[i] in operands;
  }

  // ----- what the caller declares -----

  /**
    Whether every document has a value for the entry: under the "omitted" convention only one
    declared `nullable: false`, under "explicit" every one not declared `nullable: true`.
   */
  predicate AlwaysSent(config: MapperConfig, omitted: bool) {
    if omitted then config.nullable == Some(false) else config.nullable != Some(true)
  }

  /** Whether a filter may test the reference: no entry of it may be without a value. */
  predicate MayFilter(path: Path, mapper: Mapper, omitted: bool) {
    mapper(path).None? || AlwaysSent(mapper(path).value, omitted)
  }

  function StoredAt(path: Path, config: MapperConfig): Path {
    if config.field.Some? then config.field.value else path
  }

  /** A document keeps the caller's promise: it is JSON, with a value for every entry that is always sent. */
  ghost predicate Promised(doc: Value, mapper: Mapper, omitted: bool) {
    Json(doc) &&
    forall path: Path | mapper(path).Some? && AlwaysSent(mapper(path).value, omitted) ::
      var read := Nested(doc, StoredAt(path, mapper(path).value));
      read.Ok? && (omitted ==> !read.value.Null?)
  }

  /** Whether one operand is a reference a filter may test and the other a constant. */
  predicate TestsOne(reference: Operand, constant: Operand, mapper: Mapper, omitted: bool) {
    reference.Variable? && constant.Literal? && MayFilter(reference.path, mapper, omitted)
  }

  /** The plans the engine answers: constants, references and tests of one, under `and`, `or` and `not`. */
  predicate EngineAnswers(e: Operand, mapper: Mapper, omitted: bool)
    decreases e
  {
    match e
    case Literal(_) => true
    case Variable(path) => MayFilter(path, mapper, omitted)
    case Expr(And, args) => forall i | 0 <= i < |args| :: EngineAnswers(args[i], mapper, omitted)
    case Expr(Or, args) => forall i | 0 <= i < |args| :: EngineAnswers(args[i], mapper, omitted)
    case Expr(Not, args) => forall i | 0 <= i < |args| :: EngineAnswers(args[i], mapper, omitted)
    case Expr(Compare(_), args) =>
      |args| >= 2 &&
      (TestsOne(args[0], args[1], mapper, omitted) || TestsOne(args[1], args[0], mapper, omitted))
    case Expr(In, args) =>
      |args| >= 2 && TestsOne(args[0], args[1], mapper, omitted) && args[1].value.List?
    case _ => false
  }

  /** What the convention makes of an entry: its field as declared, and nullable unless always sent. */
  lemma EffectiveEntry(path: Path, mapper: Mapper, omitted: bool)
    ensures Effective(mapper, omitted)(path).Some? <==> mapper(path).Some?
    ensures ResolveField(path, Effective(mapper, omitted)) ==
      if mapper(path).Some? then StoredAt(path, mapper(path).value) else path
    ensures IsNullableField(path, Effective(mapper, omitted)) <==> !MayFilter(path, mapper, omitted)
  {
  }

  /** What is pushed, by the caller's own mapper and the convention. */
  lemma {:induction false} PushesExactly(e: Operand, mapper: Mapper, omitted: bool)
    ensures CanPush(e, Effective(mapper, omitted)) <==> EngineAnswers(e, mapper, omitted)
    decreases e
  {
    hide Effective;
    match e
    case Literal(_) =>
    case Variable(path) => EffectiveEntry(path, mapper, omitted);
    case Expr(op, args) =>
      if op.Compare? || op.In? {
        forall path: Path ensures
          IsNullableField(path, Effective(mapper, omitted)) <==> !MayFilter(path, mapper, omitted)
        {
          EffectiveEntry(path, mapper, omitted);
        }
      } else {
        forall i | 0 <= i < |args|
          ensures CanPush(args[i], Effective(mapper, omitted)) <==> EngineAnswers(args[i], mapper, omitted)
        {
          PushesExactly(args[i], mapper, omitted);
        }
      }
  }

  /** The convention changes which fields may be pushed, never what a plan reads. */
  lemma OmittedDefaultReadsAlike(e: Operand, sc: Scope)
    ensures Evaluate(e, sc.(mapper := WithOmittedNullDefault(sc.mapper))) == Evaluate(e, sc)
  {
    Coincidence(e, sc.(mapper := WithOmittedNullDefault(sc.mapper)), sc);
  }

  // ----- end to end -----

  /** Whether the plan allows the document: always, never, or where CEL answers its condition with true. */
  ghost predicate Allows(plan: PlanKind, doc: Value, mapper: Mapper, omitted: bool, host: Host) {
    match plan
    case AlwaysAllowed => true
    case AlwaysDenied => false
    case Conditional(condition) => Evaluate(condition, Scope(doc, mapper, map[], omitted, host)) == OfBool(true)
  }

  /** Whether a caller that acts on the result keeps the document. */
  ghost predicate Keeps(result: ConvexResult, doc: Value, omitted: bool, host: Host) {
    match result
    case Unconditional(allowed) => allowed
    case Selective(mapper, routed) => Selects(routed, Scope(doc, mapper, map[], omitted, host))
  }

  /** The constants are JSON, and what is pushed has booleans where it is read as one. */
  ghost predicate ReadsBooleans(condition: Operand, sc: Scope) {
    JsonLiterals(condition) &&
    if EngineAnswers(condition, sc.mapper, sc.nullIsMissing) then BooleanPositions(condition, sc, false)
    else
      condition.Expr? && condition.operator.And? ==>
        forall i | 0 <= i < |condition.operands| &&
            EngineAnswers(condition.operands[i], sc.mapper, sc.nullIsMissing) ::
          BooleanPositions(condition.operands[i], sc, false)
  }

  /**
    End to end: whatever kind of plan, whatever path it takes and whichever null convention is in
    force, a caller keeps a document that meets its own declarations exactly when the plan allows it.
   */
  lemma EndToEnd(plan: PlanKind, mapper: Mapper, allowPostFilter: bool, omitted: bool, host: Host,
      safePattern: string -> bool, doc: Value)
    requires QueryPlanToConvex(plan, mapper, allowPostFilter, omitted, host, safePattern).Done?
    requires plan.Conditional? ==>
      Promised(doc, mapper, omitted) && ReadsBooleans(plan.condition, Scope(doc, mapper, map[], omitted, host))
    ensures Keeps(QueryPlanToConvex(plan, mapper, allowPostFilter, omitted, host, safePattern).result,
                  doc, omitted, host) <==>
      Allows(plan, doc, mapper, omitted, host)
  {
    if plan.Conditional? {
      var sc := Scope(doc, Effective(mapper, omitted), map[], omitted, host);
      PromiseIsAdmissible(doc, mapper, omitted, host);
      BooleansPushed(plan.condition, Scope(doc, mapper, map[], omitted, host));
      if omitted {
        OmittedDefaultReadsAlike(plan.condition, sc.(mapper := mapper));
        MappedUnderDefault(plan.condition, mapper, {});
      }
      RouteCorrect(plan.condition, sc);
    }
  }

  lemma PromiseIsAdmissible(doc: Value, mapper: Mapper, omitted: bool, host: Host)
    requires Promised(doc, mapper, omitted)
    ensures AdmissibleDocument(Scope(doc, Effective(mapper, omitted), map[], omitted, host))
  {
    var sc := Scope(doc, Effective(mapper, omitted), map[], omitted, host);
    forall path: Path | IsMappedReference(path, sc.mapper) && !IsNullableField(path, sc.mapper)
      ensures Present(path, sc)
    {
      EffectiveEntry(path, mapper, omitted);
      NestedJson(doc, ResolveField(path, sc.mapper));
    }
  }

  lemma BooleansPushed(condition: Operand, sc: Scope)
    requires ReadsBooleans(condition, sc)
    ensures PushedBooleans(condition, sc.(mapper := Effective(sc.mapper, sc.nullIsMissing)))
  {
    var effective := sc.(mapper := Effective(sc.mapper, sc.nullIsMissing));
    PushesExactly(condition, sc.mapper, sc.nullIsMissing);
    if EngineAnswers(condition, sc.mapper, sc.nullIsMissing) {
      BooleansAlike(condition, sc, false);
    } else if condition.Expr? && condition.operator.And? {
      forall i | 0 <= i < |condition.operands| && CanPush(condition.operands[i], effective.mapper)
        ensures BooleanPositions(condition.operands[i], effective, false)
      {
        PushesExactly(condition.operands[i], sc.mapper, sc.nullIsMissing);
        BooleansAlike(condition.operands[i], sc, false);
      }
    }
  }

  lemma {:induction false} BooleansAlike(e: Operand, sc: Scope, negated: bool)
    requires BooleanPositions(e, sc, negated)
    ensures BooleanPositions(e, sc.(mapper := Effective(sc.mapper, sc.nullIsMissing)), negated)
    decreases e
  {
    match e
    case Literal(_) =>
    case Variable(path) => EffectiveEntry(path, sc.mapper, sc.nullIsMissing);
    case Expr(op, args) =>
      if op.And? || op.Or? || op.Not? {
        forall i | 0 <= i < |args|
          ensures BooleanPositions(args[i], sc.(mapper := Effective(sc.mapper, sc.nullIsMissing)),
            if op.Not? then !negated else negated)
        {
          BooleansAlike(args[i], sc, if op.Not? then !negated else negated);
        }
      }
  }

  lemma {:induction false} MappedUnderDefault(e: Operand, mapper: Mapper, bound: set<string>)
    requires EveryReferenceMapped(e, mapper, bound)
    ensures EveryReferenceMapped(e, WithOmittedNullDefault(mapper), bound)
    decreases e
  {
    match e
    case Literal(_) =>
    case Variable(_) =>
    case Expr(op, args) =>
      if op.Lambda? {
        var parts := LambdaComponents(e).value;
        MappedUnderDefault(parts.body, mapper, bound + set name | name in parts.variables);
      } else {
        forall i | 0 <= i < |args| && (op.GetField? ==> i < 1)
          ensures EveryReferenceMapped(args[i], WithOmittedNullDefault(mapper), bound)
        {
          assert EveryReferenceMapped(args[i], mapper, bound);
          MappedUnderDefault(args[i], mapper, bound);
        }
      }
  }
}
