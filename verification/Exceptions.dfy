/** When evaluating a well-formed plan raises an exception, and what that does to monotonicity. */
module Exceptions {
  import opened Wrappers
  import opened Cel
  import opened Texts
  import opened Durations
  import opened DurationGrammar
  import opened Plans
  import opened Evaluator
  import opened EvaluatorLaws
  import opened Validate

  // ----- what is evaluated -----

  /** Whether the operator goes on to the next operand, or row, after this outcome. */
  predicate Passes(op: Operator, out: Outcome) {
    match op
    case And => out != OfBool(false)
    case Or => out != OfBool(true)
    case Quantify(Exists) => out != OfBool(true)
    case Quantify(All) => out != OfBool(false)
    case Quantify(ExistsOne) => true
    case Filter => AsBoolean(out).Ok?
    case _ => out.Ok?
  }

  /** Some outcome is an exception, and nothing before it ends the evaluation. */
  ghost predicate Interrupted(op: Operator, outs: seq<Outcome>) {
    exists i | 0 <= i < |outs| :: outs[i].Throw? && PassesTo(op, outs, i)
  }

  ghost predicate PassesTo(op: Operator, outs: seq<Outcome>, i: nat)
    requires i <= |outs|
  {
    forall j | 0 <= j < i :: Passes(op, outs[j])
  }

  lemma PassesOn(op: Operator, outs: seq<Outcome>, i: nat)
    requires 0 < i <= |outs|
    ensures PassesTo(op, outs, i) <==> Passes(op, outs[0]) && PassesTo(op, outs[1..], i - 1)
  {
    hide Passes;
    assert forall j | 1 <= j < i :: outs[j] == outs[1..][j - 1];
  }

  lemma InterruptedStep(op: Operator, outs: seq<Outcome>)
    requires outs != []
    ensures Interrupted(op, outs) <==> outs[0].Throw? || (Passes(op, outs[0]) && Interrupted(op, outs[1..]))
  {
    hide Passes, PassesTo;
    var rest := outs[1..];
    PassesToFirst(op, outs);
    if Interrupted(op, outs) {
      var i :| 0 <= i < |outs| && outs[i].Throw? && PassesTo(op, outs, i);
      if i > 0 {
        PassesOn(op, outs, i);
        assert rest[i - 1].Throw?;
      }
    }
    if Passes(op, outs[0]) && Interrupted(op, rest) {
      var i :| 0 <= i < |rest| && rest[i].Throw? && PassesTo(op, rest, i);
      PassesOn(op, outs, i + 1);
      assert outs[i + 1].Throw?;
    }
  }

  lemma PassesToFirst(op: Operator, outs: seq<Outcome>)
    ensures PassesTo(op, outs, 0)
  {
  }

  // ----- the combining operators -----

  lemma {:induction false} JunctionThrows(op: Operator, outs: seq<Outcome>, sawError: bool)
    requires op.And? || op.Or?
    ensures Junction(op.Or?, outs, sawError).Throw? <==> Interrupted(op, outs)
    decreases |outs|
  {
    if outs != [] {
      InterruptedStep(op, outs);
      JunctionThrows(op, outs[1..], true);
      JunctionThrows(op, outs[1..], sawError);
    }
  }

  lemma {:induction false} QuantifierThrows(q: Quantifier, outs: seq<Outcome>, trueCount: nat, sawError: bool)
    ensures QuantifierResult(q, outs, trueCount, sawError).Throw? <==> Interrupted(Quantify(q), outs)
    decreases |outs|
  {
    if outs != [] {
      InterruptedStep(Quantify(q), outs);
      QuantifierThrows(q, outs[1..], trueCount, true);
      QuantifierThrows(q, outs[1..], trueCount, sawError);
      QuantifierThrows(q, outs[1..], trueCount + 1, sawError);
    }
  }

  lemma {:induction false} CollectThrows(op: Operator, outs: seq<Outcome>, elements: seq<Value>)
    requires op.ListOf? || op.MapEach?
    ensures Collect(outs, elements).Throw? <==> Interrupted(op, outs)
    decreases |outs|
  {
    if outs != [] {
      InterruptedStep(op, outs);
      if outs[0].Ok? {
        CollectThrows(op, outs[1..], elements + [outs[0].value]);
      }
    }
  }

  lemma {:induction false} FilterThrows(items: seq<Value>, outs: seq<Outcome>, filtered: seq<Value>)
    requires |items| == |outs|
    ensures FilterResult(items, outs, filtered).Throw? <==> Interrupted(Filter, outs)
    decreases |outs|
  {
    if outs != [] {
      InterruptedStep(Filter, outs);
      FilterThrows(items[1..], outs[1..], filtered);
      FilterThrows(items[1..], outs[1..], filtered + [items[0]]);
    }
  }

  /** How many entries a map literal evaluates at most: up to and including the first repeated key. */
  function Distinct(entryKeys: seq<Option<string>>, seen: set<string>): (n: nat)
    ensures n <= |entryKeys|
  {
    if entryKeys == [] then 0
    else if entryKeys[0].None? || entryKeys[0].value in seen then 1
    else 1 + Distinct(entryKeys[1..], seen + {entryKeys[0].value})
  }

  lemma {:induction false} EntriesThrow(entryKeys: seq<Option<string>>, outs: seq<Outcome>, keys: seq<string>,
      entries: Bindings)
    requires |entryKeys| == |outs| && None !in entryKeys
    ensures Entries(entryKeys, outs, keys, entries).Throw? <==>
      Interrupted(Struct, outs[..Distinct(entryKeys, entries.Keys)])
    decreases |outs|
  {
    if outs != [] {
      var visited := outs[..Distinct(entryKeys, entries.Keys)];
      assert visited[0] == outs[0];
      InterruptedStep(Struct, visited);
      var key := entryKeys[0].value;
      if key in entries {
        assert visited[1..] == [];
      } else if outs[0].Ok? {
        var next := entries[key := outs[0].value];
        assert next.Keys == entries.Keys + {key};
        EntriesThrow(entryKeys[1..], outs[1..], keys + [key], next);
        assert visited[1..] == outs[1..][..Distinct(entryKeys[1..], next.Keys)];
      }
    }
  }

  /** Whether an operator that is no macro evaluates its `i`th operand, given the outcomes of the others. */
  ghost predicate Visits(op: Operator, args: seq<Operand>, outs: seq<Outcome>, i: nat)
    requires i < |outs|
  {
    match op
    case And => PassesTo(op, outs, i)
    case Or => PassesTo(op, outs, i)
    case ListOf => PassesTo(op, outs, i)
    case Struct => i < Distinct(EntryKeys(args), {}) && PassesTo(op, outs, i)
    case If => i == 0 || (AsBoolean(outs[0]).Ok? && i == if outs[0] == OfBool(true) then 1 else 2)
    case _ => i < Arity(op, |args|)
  }

  /** `/` over a non-zero double and a zero that no document field supplied, whose sign is not known. */
  predicate DividesByUnsignedZero(form: Form, a: Value, b: Value) {
    form.ArithmeticForm? && !form.temporal && !form.isInt && !form.mixed && !form.documentDivisor &&
    a.Num? && b.Num? && !a.n.IsZero() && b.n.IsZero()
  }

  /** The two operators that raise an exception themselves: `duration()` and `/`. */
  predicate RaisesItself(op: Operator, form: Form, settings: Settings, outs: seq<Outcome>) {
    (op.ToDuration? && outs != [] && outs[0].Ok? && Raises(outs[0].value, settings)) ||
    (op == Arith(Div) && |outs| >= 2 && outs[0].Ok? && outs[1].Ok? &&
     DividesByUnsignedZero(form, outs[0].value, outs[1].value))
  }

  /** An exception comes from an evaluated operand, or from the operator itself. */
  ghost predicate Excepts(op: Operator, args: seq<Operand>, form: Form, settings: Settings, outs: seq<Outcome>) {
    (exists i | 0 <= i < |outs| :: outs[i].Throw? && Visits(op, args, outs, i)) ||
    RaisesItself(op, form, settings, outs)
  }

  lemma DivisionThrows(form: Form, settings: Settings, a: Value, b: Value)
    ensures ApplyTwo(Arith(Div), form, settings, a, b).Throw? <==> DividesByUnsignedZero(form, a, b)
  {
  }

  lemma StrictThrows(op: Operator, args: seq<Operand>, form: Form, settings: Settings, outs: seq<Outcome>)
    requires StrictOperator(op) && |outs| == |Evaluated(op, args)|
    requires |outs| >= Arity(op, |args|)
    ensures StrictResult(op, |args|, form, settings, outs).Throw? <==> Excepts(op, args, form, settings, outs)
  {
    hide ApplyOne, ApplyTwo, Raises, Visits, Arity, Evaluated, DividesByUnsignedZero;
    forall i | 0 <= i < |outs| ensures Visits(op, args, outs, i) <==> i < Arity(op, |args|) {
      StrictVisits(op, args, outs, i);
    }
    OneOperandRaises(op, |args|);
    if op == Arith(Div) && outs[0].Ok? && outs[1].Ok? {
      DivisionThrows(form, settings, outs[0].value, outs[1].value);
    }
  }

  lemma StrictVisits(op: Operator, args: seq<Operand>, outs: seq<Outcome>, i: nat)
    requires StrictOperator(op) && i < |outs|
    ensures Visits(op, args, outs, i) <==> i < Arity(op, |args|)
  {
    hide PassesTo, Distinct;
  }

  lemma OneOperandRaises(op: Operator, count: nat)
    ensures op.ToDuration? ==> Arity(op, count) == 1
    ensures op == Arith(Div) ==> Arity(op, count) == 2
  {
  }

  lemma ConditionalThrows(args: seq<Operand>, form: Form, settings: Settings, outs: seq<Outcome>)
    requires |outs| == 3
    ensures Conditional(outs).Throw? <==> Excepts(If, args, form, settings, outs)
  {
    assert outs[0].Throw? ==> Visits(If, args, outs, 0);
    if AsBoolean(outs[0]).Ok? {
      var branch := if outs[0] == OfBool(true) then 1 else 2;
      assert Visits(If, args, outs, branch);
    }
  }

  lemma CombineThrows(op: Operator, args: seq<Operand>, form: Form, settings: Settings, outs: seq<Outcome>)
    requires !op.Macro() && |outs| == |Evaluated(op, args)|
    requires WellFormed(Expr(op, args))
    ensures Combine(op, args, form, settings, outs).Throw? <==> Excepts(op, args, form, settings, outs)
  {
    hide StrictResult, Junction, Collect, Entries, Conditional, Raises, Passes;
    if op.And? || op.Or? {
      JunctionThrows(op, outs, false);
    } else if op.ListOf? {
      CollectThrows(op, outs, []);
    } else if op.Struct? {
      StructThrows(args, form, settings, outs);
    } else if op.If? {
      ConditionalThrows(args, form, settings, outs);
    } else {
      StrictThrows(op, args, form, settings, outs);
    }
  }

  lemma StructThrows(args: seq<Operand>, form: Form, settings: Settings, outs: seq<Outcome>)
    requires |outs| == |args| && forall i | 0 <= i < |args| :: IsEntry(args[i])
    ensures Entries(EntryKeys(args), outs, [], map[]).Throw? <==> Excepts(Struct, args, form, settings, outs)
  {
    hide Entries, Passes, IsEntry;
    var n := Distinct(EntryKeys(args), {});
    var visited := outs[..n];
    EntriesThrow(EntryKeys(args), outs, [], map[]);
    var none: Bindings := map[];
    assert none.Keys == {};
    assert forall i | 0 <= i < n ::
      visited[i] == outs[i] && (PassesTo(Struct, visited, i) <==> PassesTo(Struct, outs, i));
  }

  lemma MacroThrows(op: Operator, rows: seq<seq<Value>>, outs: seq<Outcome>)
    requires op.Macro() && |rows| == |outs|
    requires forall i | 0 <= i < |rows| :: rows[i] != []
    ensures MacroResult(op, rows, outs).Throw? <==> Interrupted(op, outs)
  {
    if op.Quantify? {
      QuantifierThrows(op.quantifier, outs, 0, false);
    } else if op.Filter? {
      FilterThrows(seq(|rows|, i requires 0 <= i < |rows| => rows[i][0]), outs, []);
    } else {
      CollectThrows(op, outs, []);
    }
  }

  // ----- whole plans -----

  /**
    Evaluation reaches a `duration()` whose string meets an inherited unit name, or a `/` whose zero divisor
    has no known sign.
   */
  ghost predicate Reaches(e: Operand, sc: Scope)
    decreases e
  {
    e.Expr? &&
    var op, args := e.operator, e.operands;
    var operands := Evaluated(op, args);
    var outs := Outcomes(operands, sc);
    if !op.Macro() then
      (exists i | 0 <= i < |operands| :: Visits(op, args, outs, i) && Reaches(operands[i], sc)) ||
      RaisesItself(op, FormOf(op, args, sc.bindings.Keys), sc.Env(), outs)
    else
      (operands != [] && Reaches(operands[0], sc)) ||
      match StartMacro(op, args, outs)
      case Decided(_) => false
      case Iterate(lambda, rows) =>
        exists i | 0 <= i < |rows| ::
          PassesTo(op, BodyOutcomes(lambda, rows, sc), i) && Reaches(lambda.body, Bind(sc, lambda.variables, rows[i]))
  }

  /** A well-formed plan raises an exception exactly where evaluation reaches such a string or such a zero. */
  lemma {:induction false} ThrowsExactly(e: Operand, sc: Scope)
    requires WellFormed(e)
    ensures Evaluate(e, sc).Throw? <==> Reaches(e, sc)
    decreases e
  {
    hide Combine, MacroResult, FormOf, RaisesItself, Visits;
    match e
    case Literal(_) =>
    case Variable(_) =>
    case Expr(op, args) =>
      var operands := Evaluated(op, args);
      var outs := Outcomes(operands, sc);
      EvaluateStep(op, args, sc);
      forall i | 0 <= i < |operands| ensures outs[i].Throw? <==> Reaches(operands[i], sc) {
        ThrowsExactly(operands[i], sc);
      }
      if !op.Macro() {
        CombineThrows(op, args, FormOf(op, args, sc.bindings.Keys), sc.Env(), outs);
      } else if StartMacro(op, args, outs).Iterate? {
        var Iterate(lambda, rows) := StartMacro(op, args, outs);
        var bodies := BodyOutcomes(lambda, rows, sc);
        forall i | 0 <= i < |rows|
          ensures bodies[i].Throw? <==> Reaches(lambda.body, Bind(sc, lambda.variables, rows[i]))
        {
          ThrowsExactly(lambda.body, Bind(sc, lambda.variables, rows[i]));
        }
        MacroThrows(op, rows, bodies);
      }
  }

  /** So an added attribute changes an answer exactly where it lets evaluation reach one of them. */
  lemma MonotoneExactly(e: Operand, sc: Scope, more: Value)
    requires WellFormed(e) && Extends(more, sc.doc, sc)
    ensures Evaluate(e, sc).Ok? ==>
      (Evaluate(e, sc.(doc := more)) == Evaluate(e, sc) <==> !Reaches(e, sc.(doc := more)))
  {
    hide Evaluate, Reaches;
    Monotone(e, sc, more);
    ThrowsExactly(e, sc.(doc := more));
  }

  /** The same of a plan that passed validation, given the operand counts and lambda placement of the planner. */
  lemma ValidatedThrows(e: Operand, sc: Scope, safePattern: string -> bool)
    requires ValidateStructure(e, None, sc.host, safePattern) && PlannerShaped(e)
    ensures Evaluate(e, sc).Throw? <==> Reaches(e, sc)
  {
    hide Evaluate, Reaches, ValidateStructure, PlannerShaped;
    ValidatedIsWellFormed(e, None, sc.host, safePattern);
    ThrowsExactly(e, sc);
  }

  // ----- an attribute that raises -----

  /** `1toString`: a number, and the name of a method every object inherits. */
  const TRAP: string := "1toString"

  lemma TrapRaises(step: FractionStep)
    ensures ParseDuration(TRAP, step) == Raised
  {
    var t := Term("1", false, "", "toString");
    TrapIsTrap(t);
    assert Text(t) + [] == TRAP;
    assert IsTrapBefore(TRAP, t, []);
    assert Spell([]) + TRAP == TRAP;
    assert TrappedAfter(Body(TRAP), [], TRAP, step);
    RaisesExactly(TRAP, step);
  }

  lemma TrapIsTrap(t: Term)
    requires t == Term("1", false, "", "toString")
    ensures IsTrap(t)
  {
    assert OBJECT_PROTOTYPE[1] == t.unit;
    assert t.whole[..0] == "";
    assert NatValue(t.whole) == 1;
  }

  lemma HourIsRead(step: FractionStep)
    ensures !ParseDuration("1h", step).Raised?
  {
    var t := Term("1", false, "", "h");
    assert Text(t) == "1h" && Spell([t]) == Text(t) + Spell([t][1..]);
    assert Body("1h") == Spell([t]);
    SpelledDuration("1h", [t], step);
  }

  /** `duration(d) == duration("1h")` */
  function Stored(): Operand {
    Expr(Compare(Eq), [Expr(ToDuration, [Variable(["d"])]), Expr(ToDuration, [Literal(Str("1h"))])])
  }

  function OrTrue(x: Operand): Operand {
    Expr(Or, [x, Literal(Bool(true))])
  }

  lemma PlanIsWellFormed()
    ensures WellFormed(OrTrue(Stored()))
  {
    hide DivisionFree;
    assert WellFormed(Stored().operands[0]) && WellFormed(Stored().operands[1]);
    assert WellFormed(Stored());
  }

  lemma PlanIsDivisionFree()
    ensures DivisionFree(OrTrue(Stored()))
  {
    hide WellFormed;
    var d, hour := Variable(["d"]), Literal(Str("1h"));
    UnaryIsFree(d);
    UnaryIsFree(hour);
    PairIsFree(Compare(Eq), Expr(ToDuration, [d]), Expr(ToDuration, [hour]));
    PairIsFree(Or, Stored(), Literal(Bool(true)));
  }

  lemma UnaryIsFree(x: Operand)
    requires DivisionFree(x)
    ensures DivisionFree(Expr(ToDuration, [x]))
  {
  }

  lemma PairIsFree(op: Operator, x: Operand, y: Operand)
    requires (op.Compare? || op.Or?) && DivisionFree(x) && DivisionFree(y)
    ensures DivisionFree(Expr(op, [x, y]))
  {
  }

  lemma OrTrueEvaluates(x: Operand, sc: Scope)
    ensures Evaluate(OrTrue(x), sc) == if Evaluate(x, sc).Throw? then Throw else OfBool(true)
  {
    hide Evaluate;
    var args := [x, Literal(Bool(true))];
    EvaluateStep(Or, args, sc);
    var outs := Outcomes(args, sc);
    TrueEvaluates(sc);
    assert outs == [Evaluate(x, sc), OfBool(true)];
    DecidesLast(Evaluate(x, sc));
  }

  lemma DecidesLast(o: Outcome)
    ensures Junction(true, [o, OfBool(true)], false) == if o.Throw? then Throw else OfBool(true)
  {
    assert [o, OfBool(true)][1..] == [OfBool(true)];
    assert Junction(true, [OfBool(true)], true) == Junction(true, [OfBool(true)], false) == OfBool(true);
  }

  lemma TrueEvaluates(sc: Scope)
    ensures Evaluate(Literal(Bool(true)), sc) == OfBool(true)
  {
  }

  lemma StoredEvaluates(sc: Scope)
    requires sc.bindings == map[] && !Raises(Str("1h"), sc.Env())
    ensures var read := LookUp(["d"], sc);
      Evaluate(Stored(), sc).Throw? <==> read.Throw? || (read.Ok? && Raises(read.value, sc.Env()))
  {
    hide Raises, Evaluate, ApplyTwo;
    var d, hour := Variable(["d"]), Literal(Str("1h"));
    LeavesEvaluate(sc);
    DurationThrows(d, sc);
    DurationThrows(hour, sc);
    BinaryStep(Compare(Eq), Expr(ToDuration, [d]), Expr(ToDuration, [hour]), sc);
  }

  lemma LeavesEvaluate(sc: Scope)
    ensures Evaluate(Variable(["d"]), sc) == LookUp(["d"], sc) && Evaluate(Literal(Str("1h")), sc) == Ok(Str("1h"))
  {
  }

  lemma DurationThrows(x: Operand, sc: Scope)
    ensures var read := Evaluate(x, sc);
      Evaluate(Expr(ToDuration, [x]), sc).Throw? <==> read.Throw? || (read.Ok? && Raises(read.value, sc.Env()))
  {
    hide Raises, Evaluate, ApplyOne;
    UnaryStep(ToDuration, x, sc);
  }

  function Storing(entries: map<string, Value>, host: Host): Scope {
    Scope(Map(if "d" in entries then ["d"] else [], entries), path => None, map[], false, host)
  }

  /** The plan is true while `d` is missing; storing the string makes evaluation raise an exception. */
  lemma AddedAttributeThrows(host: Host)
    ensures WellFormed(OrTrue(Stored())) && DivisionFree(OrTrue(Stored()))
    ensures Evaluate(OrTrue(Stored()), Storing(map[], host)) == OfBool(true)
    ensures Evaluate(OrTrue(Stored()), Storing(map["d" := Str(TRAP)], host)) == Throw
  {
    hide Evaluate, ParseDuration, WellFormed, DivisionFree, OrTrue, Stored;
    PlanIsWellFormed();
    PlanIsDivisionFree();
    TrapRaises(host.fractionStep);
    HourIsRead(host.fractionStep);
    var before, after := Storing(map[], host), Storing(map["d" := Str(TRAP)], host);
    StoredEvaluates(before);
    StoredEvaluates(after);
    OrTrueEvaluates(Stored(), before);
    OrTrueEvaluates(Stored(), after);
  }
}
