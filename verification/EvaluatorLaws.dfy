/** Laws of the evaluator over every plan: well-formedness, monotonicity and scope safety. */
module EvaluatorLaws {
  import opened Wrappers
  import opened Cel
  import opened Plans
  import opened Evaluator

  // ----- well-formed plans -----

  predicate ArityHolds(op: Operator, count: nat) {
    match op
    case And => true
    case Or => true
    case ListOf => true
    case Struct => true
    case If => count == 3
    case GetField => count == 2
    case ToHierarchy => 1 <= count <= 2
    case _ => if op.Macro() then count == 2 else count == Arity(op, count)
  }

  /** A lambda a macro can apply: one variable, or two under a quantifier. */
  predicate LambdaHolds(op: Operator, lambda: Operand) {
    var parts := LambdaComponents(lambda);
    parts.Some? && (!op.Quantify? ==> |parts.value.variables| == 1)
  }

  /** Every node has its operator's operands, and lambdas stand only under macros. */
  predicate WellFormed(e: Operand)
    decreases e
  {
    match e
    case Literal(_) => true
    case Variable(_) => true
    case Expr(op, args) =>
      var operands := Evaluated(op, args);
      !op.Lambda? && !op.SetField? && !op.Unlisted? && ArityHolds(op, |args|) &&
      (op.Struct? ==> forall i | 0 <= i < |args| :: IsEntry(args[i])) &&
      (op.Macro() ==> LambdaHolds(op, args[1]) && WellFormed(LambdaComponents(args[1]).value.body)) &&
      forall i | 0 <= i < |operands| :: WellFormed(operands[i])
  }

  /** Whether no `/` occurs: its zero-divisor backstop raises an exception. */
  predicate DivisionFree(e: Operand)
    decreases e
  {
    match e
    case Literal(_) => true
    case Variable(_) => true
    case Expr(op, args) =>
      var operands := Evaluated(op, args);
      op != Arith(Div) &&
      (op.Macro() && |args| >= 2 && LambdaComponents(args[1]).Some? ==>
        DivisionFree(LambdaComponents(args[1]).value.body)) &&
      forall i | 0 <= i < |operands| :: DivisionFree(operands[i])
  }

  ghost predicate Quiet(outs: seq<Outcome>) {
    forall i | 0 <= i < |outs| :: !outs[i].Throw?
  }

  lemma {:induction false} JunctionQuiet(decisive: bool, outs: seq<Outcome>, sawError: bool)
    requires Quiet(outs)
    ensures !Junction(decisive, outs, sawError).Throw?
    decreases |outs|
  {
    if outs != [] {
      JunctionQuiet(decisive, outs[1..], true);
      JunctionQuiet(decisive, outs[1..], sawError);
    }
  }

  // ----- strict operators, one step at a time -----

  /** A one-operand strict operator, given its operand's outcome. */
  lemma UnaryStep(op: Operator, x: Operand, sc: Scope)
    requires StrictOperator(op) && Arity(op, 1) == 1 && !op.GetField?
    ensures var a := Evaluate(x, sc);
      Evaluate(Expr(op, [x]), sc) ==
      if a.Ok? then ApplyOne(op, FormOf(op, [x], sc.bindings.Keys), sc.Env(), a.value) else a
  {
    hide Evaluate, ApplyOne, FormOf;
    EvaluateStep(op, [x], sc);
    assert Evaluated(op, [x]) == [x];
  }

  /** A two-operand strict operator, given its operands' outcomes. */
  lemma BinaryStep(op: Operator, x: Operand, y: Operand, sc: Scope)
    requires StrictOperator(op) && Arity(op, 2) == 2
    ensures var a, b := Evaluate(x, sc), Evaluate(y, sc);
      Evaluate(Expr(op, [x, y]), sc) ==
      if a.Throw? || b.Throw? then Throw
      else if a.Err? || b.Err? then Err
      else ApplyTwo(op, FormOf(op, [x, y], sc.bindings.Keys), sc.Env(), a.value, b.value)
  {
    hide Evaluate, ApplyTwo, FormOf;
    EvaluateStep(op, [x, y], sc);
    assert Evaluated(op, [x, y]) == [x, y];
  }

  // ----- monotonicity: more attributes never change an answer -----

  /** Everything a plan could read from `doc` reads the same from `more`. */
  ghost predicate Extends(more: Value, doc: Value, sc: Scope) {
    forall path: Path ::
      var read := ReadPath(Nested(doc, ResolveField(path, sc.mapper)), sc.nullIsMissing);
      read.Ok? ==> ReadPath(Nested(more, ResolveField(path, sc.mapper)), sc.nullIsMissing) == read
  }

  /** Adding top-level fields to a document is such an extension, whatever the mapper. */
  lemma AddedFieldsExtend(more: Value, doc: Value, sc: Scope)
    requires doc.Map? && more.Map?
    requires forall k | k in doc.entries :: k in more.entries && more.entries[k] == doc.entries[k]
    ensures Extends(more, doc, sc)
  {
    forall path: Path
      ensures Nested(doc, ResolveField(path, sc.mapper)).Ok? ==>
        Nested(more, ResolveField(path, sc.mapper)) == Nested(doc, ResolveField(path, sc.mapper))
    {
      var field := ResolveField(path, sc.mapper);
      assert field[0] in doc.entries ==> Nested(more, field) == Nested(doc, field);
    }
  }

  /** An answer stays as it was, or an exception now stands in its way. */
  predicate Stands(before: Outcome, after: Outcome) {
    before.Ok? ==> after == before || after.Throw?
  }

  ghost predicate Keeps(a: seq<Outcome>, b: seq<Outcome>) {
    |a| == |b| && forall i | 0 <= i < |a| :: Stands(a[i], b[i])
  }

  lemma KeepsTail(a: seq<Outcome>, b: seq<Outcome>)
    requires Keeps(a, b) && a != []
    ensures Keeps(a[1..], b[1..])
  {
    assert forall i | 0 <= i < |a| - 1 :: a[1..][i] == a[i + 1] && b[1..][i] == b[i + 1];
  }

  lemma {:induction false} JunctionKeeps(decisive: bool, a: seq<Outcome>, b: seq<Outcome>, sawA: bool, sawB: bool)
    requires Keeps(a, b) && (sawB ==> sawA)
    ensures Stands(Junction(decisive, a, sawA), Junction(decisive, b, sawB))
    decreases |a|
  {
    if a != [] {
      KeepsTail(a, b);
      JunctionKeeps(decisive, a[1..], b[1..], sawA, sawB);
      JunctionKeeps(decisive, a[1..], b[1..], true, sawB);
      JunctionKeeps(decisive, a[1..], b[1..], true, true);
      JunctionErrs(decisive, a[1..]);
    }
  }

  /** After an error, only the deciding value is left to answer. */
  lemma {:induction false} JunctionErrs(decisive: bool, outs: seq<Outcome>)
    ensures Junction(decisive, outs, true).Ok? ==> Junction(decisive, outs, true) == OfBool(decisive)
    decreases |outs|
  {
    if outs != [] {
      JunctionErrs(decisive, outs[1..]);
    }
  }

  lemma {:induction false} QuantifierKeeps(q: Quantifier, a: seq<Outcome>, b: seq<Outcome>,
      countA: nat, countB: nat, sawA: bool, sawB: bool)
    requires Keeps(a, b) && (sawB ==> sawA) && (!sawA ==> countA == countB)
    ensures Stands(QuantifierResult(q, a, countA, sawA), QuantifierResult(q, b, countB, sawB))
    decreases |a|
  {
    if a != [] && !b[0].Throw? {
      KeepsTail(a, b);
      var stepA := if a[0] == OfBool(true) then countA + 1 else countA;
      var stepB := if b[0] == OfBool(true) then countB + 1 else countB;
      QuantifierKeeps(q, a[1..], b[1..], stepA, stepB, sawA || !AsBoolean(a[0]).Ok?, sawB || !AsBoolean(b[0]).Ok?);
      QuantifierErrs(q, a[1..], stepA);
    }
  }

  /** After an error, a quantifier can only answer with its deciding value; `exists_one` has none. */
  lemma {:induction false} QuantifierErrs(q: Quantifier, outs: seq<Outcome>, trueCount: nat)
    ensures var r := QuantifierResult(q, outs, trueCount, true);
      r.Ok? ==> !q.ExistsOne? && r == OfBool(q == Exists)
    decreases |outs|
  {
    if outs != [] {
      QuantifierErrs(q, outs[1..], trueCount);
      QuantifierErrs(q, outs[1..], trueCount + 1);
    }
  }

  lemma {:induction false} CollectKeeps(a: seq<Outcome>, b: seq<Outcome>, elements: seq<Value>)
    requires Keeps(a, b)
    ensures Stands(Collect(a, elements), Collect(b, elements))
    decreases |a|
  {
    if a != [] && a[0].Ok? {
      KeepsTail(a, b);
      CollectKeeps(a[1..], b[1..], elements + [a[0].value]);
    }
  }

  lemma {:induction false} FilterKeeps(items: seq<Value>, a: seq<Outcome>, b: seq<Outcome>, filtered: seq<Value>)
    requires |items| == |a| && Keeps(a, b)
    ensures Stands(FilterResult(items, a, filtered), FilterResult(items, b, filtered))
    decreases |a|
  {
    if a != [] {
      KeepsTail(a, b);
      FilterKeeps(items[1..], a[1..], b[1..], filtered);
      FilterKeeps(items[1..], a[1..], b[1..], filtered + [items[0]]);
    }
  }

  lemma {:induction false} EntriesKeep(entryKeys: seq<Option<string>>, a: seq<Outcome>, b: seq<Outcome>,
      keys: seq<string>, entries: Bindings)
    requires |entryKeys| == |a| && Keeps(a, b)
    ensures Stands(Entries(entryKeys, a, keys, entries), Entries(entryKeys, b, keys, entries))
    decreases |a|
  {
    if a != [] && a[0].Ok? && entryKeys[0].Some? {
      KeepsTail(a, b);
      var key := entryKeys[0].value;
      EntriesKeep(entryKeys[1..], a[1..], b[1..], keys + [key], entries[key := a[0].value]);
    }
  }

  lemma CombineKeeps(op: Operator, args: seq<Operand>, form: Form, settings: Settings, a: seq<Outcome>,
      b: seq<Outcome>)
    requires !op.Macro() && |a| == |Evaluated(op, args)| && Keeps(a, b)
    ensures Stands(Combine(op, args, form, settings, a), Combine(op, args, form, settings, b))
  {
    hide ApplyOne, ApplyTwo, Junction, Collect, Entries, EntryKeys;
    if op.And? {
      JunctionKeeps(false, a, b, false, false);
    } else if op.Or? {
      JunctionKeeps(true, a, b, false, false);
    } else if op.ListOf? {
      CollectKeeps(a, b, []);
    } else if op.Struct? {
      EntriesKeep(EntryKeys(args), a, b, [], map[]);
    }
  }

  lemma MacroKeeps(op: Operator, rows: seq<seq<Value>>, a: seq<Outcome>, b: seq<Outcome>)
    requires op.Macro() && |rows| == |a| && Keeps(a, b)
    requires forall i | 0 <= i < |rows| :: rows[i] != []
    ensures Stands(MacroResult(op, rows, a), MacroResult(op, rows, b))
  {
    if op.Quantify? {
      QuantifierKeeps(op.quantifier, a, b, 0, 0, false, false);
    } else if op.Filter? {
      FilterKeeps(seq(|rows|, i requires 0 <= i < |rows| => rows[i][0]), a, b, []);
    } else {
      CollectKeeps(a, b, []);
    }
  }

  /**
    Extending a document keeps every answer of every plan, through absorption, macros and lazy branches
    alike, unless an exception now stands in its way.
   */
  lemma {:induction false} Monotone(e: Operand, sc: Scope, more: Value)
    requires Extends(more, sc.doc, sc)
    ensures Stands(Evaluate(e, sc), Evaluate(e, sc.(doc := more)))
    decreases e
  {
    hide Combine, MacroResult, FormOf;
    var wider := sc.(doc := more);
    match e
    case Literal(_) =>
    case Variable(path) =>
      assert LookUp(path, sc).Ok? ==> LookUp(path, wider) == LookUp(path, sc);
    case Expr(op, args) =>
      var operands := Evaluated(op, args);
      var a, b := Outcomes(operands, sc), Outcomes(operands, wider);
      EvaluateStep(op, args, sc);
      EvaluateStep(op, args, wider);
      forall i | 0 <= i < |operands| ensures Stands(a[i], b[i]) {
        Monotone(operands[i], sc, more);
      }
      if !op.Macro() {
        CombineKeeps(op, args, FormOf(op, args, sc.bindings.Keys), sc.Env(), a, b);
      } else if StartMacro(op, args, a).Iterate? && !b[0].Throw? {
        var Iterate(lambda, rows) := StartMacro(op, args, a);
        assert StartMacro(op, args, b) == Iterate(lambda, rows);
        var x, y := BodyOutcomes(lambda, rows, sc), BodyOutcomes(lambda, rows, wider);
        forall i | 0 <= i < |rows| ensures Stands(x[i], y[i]) {
          var inner := Bind(sc, lambda.variables, rows[i]);
          assert Bind(wider, lambda.variables, rows[i]) == inner.(doc := more);
          Monotone(lambda.body, inner, more);
        }
        MacroKeeps(op, rows, x, y);
      }
  }

  // ----- scope safety: a plan depends on its free references only -----

  /** Whether `path` occurs in `e` outside every lambda that binds its root. */
  ghost predicate Free(path: Path, e: Operand)
    decreases e
  {
    match e
    case Literal(_) => false
    case Variable(p) => p == path
    case Expr(op, args) =>
      var operands := Evaluated(op, args);
      (exists i | 0 <= i < |operands| :: Free(path, operands[i])) ||
      (op.Macro() && |args| >= 2 && LambdaComponents(args[1]).Some? &&
        var lambda := LambdaComponents(args[1]).value;
        path[0] !in lambda.variables && Free(path, lambda.body))
  }

  /** Two scopes that read `path` alike, from the same side of the bindings. */
  ghost predicate ReadsAlike(path: Path, a: Scope, b: Scope) {
    (path[0] in a.bindings <==> path[0] in b.bindings) && LookUp(path, a) == LookUp(path, b)
  }

  /** The form of operands depends only on which of their roots are bound. */
  lemma SameForm(op: Operator, args: seq<Operand>, a: set<string>, b: set<string>)
    requires op.Arith? ==> forall i | 0 <= i < |args| && args[i].Variable? ::
      var root := args[i].path[0]; root in a <==> root in b
    ensures FormOf(op, args, a) == FormOf(op, args, b)
  {
    if op.Arith? {
      assert forall i | 0 <= i < |args| :: IsDoubleOperand(args[i], a) == IsDoubleOperand(args[i], b);
      assert AnyDouble(args, a) == AnyDouble(args, b);
    }
  }

  /** Two scopes alike on everything `e` reads. */
  ghost predicate AgreeOn(e: Operand, a: Scope, b: Scope) {
    a.nullIsMissing == b.nullIsMissing && a.host == b.host &&
    forall path: Path | Free(path, e) :: ReadsAlike(path, a, b)
  }

  lemma AgreeOnOperand(op: Operator, args: seq<Operand>, i: nat, a: Scope, b: Scope)
    requires i < |Evaluated(op, args)| && AgreeOn(Expr(op, args), a, b)
    ensures AgreeOn(Evaluated(op, args)[i], a, b)
    ensures Evaluated(op, args)[i].Variable? ==>
      var root := Evaluated(op, args)[i].path[0]; root in a.bindings <==> root in b.bindings
  {
    var operand := Evaluated(op, args)[i];
    forall path: Path | Free(path, operand) ensures ReadsAlike(path, a, b) {
      assert Free(path, Expr(op, args));
    }
    if operand.Variable? {
      assert Free(operand.path, operand);
    }
  }

  /** Binding a row keeps two scopes alike on the body's free references. */
  lemma AgreeOnBody(op: Operator, args: seq<Operand>, lambda: LambdaParts, row: seq<Value>, a: Scope, b: Scope)
    requires op.Macro() && |args| >= 2 && LambdaComponents(args[1]) == Some(lambda)
    requires row != [] && |lambda.variables| == |row|
    requires AgreeOn(Expr(op, args), a, b)
    ensures AgreeOn(lambda.body, Bind(a, lambda.variables, row), Bind(b, lambda.variables, row))
  {
    forall path: Path | Free(path, lambda.body)
      ensures ReadsAlike(path, Bind(a, lambda.variables, row), Bind(b, lambda.variables, row))
    {
      if path[0] !in lambda.variables {
        assert Free(path, Expr(op, args));
      }
    }
  }

  /** Evaluation is decided by what the free references read. */
  lemma {:induction false} Coincidence(e: Operand, a: Scope, b: Scope)
    requires AgreeOn(e, a, b)
    ensures Evaluate(e, a) == Evaluate(e, b)
    decreases e, 1
  {
    match e
    case Literal(_) =>
    case Variable(path) =>
      assert Free(path, e);
    case Expr(op, args) =>
      var operands := Evaluated(op, args);
      EvaluateStep(op, args, a);
      EvaluateStep(op, args, b);
      forall i | 0 <= i < |operands|
        ensures Evaluate(operands[i], a) == Evaluate(operands[i], b)
        ensures operands[i].Variable? ==> (operands[i].path[0] in a.bindings <==> operands[i].path[0] in b.bindings)
      {
        AgreeOnOperand(op, args, i, a, b);
        Coincidence(operands[i], a, b);
      }
      var outs := Outcomes(operands, a);
      assert outs == Outcomes(operands, b);
      if !op.Macro() {
        SameForm(op, args, a.bindings.Keys, b.bindings.Keys);
      } else if StartMacro(op, args, outs).Iterate? {
        SameBodies(op, args, outs, a, b);
      }
  }

  lemma {:induction false} SameBodies(op: Operator, args: seq<Operand>, outs: seq<Outcome>, a: Scope, b: Scope)
    requires op.Macro() && StartMacro(op, args, outs).Iterate? && AgreeOn(Expr(op, args), a, b)
    ensures var Iterate(lambda, rows) := StartMacro(op, args, outs);
      BodyOutcomes(lambda, rows, a) == BodyOutcomes(lambda, rows, b)
    decreases Expr(op, args), 0
  {
    var Iterate(lambda, rows) := StartMacro(op, args, outs);
    forall i | 0 <= i < |rows|
      ensures Evaluate(lambda.body, Bind(a, lambda.variables, rows[i])) ==
        Evaluate(lambda.body, Bind(b, lambda.variables, rows[i]))
    {
      AgreeOnBody(op, args, lambda, rows[i], a, b);
      Coincidence(lambda.body, Bind(a, lambda.variables, rows[i]), Bind(b, lambda.variables, rows[i]));
    }
  }
}
