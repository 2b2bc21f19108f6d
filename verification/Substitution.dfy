/** Literal-list macros, folded by substituting each element into the lambda's body. */
module Substitution {
  import opened Wrappers
  import opened Cel
  import opened Plans
  import opened Evaluator
  import D = Doubles

  // ----- the rewrite -----

  /** Operators whose second operand is a lambda. */
  predicate BindsLambda(op: Operator) {
    op.Macro() || op.Except?
  }

  /** A field read through a constant element, inherited names aside; a missing field is refused. */
  function Drill(element: Value, fields: seq<string>): Translation<Value> {
    match Nested(element, fields)
    case Ok(v) => Done(v)
    case _ => Refused
  }

  /** The same read as the source's loop. */
  method DrillInto(element: Value, fields: seq<string>) returns (r: Translation<Value>)
    ensures r == Drill(element, fields)
  {
    var current := element;
    for i := 0 to |fields|
      invariant Nested(element, fields) == Nested(current, fields[i..])
    {
      if !current.Map? || fields[i] !in current.entries {
        return Refused;
      }
      current := current.entries[fields[i]];
    }
    return Done(current);
  }

  /** Whether `lambda` binds an iteration variable called `variable`. */
  predicate Rebinds(lambda: Operand, variable: Path) {
    lambda.Expr? && lambda.operator.Lambda? && |lambda.operands| > 1 && lambda.operands[1] == Variable(variable)
  }

  function Substitute(e: Operand, variable: Path, element: Value): Translation<Operand>
    decreases e
  {
    match e
    case Literal(_) => Done(e)
    case Variable(path) =>
      if path == variable then Done(Literal(element))
      else if |path| > |variable| && variable <= path then
        var v :- Drill(element, path[|variable|..]);
        Done(Literal(v))
      else Done(e)
    case Expr(op, args) =>
      if BindsLambda(op) && |args| == 2 && Rebinds(args[1], variable) then
        var collection :- Substitute(args[0], variable, element);
        Done(Expr(op, [collection, args[1]]))
      else
        var operands :- SubstituteAll(args, variable, element);
        Done(Expr(op, operands))
  }

  function SubstituteAll(es: seq<Operand>, variable: Path, element: Value): (r: Translation<seq<Operand>>)
    ensures r.Done? ==> |r.result| == |es|
    ensures r.Done? ==> forall i | 0 <= i < |es| :: Substitute(es[i], variable, element) == Done(r.result[i])
    decreases es
  {
    if es == [] then Done([])
    else
      var first :- Substitute(es[0], variable, element);
      var rest :- SubstituteAll(es[1..], variable, element);
      Done([first] + rest)
  }

  /** A lambda's variable and body, as the lowering splits them. */
  function ExtractLambda(lambda: Operand): (r: Translation<(Path, Operand)>)
    ensures r.Done? ==> lambda.Expr? && r.result.1 in lambda.operands
  {
    if !lambda.Expr? || !lambda.operator.Lambda? || |lambda.operands| != 2 then Refused
    else
      var first, second := lambda.operands[0], lambda.operands[1];
      if !second.Variable? then
        if first.Variable? then Done((first.path, second)) else Refused
      else if first.Variable? && |first.path| == 1 && |second.path| != 1 then Done((first.path, second))
      else Done((second.path, first))
  }

  /** The bodies of a lambda over a literal list's elements, in order. */
  function Bodies(body: Operand, variable: Path, elements: seq<Value>): (r: Translation<seq<Operand>>)
    ensures r.Done? ==> |r.result| == |elements|
    ensures r.Done? ==> forall i | 0 <= i < |elements| :: Substitute(body, variable, elements[i]) == Done(r.result[i])
  {
    if elements == [] then Done([])
    else
      var first :- Substitute(body, variable, elements[0]);
      var rest :- Bodies(body, variable, elements[1..]);
      Done([first] + rest)
  }

  predicate UnrollsHere(op: Operator, operands: seq<Operand>) {
    op.MapEach? && |operands| == 2 && operands[0].Literal? && operands[0].value.List? &&
    operands[1].Expr? && operands[1].operator.Lambda?
  }

  /** `map(list, lambda)` over a literal list, unrolled into the list of its substituted bodies. */
  function UnrollKnownValueMaps(e: Operand): Translation<Operand>
    decreases e
  {
    if !e.Expr? then Done(e)
    else
      var operands :- UnrollAll(e.operands);
      if UnrollsHere(e.operator, operands) then
        var lambda :- ExtractLambda(operands[1]);
        var bodies :- Bodies(lambda.1, lambda.0, operands[0].value.items);
        Done(Expr(ListOf, bodies))
      else Done(Expr(e.operator, operands))
  }

  function UnrollAll(es: seq<Operand>): (r: Translation<seq<Operand>>)
    ensures r.Done? ==> |r.result| == |es|
    ensures r.Done? ==> forall i | 0 <= i < |es| :: UnrollKnownValueMaps(es[i]) == Done(r.result[i])
    decreases es
  {
    if es == [] then Done([])
    else
      var first :- UnrollKnownValueMaps(es[0]);
      var rest :- UnrollAll(es[1..]);
      Done([first] + rest)
  }

  // ----- substitution is evaluation under a binding -----

  /** A one-variable lambda with its body first. */
  predicate BodyFirst(lambda: Operand) {
    lambda.Expr? && lambda.operator.Lambda? && |lambda.operands| == 2 && LooksLikeLambdaVariable(lambda.operands[1])
  }

  /** Well-placed lambdas: one variable, body first, and only where a macro takes one. */
  predicate Placed(e: Operand)
    decreases e
  {
    match e
    case Literal(_) => true
    case Variable(_) => true
    case Expr(op, args) =>
      !op.Lambda? && !op.SetField? &&
      if op.Macro() then |args| == 2 && BodyFirst(args[1]) && Placed(args[0]) && Placed(args[1].operands[0])
      else
        var operands := Evaluated(op, args);
        (op.Struct? ==> forall i | 0 <= i < |args| :: IsEntry(args[i])) &&
        forall i | 0 <= i < |operands| :: Placed(operands[i])
  }

  predicate RootedAt(x: Operand, name: string) {
    x.Variable? && x.path[0] == name
  }

  /** What a literal, or a variable substitution replaces, is known to hold before evaluation. */
  function Known(x: Operand, name: string, element: Value): Option<Value> {
    if x.Literal? then Some(x.value)
    else if !RootedAt(x, name) then None
    else
      var read := Nested(element, x.path[1..]);
      if read.Ok? then Some(read.value) else None
  }

  /** Whether the operand reads a number of the element, which substitution makes a number literal. */
  predicate ReadsNumber(x: Operand, name: string, element: Value) {
    RootedAt(x, name) && var read := Known(x, name, element); read.Some? && read.value.Num?
  }

  predicate ReadsInteger(x: Operand, name: string, element: Value) {
    ReadsNumber(x, name, element) && Known(x, name, element).value.n.IsInteger()
  }

  predicate ReadsFraction(x: Operand, name: string, element: Value) {
    ReadsNumber(x, name, element) && !Known(x, name, element).value.n.IsInteger()
  }

  /** The numeric type `string()` finds once the element is substituted: a fraction has become a double literal. */
  function TypeAfter(x: Operand, name: string, element: Value): Option<NumericType>
    decreases x
  {
    if ReadsFraction(x, name, element) then Some(DoubleType)
    else if !x.Expr? || x.operator != If || |x.operands| < 2 then NumericTypeOf(x)
    else
      var whenTrue := TypeAfter(x.operands[1], name, element);
      if whenTrue.Some? || |x.operands| < 3 then whenTrue else TypeAfter(x.operands[2], name, element)
  }

  /**
    Whether `%`, an error over a variable, still is one where it has to be: a variable is left or there was
    none, an operand is known to be no number, or the divisor is known to be zero.
   */
  predicate ModuloKept(args: seq<Operand>, name: string, element: Value) {
    |args| < 2 ||
    (exists i | 0 <= i < |args| :: args[i].Variable? && !RootedAt(args[i], name)) ||
    (forall i | 0 <= i < |args| :: !RootedAt(args[i], name)) ||
    (exists i | 0 <= i < 2 :: KnownOther(args[i], name, element)) ||
    KnownZero(args[1], name, element)
  }

  predicate KnownOther(x: Operand, name: string, element: Value) {
    var v := Known(x, name, element);
    v.Some? && !v.value.Num?
  }

  predicate KnownZero(x: Operand, name: string, element: Value) {
    var v := Known(x, name, element);
    v.Some? && v.value.Num? && v.value.n.IsZero()
  }

  predicate AnyFraction(args: seq<Operand>, name: string, element: Value) {
    exists i | 0 <= i < |args| :: ReadsFraction(args[i], name, element)
  }

  /**
    Arithmetic tells a number literal from a variable only beside a CEL int and by `%`. Beside an int a
    fraction makes every operation an error, which over a variable only `%` is.
   */
  predicate ArithmeticKept(op: Arithmetic, args: seq<Operand>, name: string, element: Value) {
    if AnyInt(args) && AnyFraction(args, name, element) then op == Mod
    else
      (AnyInt(args) ==> forall i | 0 <= i < |args| :: !ReadsInteger(args[i], name, element)) &&
      (op == Mod ==> ModuloKept(args, name, element))
  }

  /** Whether what a node observes of its operands' shapes survives substitution. */
  predicate NodeKept(op: Operator, args: seq<Operand>, name: string, element: Value) {
    match op
    case Arith(arithmetic) => ArithmeticKept(arithmetic, args, name, element)
    case ToString =>
      args != [] ==> (TypeAfter(args[0], name, element) == Some(IntType) <==> NumericTypeOf(args[0]) == Some(IntType))
    case GetField =>
      |args| >= 2 && RootedAt(args[1], name) ==>
        var read := Known(args[1], name, element);
        read.Some? && FieldName(Literal(read.value)) == args[1].path
    case _ => true
  }

  /** Whether that holds of every node the substitution reaches. */
  predicate ShapesKept(e: Operand, name: string, element: Value)
    requires Placed(e)
    decreases e
  {
    match e
    case Literal(_) => true
    case Variable(_) => true
    case Expr(op, args) =>
      NodeKept(op, args, name, element) &&
      if op.Macro() then
        ShapesKept(args[0], name, element) &&
        (args[1].operands[1].path[0] != name ==> ShapesKept(args[1].operands[0], name, element))
      else
        var operands := Evaluated(op, args);
        forall i | 0 <= i < |operands| :: ShapesKept(operands[i], name, element)
  }

  predicate Substitutable(e: Operand, name: string, element: Value) {
    Placed(e) && ShapesKept(e, name, element)
  }

  function BoundTo(sc: Scope, name: string, v: Value): Scope {
    sc.(bindings := sc.bindings[name := v])
  }

  lemma SubstitutedOperands(op: Operator, args: seq<Operand>, operands: seq<Operand>, variable: Path, element: Value)
    requires Placed(Expr(op, args)) && !op.Macro()
    requires SubstituteAll(args, variable, element) == Done(operands)
    ensures |Evaluated(op, operands)| == |Evaluated(op, args)|
    ensures forall i | 0 <= i < |Evaluated(op, args)| ::
      Substitute(Evaluated(op, args)[i], variable, element) == Done(Evaluated(op, operands)[i])
    ensures op.Struct? ==> forall i | 0 <= i < |args| ::
      IsEntry(operands[i]) && operands[i].operands[0] == args[i].operands[0]
  {
    if op.Struct? {
      forall i | 0 <= i < |args|
        ensures IsEntry(operands[i]) && operands[i].operands[0] == args[i].operands[0]
        ensures Substitute(args[i].operands[1], variable, element) == Done(operands[i].operands[1])
      {
        assert Substitute(args[i], variable, element) == Done(operands[i]);
        assert Substitute(args[i].operands[0], variable, element) == Done(args[i].operands[0]);
      }
    }
  }

  // ----- what substitution leaves of the shapes -----

  /** A leaf stays as it is, or becomes the literal of what the variable reads. */
  lemma LeafBySubstitution(x: Operand, y: Operand, name: string, element: Value)
    requires !x.Expr? && Substitute(x, [name], element) == Done(y)
    ensures if RootedAt(x, name)
      then Known(x, name, element).Some? && y == Literal(Known(x, name, element).value) else y == x
  {
    if x.Variable? && x.path[0] == name && |x.path| > 1 {
      assert x.path[..1] == [name];
    } else if x.Variable? && x.path[0] == name {
      assert x.path == [name];
      assert x.path[1..] == [];
    }
  }

  lemma NodeBySubstitution(e: Operand, y: Operand, variable: Path, element: Value)
    requires e.Expr? && Substitute(e, variable, element) == Done(y)
    ensures y.Expr? && y.operator == e.operator
    ensures !BindsLambda(e.operator) ==>
      SubstituteAll(e.operands, variable, element).Done? &&
      y.operands == SubstituteAll(e.operands, variable, element).result
  {
  }

  /** Whether the operand is certainly an int, or temporal, does not change. */
  lemma {:induction false} ShapeBySubstitution(x: Operand, y: Operand, name: string, element: Value)
    requires Substitutable(x, name, element) && Substitute(x, [name], element) == Done(y)
    ensures TemporalKindOf(y) == TemporalKindOf(x) && IsIntExpression(y) == IsIntExpression(x)
    decreases x
  {
    hide Substitute, ArithmeticKept;
    if x.Expr? {
      NodeBySubstitution(x, y, [name], element);
      if x.operator.Arith? {
        forall i | 0 <= i < |x.operands|
          ensures TemporalKindOf(y.operands[i]) == TemporalKindOf(x.operands[i])
          ensures IsIntExpression(y.operands[i]) == IsIntExpression(x.operands[i])
        {
          OperandSubstitutable(x.operator, x.operands, i, name, element);
          ShapeBySubstitution(x.operands[i], y.operands[i], name, element);
        }
        IntBySubstitution(x, y, name, element);
      }
    } else {
      LeafBySubstitution(x, y, name, element);
    }
  }

  lemma OperandSubstitutable(op: Operator, args: seq<Operand>, i: nat, name: string, element: Value)
    requires Substitutable(Expr(op, args), name, element) && i < |args|
    requires !op.Macro() && !op.Struct? && !op.GetField? && !op.Unlisted?
    ensures Substitutable(args[i], name, element)
  {
    assert Evaluated(op, args) == args;
    assert Evaluated(op, args)[i] == args[i];
  }

  lemma IntBySubstitution(x: Operand, y: Operand, name: string, element: Value)
    requires x.Expr? && x.operator.Arith? && y.Expr? && y.operator == x.operator && |y.operands| == |x.operands|
    requires ArithmeticKept(x.operator.arithmetic, x.operands, name, element)
    requires forall i | 0 <= i < |x.operands| :: Substitute(x.operands[i], [name], element) == Done(y.operands[i])
    requires forall i | 0 <= i < |x.operands| :: IsIntExpression(y.operands[i]) == IsIntExpression(x.operands[i])
    ensures AnyInt(y.operands) == AnyInt(x.operands) && IsIntExpression(y) == IsIntExpression(x)
  {
    hide Substitute, ModuloKept, ReadsInteger, ReadsFraction;
    forall i | 0 <= i < |x.operands|
      ensures !ReadsInteger(x.operands[i], name, element) ==>
        IsIntegerLiteral(y.operands[i]) == IsIntegerLiteral(x.operands[i])
      ensures ReadsFraction(x.operands[i], name, element) ==> IsNeither(x.operands[i]) && IsNeither(y.operands[i])
    {
      LiteralBySubstitution(x.operands[i], y.operands[i], name, element);
      FractionBySubstitution(x.operands[i], y.operands[i], name, element);
    }
    if AnyFraction(x.operands, name, element) {
      var i :| 0 <= i < |x.operands| && ReadsFraction(x.operands[i], name, element);
      assert IsNeither(x.operands[i]) && IsNeither(y.operands[i]);
    }
  }

  /** Neither a whole-number literal nor a CEL int. */
  predicate IsNeither(x: Operand) {
    !IsIntegerLiteral(x) && !IsIntExpression(x)
  }

  lemma FractionBySubstitution(x: Operand, y: Operand, name: string, element: Value)
    requires Substitute(x, [name], element) == Done(y)
    ensures ReadsFraction(x, name, element) ==> IsNeither(x) && IsNeither(y) && IsFractionalLiteral(y)
    ensures ReadsInteger(x, name, element) ==> IsNeither(x) && IsIntegerLiteral(y)
  {
    if RootedAt(x, name) {
      LeafBySubstitution(x, y, name, element);
    }
  }

  /** Away from the element's numbers, a number literal stays one and nothing becomes one. */
  lemma LiteralBySubstitution(x: Operand, y: Operand, name: string, element: Value)
    requires Substitute(x, [name], element) == Done(y)
    ensures !ReadsInteger(x, name, element) ==> IsIntegerLiteral(y) == IsIntegerLiteral(x)
    ensures !ReadsFraction(x, name, element) ==> IsFractionalLiteral(y) == IsFractionalLiteral(x)
    ensures x.Expr? <==> y.Expr?
    ensures x.Expr? ==> y.operator == x.operator
  {
    if x.Expr? {
      NodeBySubstitution(x, y, [name], element);
    } else {
      LeafBySubstitution(x, y, name, element);
    }
  }

  /** The type found after substitution is the one foreseen. */
  lemma {:induction false} TypeBySubstitution(x: Operand, y: Operand, name: string, element: Value)
    requires Substitutable(x, name, element) && Substitute(x, [name], element) == Done(y)
    ensures NumericTypeOf(y) == TypeAfter(x, name, element)
    decreases x
  {
    hide Substitute, ShapesKept, Placed;
    ShapeBySubstitution(x, y, name, element);
    if x.Expr? {
      NodeBySubstitution(x, y, [name], element);
      if x.operator.If? && |x.operands| >= 2 {
        OperandSubstitutable(If, x.operands, 1, name, element);
        TypeBySubstitution(x.operands[1], y.operands[1], name, element);
        if |x.operands| >= 3 {
          OperandSubstitutable(If, x.operands, 2, name, element);
          TypeBySubstitution(x.operands[2], y.operands[2], name, element);
        }
      }
    } else {
      LeafBySubstitution(x, y, name, element);
    }
  }

  // ----- what an operator observes of the shapes -----

  /** The element's name is bound where the original is evaluated, and is gone where the substituted one is. */
  lemma DocumentBySubstitution(x: Operand, y: Operand, name: string, element: Value, bound: set<string>)
    requires Substitute(x, [name], element) == Done(y)
    ensures IsDocumentField(y, bound) == IsDocumentField(x, bound + {name})
  {
    if x.Expr? {
      NodeBySubstitution(x, y, [name], element);
    } else {
      LeafBySubstitution(x, y, name, element);
    }
  }

  lemma AnyBySubstitution(args: seq<Operand>, operands: seq<Operand>, name: string, element: Value, bound: set<string>)
    requires |operands| == |args|
    requires forall i | 0 <= i < |args| :: Substitutable(args[i], name, element)
    requires forall i | 0 <= i < |args| :: Substitute(args[i], [name], element) == Done(operands[i])
    ensures AnyTemporal(operands) == AnyTemporal(args) && AnyInt(operands) == AnyInt(args)
    ensures AnyDouble(operands, bound) <==> AnyDouble(args, bound + {name}) || AnyFraction(args, name, element)
    ensures forall i | 0 <= i < |args| :: TemporalKindOf(operands[i]) == TemporalKindOf(args[i])
    ensures forall i | 0 <= i < |args| :: IsIntExpression(operands[i]) == IsIntExpression(args[i])
  {
    hide Substitute, TemporalKindOf, IsIntExpression, Placed, ShapesKept, ReadsFraction;
    forall i | 0 <= i < |args|
      ensures TemporalKindOf(operands[i]) == TemporalKindOf(args[i])
      ensures IsIntExpression(operands[i]) == IsIntExpression(args[i])
      ensures IsDoubleOperand(operands[i], bound) <==>
        IsDoubleOperand(args[i], bound + {name}) || ReadsFraction(args[i], name, element)
    {
      ShapeBySubstitution(args[i], operands[i], name, element);
      DocumentBySubstitution(args[i], operands[i], name, element, bound);
      LiteralBySubstitution(args[i], operands[i], name, element);
      FractionBySubstitution(args[i], operands[i], name, element);
    }
  }

  /** Substitution changes of an arithmetic node's form its variable operands, and beside an int the mixed types. */
  lemma ArithmeticBySubstitution(op: Arithmetic, args: seq<Operand>, operands: seq<Operand>, name: string,
      element: Value, bound: set<string>)
    requires Substitutable(Expr(Arith(op), args), name, element)
    requires SubstituteAll(args, [name], element) == Done(operands)
    ensures var before, after := FormOf(Arith(op), args, bound + {name}), FormOf(Arith(op), operands, bound);
      (before.ArithmeticForm? <==> after.ArithmeticForm?) &&
      (before.ArithmeticForm? ==> after == before.(variable := after.variable, mixed := after.mixed)) &&
      (before.ArithmeticForm? && !(AnyInt(args) && AnyFraction(args, name, element)) ==> after.mixed == before.mixed)
  {
    hide Substitute, TemporalKindOf, ReadsFraction, ReadsInteger;
    forall i | 0 <= i < |args| ensures Substitutable(args[i], name, element) {
      OperandSubstitutable(Arith(op), args, i, name, element);
    }
    AnyBySubstitution(args, operands, name, element, bound);
    IntBySubstitution(Expr(Arith(op), args), Expr(Arith(op), operands), name, element);
    if |args| >= 2 {
      DocumentBySubstitution(args[1], operands[1], name, element, bound);
    }
  }

  /** That one difference is read by `%` alone, where it does not err anyway. */
  lemma VariableUnread(op: Arithmetic, form: Form, other: Form, left: Value, right: Value)
    requires form.ArithmeticForm? && other.ArithmeticForm? && other == form.(variable := other.variable)
    requires op != Mod || other == form || ModuloErrsAnyway(left, right)
    ensures ArithmeticOf(op, form, left, right) == ArithmeticOf(op, other, left, right)
  {
  }

  predicate ModuloErrsAnyway(left: Value, right: Value) {
    !left.Num? || !right.Num? || right.n.IsZero()
  }

  /** A bound variable's operand evaluates to what the element holds there. */
  lemma RootedEvaluates(x: Operand, name: string, element: Value, sc: Scope)
    requires RootedAt(x, name) && !sc.nullIsMissing
    ensures Evaluate(x, BoundTo(sc, name, element)) == Nested(element, x.path[1..])
  {
    assert |x.path| == 1 ==> x.path[1..] == [];
  }

  lemma KnownEvaluates(x: Operand, name: string, element: Value, sc: Scope)
    requires Known(x, name, element).Some? && !sc.nullIsMissing
    ensures Evaluate(x, BoundTo(sc, name, element)) == Ok(Known(x, name, element).value)
  {
    if x.Variable? {
      RootedEvaluates(x, name, element, sc);
    }
  }

  /** Over operands of the same outcomes, the substituted arithmetic node combines them alike. */
  lemma ArithmeticCombines(op: Arithmetic, args: seq<Operand>, operands: seq<Operand>, name: string, element: Value,
      sc: Scope, outs: seq<Outcome>)
    requires Substitutable(Expr(Arith(op), args), name, element) && !sc.nullIsMissing
    requires SubstituteAll(args, [name], element) == Done(operands)
    requires outs == Outcomes(args, BoundTo(sc, name, element))
    ensures var bound := sc.bindings.Keys;
      StrictResult(Arith(op), |operands|, FormOf(Arith(op), operands, bound), sc.Env(), outs) ==
      StrictResult(Arith(op), |args|, FormOf(Arith(op), args, bound + {name}), sc.Env(), outs)
  {
    hide Substitute, Evaluate, FormOf, ArithmeticOf, ModuloKept;
    assert ArithmeticKept(op, args, name, element);
    hide ShapesKept, Placed;
    var bound := sc.bindings.Keys;
    var before, after := FormOf(Arith(op), args, bound + {name}), FormOf(Arith(op), operands, bound);
    ArithmeticBySubstitution(op, args, operands, name, element, bound);
    if |outs| >= 2 && outs[0].Ok? && outs[1].Ok? && before.ArithmeticForm? {
      if AnyInt(args) && AnyFraction(args, name, element) {
        FractionErrs(args, operands, name, element, bound, outs[0].value, outs[1].value);
      } else {
        if op == Mod && before != after {
          ModuloErrs(args, operands, name, element, sc, bound);
        }
        VariableUnread(op, before, after, outs[0].value, outs[1].value);
      }
    }
  }

  /** Beside a CEL int, `%` over a fraction is an error as a variable and as a literal. */
  lemma FractionErrs(args: seq<Operand>, operands: seq<Operand>, name: string, element: Value, bound: set<string>,
      left: Value, right: Value)
    requires Substitutable(Expr(Arith(Mod), args), name, element) && |args| >= 2
    requires SubstituteAll(args, [name], element) == Done(operands)
    requires AnyInt(args) && AnyFraction(args, name, element)
    ensures var before, after := FormOf(Arith(Mod), args, bound + {name}), FormOf(Arith(Mod), operands, bound);
      before.ArithmeticForm? && after.ArithmeticForm? &&
      ArithmeticOf(Mod, before, left, right) == Err && ArithmeticOf(Mod, after, left, right) == Err
  {
    hide FormOf, ArithmeticOf, Substitutable, SubstituteAll;
    FractionForms(args, operands, name, element, bound);
    ModuloIsError(FormOf(Arith(Mod), args, bound + {name}), left, right);
    ModuloIsError(FormOf(Arith(Mod), operands, bound), left, right);
  }

  /** A `%` that is neither temporal nor over ints, and reads a variable or mixed types. */
  predicate ModuloRefused(form: Form) {
    form.ArithmeticForm? && !form.temporal && !form.isInt && (form.mixed || form.variable)
  }

  lemma ModuloIsError(form: Form, left: Value, right: Value)
    requires ModuloRefused(form)
    ensures ArithmeticOf(Mod, form, left, right) == Err
  {
  }

  lemma FractionForms(args: seq<Operand>, operands: seq<Operand>, name: string, element: Value, bound: set<string>)
    requires Substitutable(Expr(Arith(Mod), args), name, element) && |args| >= 2
    requires SubstituteAll(args, [name], element) == Done(operands)
    requires AnyInt(args) && AnyFraction(args, name, element)
    ensures ModuloRefused(FormOf(Arith(Mod), args, bound + {name}))
    ensures ModuloRefused(FormOf(Arith(Mod), operands, bound))
  {
    hide Substitute, TemporalKindOf, IsIntExpression, ReadsFraction, AnyFraction, Placed, ShapesKept;
    var i := FractionAt(args, name, element);
    forall j | 0 <= j < |args| ensures Substitutable(args[j], name, element) {
      OperandSubstitutable(Arith(Mod), args, j, name, element);
    }
    AnyBySubstitution(args, operands, name, element, bound);
    FractionBySubstitution(args[i], operands[i], name, element);
    NotAllInts(args, i);
    NotAllInts(operands, i);
  }

  lemma FractionAt(args: seq<Operand>, name: string, element: Value) returns (i: nat)
    requires AnyFraction(args, name, element)
    ensures i < |args| && ReadsFraction(args[i], name, element) && args[i].Variable?
  {
    i :| 0 <= i < |args| && ReadsFraction(args[i], name, element);
  }

  lemma NotAllInts(args: seq<Operand>, i: nat)
    requires i < |args| && IsNeither(args[i])
    ensures !IsIntExpression(Expr(Arith(Mod), args))
  {
  }

  /** Where `%` loses its variable operand, it is one of the cases in which it errs anyway. */
  lemma ModuloErrs(args: seq<Operand>, operands: seq<Operand>, name: string, element: Value, sc: Scope,
      bound: set<string>)
    requires Substitutable(Expr(Arith(Mod), args), name, element) && !sc.nullIsMissing && |args| >= 2
    requires !(AnyInt(args) && AnyFraction(args, name, element))
    requires SubstituteAll(args, [name], element) == Done(operands)
    requires FormOf(Arith(Mod), operands, bound) != FormOf(Arith(Mod), args, bound + {name})
    ensures var a := Evaluate(args[0], BoundTo(sc, name, element));
      var b := Evaluate(args[1], BoundTo(sc, name, element));
      a.Ok? && b.Ok? ==> ModuloErrsAnyway(a.value, b.value)
  {
    hide Substitute, Evaluate, TemporalKindOf, IsIntExpression, Known, AnyFraction;
    ArithmeticBySubstitution(Mod, args, operands, name, element, bound);
    VariablesBySubstitution(args, operands, name, element);
    assert AnyVariable(operands) != AnyVariable(args);
    if KnownOther(args[0], name, element) {
      KnownEvaluates(args[0], name, element, sc);
    } else {
      KnownEvaluates(args[1], name, element, sc);
    }
  }

  lemma VariablesBySubstitution(args: seq<Operand>, operands: seq<Operand>, name: string, element: Value)
    requires |operands| == |args|
    requires forall i | 0 <= i < |args| :: Substitute(args[i], [name], element) == Done(operands[i])
    ensures AnyVariable(operands) <==> exists i | 0 <= i < |args| :: args[i].Variable? && !RootedAt(args[i], name)
  {
    hide Substitute, Known;
    forall i | 0 <= i < |args|
      ensures operands[i].Variable? <==> args[i].Variable? && !RootedAt(args[i], name)
    {
      if args[i].Expr? {
        NodeBySubstitution(args[i], operands[i], [name], element);
      } else {
        LeafBySubstitution(args[i], operands[i], name, element);
      }
    }
  }

  /** Every other operator observes the same form. */
  lemma FormByValue(op: Operator, args: seq<Operand>, operands: seq<Operand>, name: string, element: Value,
      bound: set<string>)
    requires Substitutable(Expr(op, args), name, element) && !op.Macro() && !op.Arith?
    requires SubstituteAll(args, [name], element) == Done(operands)
    ensures FormOf(op, operands, bound) == FormOf(op, args, bound + {name})
  {
    hide Substitute, TemporalKindOf, NumericTypeOf, TypeAfter, Known;
    if args != [] && (op.SinceNow? || op.ToString?) {
      OperandSubstitutable(op, args, 0, name, element);
      ShapeBySubstitution(args[0], operands[0], name, element);
      if op.ToString? {
        TypeBySubstitution(args[0], operands[0], name, element);
      }
    } else if op.GetField? && |args| >= 2 {
      FieldBySubstitution(args[1], operands[1], name, element);
    }
  }

  lemma FieldBySubstitution(x: Operand, y: Operand, name: string, element: Value)
    requires Substitute(x, [name], element) == Done(y)
    ensures !RootedAt(x, name) ==> FieldName(y) == FieldName(x)
    ensures RootedAt(x, name) ==> Known(x, name, element).Some? && y == Literal(Known(x, name, element).value)
  {
    if x.Expr? {
      NodeBySubstitution(x, y, [name], element);
    } else {
      LeafBySubstitution(x, y, name, element);
    }
  }

  /** Substituting an element and evaluating is evaluating with the variable bound, shadowing included. */
  lemma {:induction false} SubstituteIsBinding(e: Operand, name: string, element: Value, sc: Scope)
    requires Substitutable(e, name, element) && !sc.nullIsMissing && Substitute(e, [name], element).Done?
    ensures Evaluate(Substitute(e, [name], element).result, sc) == Evaluate(e, BoundTo(sc, name, element))
    decreases e, 2
  {
    hide Combine, MacroOutcome, StartMacro, FormOf;
    match e
    case Literal(_) =>
    case Variable(path) =>
    case Expr(op, args) =>
      if op.Macro() {
        MacroIsBinding(op, args, name, element, sc);
      } else {
        assert op.Except? && |args| == 2 ==> Placed(Evaluated(op, args)[1]);
        NodeIsBinding(op, args, name, element, sc);
      }
  }

  lemma {:induction false} NodeIsBinding(op: Operator, args: seq<Operand>, name: string, element: Value, sc: Scope)
    requires !op.Macro() && Substitutable(Expr(op, args), name, element) && !sc.nullIsMissing
    requires SubstituteAll(args, [name], element).Done?
    ensures Evaluate(Expr(op, SubstituteAll(args, [name], element).result), sc) ==
      Evaluate(Expr(op, args), BoundTo(sc, name, element))
    decreases Expr(op, args), 1
  {
    hide Evaluate, FormOf, StrictResult, Junction, Collect, Conditional, Substitute, NodeKept;
    var operands := SubstituteAll(args, [name], element).result;
    var inner := BoundTo(sc, name, element);
    EvaluateStep(op, operands, sc);
    EvaluateStep(op, args, inner);
    SubstitutedOperands(op, args, operands, [name], element);
    var before, after := Evaluated(op, args), Evaluated(op, operands);
    forall i | 0 <= i < |before| ensures Evaluate(after[i], sc) == Evaluate(before[i], inner) {
      SubstituteIsBinding(before[i], name, element, sc);
    }
    var outs := Outcomes(after, sc);
    assert outs == Outcomes(before, inner);
    assert inner.bindings.Keys == sc.bindings.Keys + {name};
    if op.Arith? {
      ArithmeticCombines(op.arithmetic, args, operands, name, element, sc, outs);
    } else {
      FormByValue(op, args, operands, name, element, sc.bindings.Keys);
    }
    assert op.Struct? ==> EntryKeys(operands) == EntryKeys(args);
  }

  /** What substitution leaves of a macro: its collection, and its body unless the name is rebound. */
  lemma SubstitutedMacro(op: Operator, args: seq<Operand>, name: string, element: Value)
    requires op.Macro() && Placed(Expr(op, args)) && Substitute(Expr(op, args), [name], element).Done?
    ensures var operands := Substitute(Expr(op, args), [name], element).result.operands;
      var body, variable := args[1].operands[0], args[1].operands[1].path[0];
      |operands| == 2 && Substitute(args[0], [name], element) == Done(operands[0]) &&
      (variable != name ==> Substitute(body, [name], element).Done?) &&
      LambdaComponents(operands[1]) ==
        Some(LambdaParts(if variable == name then body else Substitute(body, [name], element).result, [variable]))
  {
    var operands := Substitute(Expr(op, args), [name], element).result.operands;
    var variable := args[1].operands[1].path[0];
    assert args[1].operands[1].path == [variable];
    if variable != name {
      assert Substitute(args[1], [name], element) == Done(operands[1]);
      var parts := SubstituteAll(args[1].operands, [name], element).result;
      assert operands[1] == Expr(Lambda, parts);
      assert Substitute(args[1].operands[1], [name], element) == Done(parts[1]);
    }
  }

  lemma {:induction false} BodiesAreBinding(body: Operand, variable: string, rows: seq<seq<Value>>, name: string,
      element: Value, sc: Scope)
    requires !sc.nullIsMissing
    requires variable != name ==> Substitutable(body, name, element) && Substitute(body, [name], element).Done?
    requires forall i | 0 <= i < |rows| :: |rows[i]| == 1
    ensures var after := if variable == name then body else Substitute(body, [name], element).result;
      BodyOutcomes(LambdaParts(after, [variable]), rows, sc) ==
      BodyOutcomes(LambdaParts(body, [variable]), rows, BoundTo(sc, name, element))
    decreases body, 3
  {
    hide Evaluate, Substitute;
    var inner := BoundTo(sc, name, element);
    var after := if variable == name then body else Substitute(body, [name], element).result;
    forall i | 0 <= i < |rows|
      ensures Evaluate(after, Bind(sc, [variable], rows[i])) == Evaluate(body, Bind(inner, [variable], rows[i]))
    {
      var bound := Bind(sc, [variable], rows[i]);
      if variable == name {
        assert bound == Bind(inner, [variable], rows[i]);
      } else {
        assert BoundTo(bound, name, element) == Bind(inner, [variable], rows[i]);
        SubstituteIsBinding(body, name, element, bound);
      }
    }
  }

  /** Past its collection, a substituted macro goes on as the bound one does. */
  lemma {:induction false} StartedIsBinding(op: Operator, args: seq<Operand>, outs: seq<Outcome>, name: string,
      element: Value, sc: Scope)
    requires op.Macro() && Substitutable(Expr(op, args), name, element) && !sc.nullIsMissing
    requires Substitute(Expr(op, args), [name], element).Done?
    ensures var operands := Substitute(Expr(op, args), [name], element).result.operands;
      MacroOutcome(op, StartMacro(op, operands, outs), sc) ==
      MacroOutcome(op, StartMacro(op, args, outs), BoundTo(sc, name, element))
    decreases Expr(op, args), 0
  {
    hide Evaluate, MacroResult;
    SubstitutedMacro(op, args, name, element);
    if StartMacro(op, args, outs).Iterate? {
      BodiesAreBinding(args[1].operands[0], args[1].operands[1].path[0], StartMacro(op, args, outs).rows, name,
        element, sc);
    }
  }

  lemma {:induction false} MacroIsBinding(op: Operator, args: seq<Operand>, name: string, element: Value, sc: Scope)
    requires op.Macro() && Substitutable(Expr(op, args), name, element) && !sc.nullIsMissing
    requires Substitute(Expr(op, args), [name], element).Done?
    ensures Evaluate(Substitute(Expr(op, args), [name], element).result, sc) ==
      Evaluate(Expr(op, args), BoundTo(sc, name, element))
    decreases Expr(op, args), 1
  {
    hide Combine, MacroOutcome, StartMacro, MacroResult;
    var operands := Substitute(Expr(op, args), [name], element).result.operands;
    var inner := BoundTo(sc, name, element);
    SubstitutedMacro(op, args, name, element);
    EvaluateStep(op, operands, sc);
    EvaluateStep(op, args, inner);
    SubstituteIsBinding(args[0], name, element, sc);
    var outs := Outcomes(Evaluated(op, args), inner);
    assert Outcomes(Evaluated(op, operands), sc) == outs;
    StartedIsBinding(op, args, outs, name, element, sc);
  }

  // ----- macros over a literal list -----

  lemma {:induction false} QuantifierIsJunction(q: Quantifier, outs: seq<Outcome>, trueCount: nat, sawError: bool)
    requires q != ExistsOne
    ensures QuantifierResult(q, outs, trueCount, sawError) == Junction(q == Exists, outs, sawError)
    decreases |outs|
  {
    if outs != [] {
      QuantifierIsJunction(q, outs[1..], trueCount, true);
      QuantifierIsJunction(q, outs[1..], trueCount, sawError);
      QuantifierIsJunction(q, outs[1..], trueCount + 1, sawError);
    }
  }

  /** A macro over a literal list evaluates its body once for each element. */
  lemma LiteralRows(op: Operator, elements: seq<Value>, lambda: Operand, sc: Scope)
    requires op.Macro() && BodyFirst(lambda)
    ensures var args := [Literal(List(elements)), lambda];
      var parts := LambdaParts(lambda.operands[0], [lambda.operands[1].path[0]]);
      var rows := seq(|elements|, i requires 0 <= i < |elements| => [elements[i]]);
      Evaluate(Expr(op, args), sc) == MacroResult(op, rows, BodyOutcomes(parts, rows, sc))
  {
    hide MacroResult;
    var args := [Literal(List(elements)), lambda];
    var parts := LambdaParts(lambda.operands[0], [lambda.operands[1].path[0]]);
    var rows := seq(|elements|, i requires 0 <= i < |elements| => [elements[i]]);
    EvaluateStep(op, args, sc);
    assert Evaluated(op, args) == [args[0]];
    assert Rows(List(elements), 1).value == rows;
  }

  predicate SubstitutableAll(body: Operand, name: string, elements: seq<Value>) {
    forall i | 0 <= i < |elements| :: Substitutable(body, name, elements[i])
  }

  /** The outcomes of a literal-list macro's body are those of its substituted bodies. */
  lemma BodiesAreRows(body: Operand, name: string, elements: seq<Value>, sc: Scope)
    requires SubstitutableAll(body, name, elements) && !sc.nullIsMissing && Bodies(body, [name], elements).Done?
    ensures var rows := seq(|elements|, i requires 0 <= i < |elements| => [elements[i]]);
      BodyOutcomes(LambdaParts(body, [name]), rows, sc) == Outcomes(Bodies(body, [name], elements).result, sc)
  {
    var bodies := Bodies(body, [name], elements).result;
    forall i | 0 <= i < |elements|
      ensures Evaluate(bodies[i], sc) == Evaluate(body, Bind(sc, [name], [elements[i]]))
    {
      SubstituteIsBinding(body, name, elements[i], sc);
      assert Bind(sc, [name], [elements[i]]) == BoundTo(sc, name, elements[i]);
    }
  }

  /** `exists` and `all` over a literal list are the `or` and `and` of their substituted bodies. */
  lemma QuantifierIsFolded(q: Quantifier, elements: seq<Value>, lambda: Operand, sc: Scope)
    requires q != ExistsOne && BodyFirst(lambda) && !sc.nullIsMissing
    requires SubstitutableAll(lambda.operands[0], lambda.operands[1].path[0], elements)
    requires Bodies(lambda.operands[0], lambda.operands[1].path, elements).Done?
    ensures var bodies := Bodies(lambda.operands[0], lambda.operands[1].path, elements).result;
      Evaluate(Expr(Quantify(q), [Literal(List(elements)), lambda]), sc) ==
      Evaluate(Expr(if q == Exists then Or else And, bodies), sc)
  {
    hide Evaluate, QuantifierResult, Substitute, FormOf;
    var name := lambda.operands[1].path[0];
    assert lambda.operands[1].path == [name];
    var bodies := Bodies(lambda.operands[0], [name], elements).result;
    var op := if q == Exists then Or else And;
    LiteralRows(Quantify(q), elements, lambda, sc);
    BodiesAreRows(lambda.operands[0], name, elements, sc);
    QuantifierIsJunction(q, Outcomes(bodies, sc), 0, false);
    EvaluateStep(op, bodies, sc);
    assert Evaluated(op, bodies) == bodies;
  }

  /** Unrolling one `map` over a literal list keeps its value, errors included. */
  lemma MapIsList(elements: seq<Value>, lambda: Operand, sc: Scope)
    requires BodyFirst(lambda) && !sc.nullIsMissing
    requires SubstitutableAll(lambda.operands[0], lambda.operands[1].path[0], elements)
    requires Bodies(lambda.operands[0], lambda.operands[1].path, elements).Done?
    ensures var bodies := Bodies(lambda.operands[0], lambda.operands[1].path, elements).result;
      Evaluate(Expr(MapEach, [Literal(List(elements)), lambda]), sc) == Evaluate(Expr(ListOf, bodies), sc)
  {
    hide Evaluate, Substitute, FormOf;
    var name := lambda.operands[1].path[0];
    assert lambda.operands[1].path == [name];
    var bodies := Bodies(lambda.operands[0], [name], elements).result;
    LiteralRows(MapEach, elements, lambda, sc);
    BodiesAreRows(lambda.operands[0], name, elements, sc);
    EvaluateStep(ListOf, bodies, sc);
    assert Evaluated(ListOf, bodies) == bodies;
  }

  // ----- bodies that every list of strings, and those that not every list, can be substituted into -----

  /** `t + R.attr.s`. */
  function Concatenation(name: string, field: Path): Operand {
    Expr(Arith(Add), [Variable([name]), Variable(field)])
  }

  function Concatenations(elements: seq<Value>, field: Path): (sums: seq<Operand>)
    ensures |sums| == |elements|
    ensures forall i | 0 <= i < |sums| :: sums[i] == Expr(Arith(Add), [Literal(elements[i]), Variable(field)])
  {
    seq(|elements|, i requires 0 <= i < |elements| => Expr(Arith(Add), [Literal(elements[i]), Variable(field)]))
  }

  lemma {:induction false} ConcatenationFolds(name: string, field: Path, elements: seq<Value>)
    requires field[0] != name
    ensures Bodies(Concatenation(name, field), [name], elements) == Done(Concatenations(elements, field))
    decreases |elements|
  {
    hide Substitute;
    if elements == [] {
      assert Concatenations(elements, field) == [];
    } else {
      var first, rest := elements[0], elements[1..];
      ConcatenationFolds(name, field, rest);
      LeafSubstituted(Variable([name]), name, first);
      LeafSubstituted(Variable(field), name, first);
      PairSubstituted(Arith(Add), Variable([name]), Variable(field), Literal(first), Variable(field), name, first);
      assert Concatenations(elements, field) ==
        [Expr(Arith(Add), [Literal(first), Variable(field)])] + Concatenations(rest, field);
    }
  }

  lemma PairSubstituted(op: Operator, x: Operand, y: Operand, a: Operand, b: Operand, name: string, element: Value)
    requires !BindsLambda(op)
    requires Substitute(x, [name], element) == Done(a) && Substitute(y, [name], element) == Done(b)
    ensures Substitute(Expr(op, [x, y]), [name], element) == Done(Expr(op, [a, b]))
  {
    SubstituteCons(y, [], [name], element);
    SubstituteCons(x, [y], [name], element);
    assert [x] + [y] == [x, y] && [y] + [] == [y] && [b] + [] == [b] && [a] + [b] == [a, b];
  }

  lemma UnarySubstituted(op: Operator, x: Operand, a: Operand, name: string, element: Value)
    requires Substitute(x, [name], element) == Done(a)
    ensures Substitute(Expr(op, [x]), [name], element) == Done(Expr(op, [a]))
  {
    SubstituteCons(x, [], [name], element);
    assert [x] + [] == [x] && [a] + [] == [a];
  }

  lemma LeafSubstituted(x: Operand, name: string, element: Value)
    requires x == Variable([name]) || (!x.Expr? && !RootedAt(x, name))
    ensures Substitute(x, [name], element) == Done(if x == Variable([name]) then Literal(element) else x)
  {
  }

  lemma SubstituteCons(x: Operand, rest: seq<Operand>, variable: Path, element: Value)
    ensures var first, others := Substitute(x, variable, element), SubstituteAll(rest, variable, element);
      SubstituteAll([x] + rest, variable, element) ==
      if first.Done? && others.Done? then Done([first.result] + others.result) else Refused
  {
    assert ([x] + rest)[1..] == rest;
  }

  /** The documented `["a", "b"].map(t, t + R.attr.s)`, over a list of any values: the list of the sums. */
  lemma ConcatenationsUnroll(name: string, field: Path, elements: seq<Value>, sc: Scope)
    requires field[0] != name && !sc.nullIsMissing
    ensures var lambda := Expr(Lambda, [Concatenation(name, field), Variable([name])]);
      Evaluate(Expr(MapEach, [Literal(List(elements)), lambda]), sc) ==
      Evaluate(Expr(ListOf, Concatenations(elements, field)), sc)
  {
    hide Evaluate, Bodies;
    var body := Concatenation(name, field);
    ConcatenationFolds(name, field, elements);
    forall i | 0 <= i < |elements| ensures Substitutable(body, name, elements[i]) {
      ConcatenationSubstitutable(name, field, elements[i]);
    }
    MapIsList(elements, Expr(Lambda, [body, Variable([name])]), sc);
  }

  lemma ConcatenationSubstitutable(name: string, field: Path, element: Value)
    ensures Substitutable(Concatenation(name, field), name, element)
  {
    var args := [Variable([name]), Variable(field)];
    assert Evaluated(Arith(Add), args) == args;
    assert forall i | 0 <= i < |args| :: args[i].Variable? && Placed(args[i]);
    assert Placed(Expr(Arith(Add), args));
    assert NodeKept(Arith(Add), args, name, element);
  }

  /** `t % 2`: over a number literal it is a number, over a bound variable CEL has no overload for it. */
  lemma ModuloDiffers(element: D.Double, divisor: D.Double, sc: Scope)
    requires !divisor.IsZero()
    ensures var body := Expr(Arith(Mod), [Variable(["t"]), Literal(Num(divisor))]);
      Substitute(body, ["t"], Num(element)).Done? &&
      Evaluate(Substitute(body, ["t"], Num(element)).result, sc) == Ok(Num(D.Mod(element, divisor))) &&
      Evaluate(body, BoundTo(sc, "t", Num(element))) == Err
  {
    hide Substitute;
    var x, y, a := Variable(["t"]), Literal(Num(divisor)), Literal(Num(element));
    LeafSubstituted(x, "t", Num(element));
    LeafSubstituted(y, "t", Num(element));
    PairSubstituted(Arith(Mod), x, y, a, y, "t", Num(element));
    NumbersEvaluate(Mod, a, y, element, divisor, sc);
    NumbersEvaluate(Mod, x, y, element, divisor, BoundTo(sc, "t", Num(element)));
    assert !AnyVariable([a, y]);
    assert [x, y][0].Variable? && AnyVariable([x, y]);
  }

  lemma LeafForm(op: Arithmetic, x: Operand, y: Operand, bound: set<string>)
    requires !x.Expr? && !y.Expr?
    ensures FormOf(Arith(op), [x, y], bound) ==
      ArithmeticForm(false, None, false, false, AnyVariable([x, y]), IsDocumentField(y, bound))
  {
    assert forall i | 0 <= i < 2 :: !IsIntExpression([x, y][i]) && TemporalKindOf([x, y][i]).None?;
  }

  lemma NumbersEvaluate(op: Arithmetic, x: Operand, y: Operand, a: D.Double, b: D.Double, sc: Scope)
    requires !x.Expr? && !y.Expr? && Evaluate(x, sc) == Ok(Num(a)) && Evaluate(y, sc) == Ok(Num(b))
    ensures FormOf(Arith(op), [x, y], sc.bindings.Keys) ==
      ArithmeticForm(false, None, false, false, AnyVariable([x, y]), IsDocumentField(y, sc.bindings.Keys))
    ensures Evaluate(Expr(Arith(op), [x, y]), sc) ==
      NumberArithmetic(op, FormOf(Arith(op), [x, y], sc.bindings.Keys), a, b)
  {
    hide Evaluate, NumberArithmetic, FormOf;
    EvaluateStep(Arith(op), [x, y], sc);
    LeafForm(op, x, y, sc.bindings.Keys);
    assert Evaluated(Arith(op), [x, y]) == [x, y];
    assert Outcomes([x, y], sc) == [Ok(Num(a)), Ok(Num(b))];
  }
}
