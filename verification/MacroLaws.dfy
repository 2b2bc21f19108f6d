/** What the macros and the literals answer, row by row and entry by entry. */
module MacroLaws {
  import opened Wrappers
  import D = Doubles
  import opened Cel
  import opened Plans
  import opened Evaluator
  import opened EvaluatorLaws
  import opened OperatorLaws

  // ----- lambdas -----

  predicate Bare(e: Operand, name: string) {
    e == Variable([name])
  }

  /** A body and the names it binds: after the body, or for one name before a body that is no bare name. */
  ghost predicate IsLambda(lambda: Operand, body: Operand, names: seq<string>) {
    lambda.Expr? && lambda.operator.Lambda? &&
    var args := lambda.operands;
    (|names| == 2 && |args| == 3 && args[0] == body && Bare(args[1], names[0]) && Bare(args[2], names[1])) ||
    (|names| == 1 && |args| == 2 &&
      ((args[0] == body && Bare(args[1], names[0])) ||
       (args[1] == body && Bare(args[0], names[0]) && !(exists name :: Bare(body, name)))))
  }

  lemma LambdaRead(lambda: Operand, body: Operand, names: seq<string>)
    ensures LambdaComponents(lambda) == Some(LambdaParts(body, names)) <==> IsLambda(lambda, body, names)
  {
    if lambda.Expr? {
      forall i | 0 <= i < |lambda.operands| ensures BareIs(lambda.operands[i]) {
        BareName(lambda.operands[i]);
      }
      BareName(body);
    }
    assert |names| == 1 ==> names == [names[0]];
    assert |names| == 2 ==> names == [names[0], names[1]];
  }

  ghost predicate BareIs(e: Operand) {
    (LooksLikeLambdaVariable(e) <==> exists name :: Bare(e, name)) &&
    (LooksLikeLambdaVariable(e) ==> forall name :: Bare(e, name) <==> name == e.path[0])
  }

  lemma BareName(e: Operand)
    ensures BareIs(e)
  {
    if LooksLikeLambdaVariable(e) {
      assert e.path == [e.path[0]];
      assert Bare(e, e.path[0]);
    }
  }

  // ----- rows -----

  function Rowed(v: Value): nat {
    if v.List? then |v.items| else if v.Map? then |v.keys| else 0
  }

  /** A map lists only keys it has. */
  predicate Listed(v: Value) {
    v.Map? ==> forall k | k in v.keys :: k in v.entries
  }

  /** The scope of a row: one name is the element or key, two are the index or key and what it leads to. */
  function RowScope(v: Value, names: seq<string>, i: nat, sc: Scope): Scope
    requires 1 <= |names| <= 2 && i < Rowed(v) && Listed(v)
  {
    var place := if v.List? then Num(D.FromReal(i as real)) else Str(v.keys[i]);
    var content := if v.List? then v.items[i] else v.entries[v.keys[i]];
    sc.(bindings :=
      if |names| == 2 then sc.bindings[names[0] := place][names[1] := content]
      else sc.bindings[names[0] := if v.List? then content else place])
  }

  function RowOutcome(v: Value, body: Operand, names: seq<string>, i: nat, sc: Scope): Outcome
    requires 1 <= |names| <= 2 && i < Rowed(v) && Listed(v)
  {
    Evaluate(body, RowScope(v, names, i, sc))
  }

  function RowOutcomes(v: Value, body: Operand, names: seq<string>, sc: Scope): (outs: seq<Outcome>)
    requires 1 <= |names| <= 2 && Listed(v)
    ensures |outs| == Rowed(v) && forall i | 0 <= i < |outs| :: outs[i] == RowOutcome(v, body, names, i, sc)
  {
    seq(Rowed(v), i requires 0 <= i < Rowed(v) => RowOutcome(v, body, names, i, sc))
  }

  lemma RowsOutcomes(v: Value, body: Operand, names: seq<string>, sc: Scope)
    requires 1 <= |names| <= 2 && Listed(v)
    ensures Rows(v, |names|).Some? <==> v.List? || v.Map?
    ensures v.List? || v.Map? ==>
      BodyOutcomes(LambdaParts(body, names), Rows(v, |names|).value, sc) == RowOutcomes(v, body, names, sc)
  {
    hide Evaluate;
    if v.List? || v.Map? {
      var rows := Rows(v, |names|).value;
      assert |rows| == Rowed(v);
      forall i | 0 <= i < |rows| ensures Bind(sc, names, rows[i]) == RowScope(v, names, i, sc) {
        RowBound(v, names, i, sc);
      }
    }
  }

  lemma RowBound(v: Value, names: seq<string>, i: nat, sc: Scope)
    requires 1 <= |names| <= 2 && i < Rowed(v) && Listed(v)
    ensures Bind(sc, names, Rows(v, |names|).value[i]) == RowScope(v, names, i, sc)
  {
  }

  /** A macro over a value with a lambda it takes is its result over the rows. */
  lemma MacroRuns(op: Operator, collection: Operand, lambda: Operand, v: Value, body: Operand, names: seq<string>,
      sc: Scope)
    requires op.Macro() && (!op.Quantify? ==> |names| == 1)
    requires Has(collection, v, sc) && IsLambda(lambda, body, names) && Listed(v)
    ensures var r := Evaluate(Binary(op, collection, lambda), sc);
      if v.List? || v.Map? then
        Rows(v, |names|).Some? && |Rows(v, |names|).value| == Rowed(v) &&
        r == MacroResult(op, Rows(v, |names|).value, RowOutcomes(v, body, names, sc))
      else r == Err
  {
    hide Evaluate, MacroResult, Rows, BodyOutcomes, RowOutcomes;
    var args := [collection, lambda];
    EvaluateStep(op, args, sc);
    LambdaRead(lambda, body, names);
    var outs := Outcomes(Evaluated(op, args), sc);
    assert Evaluated(op, args) == [collection] && outs == [Ok(v)];
    RowsOutcomes(v, body, names, sc);
  }

  /** `filter` and `map` bind one name: a lambda of two, which validation refuses, raises an exception. */
  lemma TwoNamesThrow(op: Operator, collection: Operand, lambda: Operand, v: Value, body: Operand,
      names: seq<string>, sc: Scope)
    requires (op.Filter? || op.MapEach?) && |names| == 2 && (v.List? || v.Map?)
    requires Has(collection, v, sc) && IsLambda(lambda, body, names)
    ensures Evaluate(Binary(op, collection, lambda), sc) == Throw
  {
    hide Evaluate, MacroResult, BodyOutcomes;
    var args := [collection, lambda];
    EvaluateStep(op, args, sc);
    LambdaRead(lambda, body, names);
    assert Evaluated(op, args) == [collection] && Outcomes(Evaluated(op, args), sc) == [Ok(v)];
  }

  // ----- quantifiers -----

  ghost predicate Answers(outs: seq<Outcome>, i: int, b: bool) {
    0 <= i < |outs| && outs[i] == OfBool(b)
  }

  ghost predicate Sometimes(outs: seq<Outcome>, b: bool) {
    exists i :: Answers(outs, i, b)
  }

  ghost predicate Always(outs: seq<Outcome>, b: bool) {
    forall i | 0 <= i < |outs| :: outs[i] == OfBool(b)
  }

  /** Every outcome is a boolean. */
  ghost predicate Decided(outs: seq<Outcome>) {
    forall i | 0 <= i < |outs| :: outs[i].Ok? && outs[i].value.Bool?
  }

  ghost predicate Once(outs: seq<Outcome>) {
    exists i :: Answers(outs, i, true) && forall j :: Answers(outs, j, true) ==> j == i
  }

  lemma SometimesStep(outs: seq<Outcome>, b: bool)
    requires outs != []
    ensures Sometimes(outs, b) <==> outs[0] == OfBool(b) || Sometimes(outs[1..], b)
    ensures Always(outs, b) <==> outs[0] == OfBool(b) && Always(outs[1..], b)
    ensures Decided(outs) <==> outs[0].Ok? && outs[0].value.Bool? && Decided(outs[1..])
  {
    var rest := outs[1..];
    assert forall i | 0 < i < |outs| :: outs[i] == rest[i - 1];
    if Sometimes(outs, b) {
      var i :| Answers(outs, i, b);
      assert i > 0 ==> Answers(rest, i - 1, b);
    }
    if Sometimes(rest, b) {
      var i :| Answers(rest, i, b);
      assert Answers(outs, i + 1, b);
    }
    assert outs[0] == OfBool(b) ==> Answers(outs, 0, b);
  }

  lemma {:induction false} ExistsAnswers(outs: seq<Outcome>, trueCount: nat, sawError: bool)
    requires Quiet(outs)
    ensures QuantifierResult(Exists, outs, trueCount, sawError) ==
      if Sometimes(outs, true) then OfBool(true)
      else if Always(outs, false) && !sawError then OfBool(false) else Err
    decreases |outs|
  {
    hide Sometimes, Always;
    if outs == [] {
      Nothing();
    } else {
      SometimesStep(outs, true);
      SometimesStep(outs, false);
      ExistsAnswers(outs[1..], trueCount, true);
      ExistsAnswers(outs[1..], trueCount, sawError);
    }
  }

  lemma {:induction false} AllAnswers(outs: seq<Outcome>, trueCount: nat, sawError: bool)
    requires Quiet(outs)
    ensures QuantifierResult(All, outs, trueCount, sawError) ==
      if Sometimes(outs, false) then OfBool(false)
      else if Always(outs, true) && !sawError then OfBool(true) else Err
    decreases |outs|
  {
    hide Sometimes, Always;
    if outs == [] {
      Nothing();
    } else {
      SometimesStep(outs, true);
      SometimesStep(outs, false);
      AllAnswers(outs[1..], trueCount, true);
      AllAnswers(outs[1..], trueCount + 1, true);
      AllAnswers(outs[1..], trueCount + 1, sawError);
    }
  }

  lemma Nothing()
    ensures forall b :: !Sometimes([], b) && Always([], b)
    ensures Decided([])
  {
  }

  /** How many outcomes are true. */
  ghost function Trues(outs: seq<Outcome>): nat {
    if outs == [] then 0 else (if outs[0] == OfBool(true) then 1 else 0) + Trues(outs[1..])
  }

  lemma {:induction false} CountedOnce(outs: seq<Outcome>)
    ensures Trues(outs) == 0 <==> !Sometimes(outs, true)
    ensures Trues(outs) == 1 <==> Once(outs)
    decreases |outs|
  {
    hide Sometimes;
    if outs == [] {
      Nothing();
    } else {
      SometimesStep(outs, true);
      CountedOnce(outs[1..]);
      OnceStep(outs);
    }
  }

  lemma OnceStep(outs: seq<Outcome>)
    requires outs != []
    ensures Once(outs) <==>
      if outs[0] == OfBool(true) then !Sometimes(outs[1..], true) else Once(outs[1..])
  {
    var rest := outs[1..];
    assert forall i | 0 < i < |outs| :: outs[i] == rest[i - 1];
    assert forall i :: Answers(rest, i, true) ==> Answers(outs, i + 1, true);
    assert forall i :: i > 0 && Answers(outs, i, true) ==> Answers(rest, i - 1, true);
    if outs[0] == OfBool(true) {
      assert Answers(outs, 0, true);
    } else if Once(rest) {
      var i :| Answers(rest, i, true) && forall j :: Answers(rest, j, true) ==> j == i;
      assert Answers(outs, i + 1, true);
    }
    if Once(outs) && outs[0] != OfBool(true) {
      var i :| Answers(outs, i, true) && forall j :: Answers(outs, j, true) ==> j == i;
      assert Answers(rest, i - 1, true);
    }
  }

  lemma {:induction false} OneAnswers(outs: seq<Outcome>, trueCount: nat, sawError: bool)
    requires Quiet(outs)
    ensures QuantifierResult(ExistsOne, outs, trueCount, sawError) ==
      if sawError || !Decided(outs) then Err else OfBool(trueCount + Trues(outs) == 1)
    decreases |outs|
  {
    hide Decided;
    if outs == [] {
      Nothing();
    } else {
      SometimesStep(outs, true);
      OneAnswers(outs[1..], trueCount, true);
      OneAnswers(outs[1..], trueCount, sawError);
      OneAnswers(outs[1..], trueCount + 1, sawError);
    }
  }

  /**
    The quantifiers over a list's or map's rows, none of which raises an exception: a deciding row
    outweighs any error, an error outweighs the rest, and `exists_one` takes no error at all.
   */
  lemma QuantifierAnswers(q: Quantifier, collection: Operand, lambda: Operand, v: Value, body: Operand,
      names: seq<string>, sc: Scope)
    requires Has(collection, v, sc) && IsLambda(lambda, body, names) && Listed(v)
    requires Quiet(RowOutcomes(v, body, names, sc))
    ensures var r, outs := Evaluate(Binary(Quantify(q), collection, lambda), sc), RowOutcomes(v, body, names, sc);
      r ==
      if !v.List? && !v.Map? then Err
      else match q
        case Exists =>
          if Sometimes(outs, true) then OfBool(true) else if Always(outs, false) then OfBool(false) else Err
        case All =>
          if Sometimes(outs, false) then OfBool(false) else if Always(outs, true) then OfBool(true) else Err
        case ExistsOne => if Decided(outs) then OfBool(Once(outs)) else Err
  {
    hide Evaluate, Sometimes, Always, Decided, Once, RowOutcomes, Rows, QuantifierResult;
    MacroRuns(Quantify(q), collection, lambda, v, body, names, sc);
    var outs := RowOutcomes(v, body, names, sc);
    match q
    case Exists => ExistsAnswers(outs, 0, false);
    case All => AllAnswers(outs, 0, false);
    case ExistsOne =>
      OneAnswers(outs, 0, false);
      CountedOnce(outs);
  }

  // ----- filter and map -----

  /** A row's element or key. */
  function Item(v: Value, i: nat): Value
    requires i < Rowed(v)
  {
    if v.List? then v.items[i] else Str(v.keys[i])
  }

  /** The elements or keys of the first `n` rows whose condition is true. */
  ghost function Kept(v: Value, outs: seq<Outcome>, n: nat): seq<Value>
    requires n <= Rowed(v) == |outs|
  {
    if n == 0 then []
    else Kept(v, outs, n - 1) + if outs[n - 1] == OfBool(true) then [Item(v, n - 1)] else []
  }

  lemma NoneKept(v: Value, outs: seq<Outcome>)
    requires Rowed(v) == |outs|
    ensures Kept(v, outs, 0) == []
  {
  }

  lemma {:induction false} FilterKeeps(v: Value, items: seq<Value>, outs: seq<Outcome>, n: nat)
    requires n <= |items| == |outs| == Rowed(v) && forall i | 0 <= i < |items| :: items[i] == Item(v, i)
    requires Decided(outs)
    ensures FilterResult(items[n..], outs[n..], Kept(v, outs, n)) == Ok(List(Kept(v, outs, |outs|)))
    decreases |outs| - n
  {
    if n < |outs| {
      assert items[n..][1..] == items[n + 1..] && outs[n..][1..] == outs[n + 1..];
      FilterKeeps(v, items, outs, n + 1);
      assert Kept(v, outs, n) + [] == Kept(v, outs, n);
    }
  }

  lemma {:induction false} FilterFails(items: seq<Value>, outs: seq<Outcome>, filtered: seq<Value>)
    requires |items| == |outs| && Quiet(outs) && !Decided(outs)
    ensures FilterResult(items, outs, filtered) == Err
    decreases |outs|
  {
    SometimesStep(outs, true);
    if outs[0].Ok? && outs[0].value.Bool? {
      FilterFails(items[1..], outs[1..], filtered);
      FilterFails(items[1..], outs[1..], filtered + [items[0]]);
    }
  }

  /** `filter()` keeps in order the elements, or keys, whose row is true; a row that is no boolean is an error. */
  lemma FilterAnswers(collection: Operand, lambda: Operand, v: Value, body: Operand, name: string, sc: Scope)
    requires Has(collection, v, sc) && IsLambda(lambda, body, [name]) && Listed(v)
    requires Quiet(RowOutcomes(v, body, [name], sc))
    ensures var outs := RowOutcomes(v, body, [name], sc);
      Evaluate(Binary(Filter, collection, lambda), sc) ==
      if (v.List? || v.Map?) && Decided(outs) then Ok(List(Kept(v, outs, |outs|))) else Err
  {
    hide Evaluate, RowOutcomes, Decided, Kept, FilterResult;
    MacroRuns(Filter, collection, lambda, v, body, [name], sc);
    var outs := RowOutcomes(v, body, [name], sc);
    if v.List? || v.Map? {
      var rows := Rows(v, 1).value;
      var items := seq(|rows|, i requires 0 <= i < |rows| => rows[i][0]);
      if Decided(outs) {
        FilterKeeps(v, items, outs, 0);
        assert items[0..] == items && outs[0..] == outs;
        NoneKept(v, outs);
      } else {
        FilterFails(items, outs, []);
      }
    }
  }

  /** Whether `r` is the first outcome that is no value. */
  ghost predicate FailsFirst(outs: seq<Outcome>, i: int, r: Outcome) {
    0 <= i < |outs| && outs[i] == r && !r.Ok? && forall j | 0 <= j < i :: outs[j].Ok?
  }

  /** A list of every outcome's value in order, or the first failure. */
  ghost predicate Gathers(outs: seq<Outcome>, r: Outcome) {
    (r.Ok? && r.value.List? && |r.value.items| == |outs| &&
     forall i | 0 <= i < |outs| :: outs[i] == Ok(r.value.items[i])) ||
    exists i :: FailsFirst(outs, i, r)
  }

  lemma {:induction false} CollectGathers(outs: seq<Outcome>, n: nat, elements: seq<Value>)
    requires n == |elements| <= |outs| && forall i | 0 <= i < n :: outs[i] == Ok(elements[i])
    ensures Gathers(outs, Collect(outs[n..], elements))
    decreases |outs| - n
  {
    if n < |outs| {
      if outs[n].Ok? {
        assert outs[n..][1..] == outs[n + 1..];
        CollectGathers(outs, n + 1, elements + [outs[n].value]);
      } else {
        assert FailsFirst(outs, n, outs[n]);
      }
    }
  }

  /** `map()` gathers its rows. */
  lemma MapAnswers(collection: Operand, lambda: Operand, v: Value, body: Operand, name: string, sc: Scope)
    requires Has(collection, v, sc) && IsLambda(lambda, body, [name]) && Listed(v)
    ensures var r := Evaluate(Binary(MapEach, collection, lambda), sc);
      if v.List? || v.Map? then Gathers(RowOutcomes(v, body, [name], sc), r) else r == Err
  {
    hide Evaluate, RowOutcomes, Gathers, Rows;
    MacroRuns(MapEach, collection, lambda, v, body, [name], sc);
    var outs := RowOutcomes(v, body, [name], sc);
    CollectGathers(outs, 0, []);
    assert outs[0..] == outs;
  }

  /** A list literal gathers its elements. */
  lemma ListAnswers(args: seq<Operand>, sc: Scope)
    ensures Gathers(Outcomes(args, sc), Evaluate(Expr(ListOf, args), sc))
  {
    hide Evaluate, Gathers;
    EvaluateStep(ListOf, args, sc);
    assert Evaluated(ListOf, args) == args;
    var outs := Outcomes(args, sc);
    CollectGathers(outs, 0, []);
    assert outs[0..] == outs;
  }

  // ----- map literals -----

  function Entry(key: string, value: Operand): Operand {
    Expr(SetField, [Literal(Str(key)), value])
  }

  predicate Repeats(keys: seq<string>, i: int) {
    0 <= i < |keys| && keys[i] in keys[..i]
  }

  /** The entry that ends the literal: the first whose value fails or whose key came before. */
  ghost predicate Ends(keys: seq<string>, outs: seq<Outcome>, i: int, r: Outcome)
    requires |keys| == |outs|
  {
    0 <= i < |outs| && (forall j | 0 <= j < i :: outs[j].Ok? && !Repeats(keys, j)) &&
    if !outs[i].Ok? then r == outs[i] else Repeats(keys, i) && r == Err
  }

  /** The map of the entries in their order, or what the first offending entry makes of it. */
  ghost predicate Maps(keys: seq<string>, outs: seq<Outcome>, r: Outcome)
    requires |keys| == |outs|
  {
    (r.Ok? && r.value.Map? && r.value.keys == keys && (forall i | 0 <= i < |keys| :: !Repeats(keys, i)) &&
     r.value.entries.Keys == (set k | k in keys) &&
     forall i | 0 <= i < |outs| :: outs[i] == Ok(r.value.entries[keys[i]])) ||
    exists i :: Ends(keys, outs, i, r)
  }

  predicate Built(keys: seq<string>, outs: seq<Outcome>, n: nat, entries: Bindings)
    requires n <= |keys| == |outs|
  {
    entries.Keys == (set k | k in keys[..n]) &&
    (forall i | 0 <= i < n :: keys[i] in entries && outs[i] == Ok(entries[keys[i]]) && !Repeats(keys, i))
  }

  lemma {:induction false} EntriesMap(keys: seq<string>, outs: seq<Outcome>, n: nat, entries: Bindings)
    requires n <= |keys| == |outs| && Built(keys, outs, n, entries)
    ensures var named := seq(|keys|, i requires 0 <= i < |keys| => Some(keys[i]));
      Maps(keys, outs, Entries(named[n..], outs[n..], keys[..n], entries))
    decreases |outs| - n
  {
    var named := seq(|keys|, i requires 0 <= i < |keys| => Some(keys[i]));
    if n < |outs| {
      assert named[n..][1..] == named[n + 1..] && outs[n..][1..] == outs[n + 1..];
      var r := Entries(named[n..], outs[n..], keys[..n], entries);
      if !outs[n].Ok? || keys[n] in entries {
        assert Ends(keys, outs, n, r);
      } else {
        assert keys[..n + 1] == keys[..n] + [keys[n]];
        EntriesMap(keys, outs, n + 1, entries[keys[n] := outs[n].value]);
      }
    } else {
      assert keys[..n] == keys;
    }
  }

  /** A map literal of distinct keys is their map; a repeated key, like a failing value, ends it. */
  lemma StructAnswers(keys: seq<string>, values: seq<Operand>, sc: Scope)
    requires |keys| == |values|
    ensures Maps(keys, Outcomes(values, sc), Evaluate(Expr(Struct, Literals(keys, values)), sc))
  {
    hide Evaluate, Maps, Literals;
    var named := seq(|keys|, i requires 0 <= i < |keys| => Some(keys[i]));
    var outs := Outcomes(values, sc);
    StructStep(keys, values, sc);
    EntriesMap(keys, outs, 0, map[]);
    assert named[0..] == named && outs[0..] == outs && keys[..0] == [];
  }

  function Literals(keys: seq<string>, values: seq<Operand>): (args: seq<Operand>)
    requires |keys| == |values|
  {
    seq(|keys|, i requires 0 <= i < |keys| => Entry(keys[i], values[i]))
  }

  lemma StructStep(keys: seq<string>, values: seq<Operand>, sc: Scope)
    requires |keys| == |values|
    ensures var named := seq(|keys|, i requires 0 <= i < |keys| => Some(keys[i]));
      Evaluate(Expr(Struct, Literals(keys, values)), sc) == Entries(named, Outcomes(values, sc), [], map[])
  {
    hide Evaluate, Entries;
    var args := Literals(keys, values);
    EvaluateStep(Struct, args, sc);
    assert Evaluated(Struct, args) == values;
    assert EntryKeys(args) == seq(|keys|, i requires 0 <= i < |keys| => Some(keys[i]));
  }
}
