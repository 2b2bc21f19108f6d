/** Equality, the list operations built on it, and the rewrite of `size(except(...))`. */
module ListLaws {
  import opened Wrappers
  import D = Doubles
  import opened Cel
  import opened Plans
  import opened Evaluator
  import opened EvaluatorLaws
  import opened Validate

  // ----- equality -----

  /** Whether no NaN occurs anywhere in a value. */
  predicate NaNFree(v: Value)
    decreases v
  {
    match v
    case Num(d) => !d.NaN?
    case List(items) => forall i | 0 <= i < |items| :: NaNFree(items[i])
    case Map(_, entries) => forall k | k in entries.Keys :: NaNFree(entries[k])
    case _ => true
  }

  /** A value equals itself exactly when it holds no NaN. */
  lemma {:induction false} EqualReflexive(v: Value)
    ensures ValuesEqual(v, v) <==> NaNFree(v)
    decreases v
  {
    if v.List? {
      forall i | 0 <= i < |v.items| ensures ValuesEqual(v.items[i], v.items[i]) <==> NaNFree(v.items[i]) {
        EqualReflexive(v.items[i]);
      }
    } else if v.Map? {
      forall k | k in v.entries.Keys ensures ValuesEqual(v.entries[k], v.entries[k]) <==> NaNFree(v.entries[k]) {
        EqualReflexive(v.entries[k]);
      }
    }
  }

  lemma {:induction false} EqualSymmetric(a: Value, b: Value)
    ensures ValuesEqual(a, b) == ValuesEqual(b, a)
    decreases a
  {
    if a.List? && b.List? && |a.items| == |b.items| {
      forall i | 0 <= i < |a.items| ensures ValuesEqual(a.items[i], b.items[i]) == ValuesEqual(b.items[i], a.items[i]) {
        EqualSymmetric(a.items[i], b.items[i]);
      }
    } else if a.Map? && b.Map? && a.entries.Keys == b.entries.Keys {
      forall k | k in a.entries.Keys
        ensures ValuesEqual(a.entries[k], b.entries[k]) == ValuesEqual(b.entries[k], a.entries[k])
      {
        EqualSymmetric(a.entries[k], b.entries[k]);
      }
    }
  }

  lemma {:induction false} EqualTransitive(a: Value, b: Value, c: Value)
    requires ValuesEqual(a, b) && ValuesEqual(b, c)
    ensures ValuesEqual(a, c)
    decreases a
  {
    if a.List? {
      forall i | 0 <= i < |a.items| ensures ValuesEqual(a.items[i], c.items[i]) {
        EqualTransitive(a.items[i], b.items[i], c.items[i]);
      }
    } else if a.Map? {
      forall k | k in a.entries.Keys ensures ValuesEqual(a.entries[k], c.entries[k]) {
        EqualTransitive(a.entries[k], b.entries[k], c.entries[k]);
      }
    }
  }

  // ----- list operations -----

  lemma {:induction false} SelectIsEmpty(list: seq<Value>, other: seq<Value>, keep: bool)
    ensures Select(list, other, keep) == [] <==> forall i | 0 <= i < |list| :: ListContains(other, list[i]) != keep
    decreases |list|
  {
    if list != [] {
      SelectIsEmpty(list[1..], other, keep);
      assert forall i | 0 < i < |list| :: list[i] == list[1..][i - 1];
    }
  }

  /** The kept and the dropped elements are together the whole list, duplicates included. */
  lemma {:induction false} SelectSplits(list: seq<Value>, other: seq<Value>)
    ensures multiset(Select(list, other, true)) + multiset(Select(list, other, false)) == multiset(list)
    decreases |list|
  {
    if list != [] {
      SelectSplits(list[1..], other);
      assert list == [list[0]] + list[1..];
    }
  }

  /** `isSubset(a, b)` says that `except(a, b)` is empty. */
  lemma SubsetIsEmptyExcept(a: seq<Value>, b: seq<Value>)
    ensures IsSubsetOf(a, b) <==> ExceptOf(a, b) == []
  {
    SelectIsEmpty(a, b, false);
  }

  lemma HasIntersectionSymmetric(a: seq<Value>, b: seq<Value>)
    ensures HasIntersectionOf(a, b) == HasIntersectionOf(b, a)
  {
    forall i, j | 0 <= i < |a| && 0 <= j < |b| ensures ValuesEqual(a[i], b[j]) == ValuesEqual(b[j], a[i]) {
      EqualSymmetric(a[i], b[j]);
    }
  }

  lemma SelectIsIntersection(a: seq<Value>, b: seq<Value>)
    ensures Select(a, b, true) != [] <==> HasIntersectionOf(a, b)
  {
    SelectIsEmpty(a, b, true);
    forall i, j | 0 <= i < |a| && 0 <= j < |b| ensures ValuesEqual(a[i], b[j]) == ValuesEqual(b[j], a[i]) {
      EqualSymmetric(a[i], b[j]);
    }
  }

  /** `hasIntersection` says that `intersect` is non-empty, whichever list comes first and is shorter. */
  lemma IntersectionIsNonEmpty(a: seq<Value>, b: seq<Value>)
    ensures HasIntersectionOf(a, b) <==> IntersectOf(a, b) != []
    ensures HasIntersectionOf(a, b) <==> IntersectOf(b, a) != []
  {
    HasIntersectionSymmetric(a, b);
    SelectIsIntersection(a, b);
    SelectIsIntersection(b, a);
  }

  // ----- size(except(a, b)) -----

  function ExceptSize(collection: Operand, removed: Operand): Operand {
    Expr(Size, [Expr(Except, [collection, removed])])
  }

  /** The lambda `t -> !(t in removed)`. */
  function NotIn(removed: Operand, name: string): Operand {
    Expr(Lambda, [Expr(Not, [Expr(In, [Variable([name]), removed])]), Variable([name])])
  }

  function FilterSize(collection: Operand, removed: Operand, name: string): Operand {
    Expr(Size, [Expr(Filter, [collection, NotIn(removed, name)])])
  }

  const EXCEPT_ELEMENT: string := "__cerbos_except_element"

  /** The rewrite, refused where a removed list that errors could go unnoticed. */
  function BuildExceptCount(except: Operand): Translation<Operand> {
    if !except.Expr? || |except.operands| != 2 then Refused
    else
      var collection, removed := except.operands[0], except.operands[1];
      var nonEmptyLiteral := collection.Literal? && collection.value.List? && collection.value.items != [];
      if removed.Expr? && removed.operator.Lambda? then Refused
      else if !removed.Literal? && !nonEmptyLiteral then Refused
      else Done(FilterSize(collection, removed, EXCEPT_ELEMENT))
  }

  /** The rewrite is taken over a constant to remove, or a list constant with an element; never over a lambda. */
  lemma ExceptCountTaken(collection: Operand, removed: Operand)
    ensures BuildExceptCount(Expr(Except, [collection, removed])).Done? <==>
      match removed
      case Expr(Lambda, _) => false
      case Literal(_) => true
      case _ => exists v, rest :: collection == Literal(List([v] + rest))
    ensures BuildExceptCount(Expr(Except, [collection, removed])).Done? ==>
      BuildExceptCount(Expr(Except, [collection, removed])).result ==
      FilterSize(collection, removed, "__cerbos_except_element")
  {
    if collection.Literal? && collection.value.List? && collection.value.items != [] {
      var items := collection.value.items;
      assert collection == Literal(List([items[0]] + items[1..]));
    }
  }

  ghost predicate ListOrError(o: Outcome) {
    o.Err? || (o.Ok? && o.value.List?)
  }

  lemma {:induction false} FilterIsSelect(items: seq<Value>, outs: seq<Outcome>, removed: seq<Value>,
      filtered: seq<Value>)
    requires |items| == |outs| && forall i | 0 <= i < |items| :: outs[i] == OfBool(!ListContains(removed, items[i]))
    ensures FilterResult(items, outs, filtered) == Ok(List(filtered + ExceptOf(items, removed)))
    decreases |items|
  {
    if items == [] {
      assert filtered + ExceptOf(items, removed) == filtered;
    } else {
      var kept := if ListContains(removed, items[0]) then [] else [items[0]];
      FilterIsSelect(items[1..], outs[1..], removed, filtered + kept);
      assert filtered + kept + ExceptOf(items[1..], removed) == filtered + (kept + ExceptOf(items[1..], removed));
      assert filtered + kept == if ListContains(removed, items[0]) then filtered else filtered + [items[0]];
    }
  }

  lemma SizeStep(list: Operand, sc: Scope)
    ensures var o := Evaluate(list, sc);
      Evaluate(Expr(Size, [list]), sc) == if o.Ok? then SizeOf(o.value) else o
  {
    hide Evaluate;
    UnaryStep(Size, list, sc);
  }

  lemma ExceptStep(collection: Operand, removed: Operand, sc: Scope)
    requires ListOrError(Evaluate(collection, sc)) && ListOrError(Evaluate(removed, sc))
    ensures var a, b := Evaluate(collection, sc), Evaluate(removed, sc);
      Evaluate(Expr(Except, [collection, removed]), sc) ==
      if a.Ok? && b.Ok? then Ok(List(ExceptOf(a.value.items, b.value.items))) else Err
  {
    hide Evaluate, ApplyTwo, FormOf;
    BinaryStep(Except, collection, removed, sc);
    if Evaluate(collection, sc).Ok? && Evaluate(removed, sc).Ok? {
      ExceptApplies(Evaluate(collection, sc).value, Evaluate(removed, sc).value,
        FormOf(Except, [collection, removed], sc.bindings.Keys), sc.Env());
    }
  }

  lemma ExceptApplies(a: Value, b: Value, form: Form, settings: Settings)
    requires a.List? && b.List?
    ensures ApplyTwo(Except, form, settings, a, b) == Ok(List(ExceptOf(a.items, b.items)))
  {
    hide ExceptOf, CompareValues, ArithmeticOf, StringTestOf, IndexOfCollection, RelationOf;
  }

  /** One element's condition: its absence from the removed list, or that list's error. */
  lemma NotInStep(removed: Operand, name: string, v: Value, sc: Scope)
    requires ListOrError(Evaluate(removed, sc))
    requires forall path: Path | Free(path, removed) :: path[0] != name
    ensures var b := Evaluate(removed, sc);
      Evaluate(NotIn(removed, name).operands[0], sc.(bindings := sc.bindings[name := v])) ==
      if b.Ok? then OfBool(!ListContains(b.value.items, v)) else Err
  {
    hide ListContains, CompareValues, ArithmeticOf, StringTestOf, IndexOfCollection, RelationOf;
    var inner := sc.(bindings := sc.bindings[name := v]);
    FreshBinding(removed, sc, name, v);
    UnaryStep(Not, Expr(In, [Variable([name]), removed]), inner);
    BinaryStep(In, Variable([name]), removed, inner);
  }

  /** Whether a condition over an element is its absence from the removed list, or that list's error. */
  ghost predicate IsAbsence(body: Operand, name: string, v: Value, removed: Outcome, sc: Scope)
    requires ListOrError(removed)
  {
    Evaluate(body, sc.(bindings := sc.bindings[name := v])) ==
    if removed.Ok? then OfBool(!ListContains(removed.value.items, v)) else Err
  }

  /** The filter over a list's elements: those absent from the removed list, or its error. */
  lemma FilteredRows(items: seq<Value>, body: Operand, name: string, removed: Outcome, sc: Scope)
    requires ListOrError(removed)
    requires forall i | 0 <= i < |items| :: IsAbsence(body, name, items[i], removed, sc)
    ensures var parts := LambdaParts(body, [name]);
      var rows := Rows(List(items), 1).value;
      MacroResult(Filter, rows, BodyOutcomes(parts, rows, sc)) ==
      if removed.Ok? then Ok(List(ExceptOf(items, removed.value.items)))
      else if items == [] then Ok(List([])) else Err
  {
    hide Evaluate, ExceptOf;
    var parts := LambdaParts(body, [name]);
    var rows := Rows(List(items), 1).value;
    var outs := BodyOutcomes(parts, rows, sc);
    forall i | 0 <= i < |items|
      ensures outs[i] == if removed.Ok? then OfBool(!ListContains(removed.value.items, items[i])) else Err
    {
      assert IsAbsence(body, name, items[i], removed, sc);
      assert Bind(sc, [name], rows[i]) == sc.(bindings := sc.bindings[name := items[i]]);
    }
    assert seq(|rows|, i requires 0 <= i < |rows| => rows[i][0]) == items;
    if removed.Ok? {
      FilterIsSelect(items, outs, removed.value.items, []);
      assert [] + ExceptOf(items, removed.value.items) == ExceptOf(items, removed.value.items);
    } else if items != [] {
      assert outs[0] == Err;
    }
  }

  lemma FilterStep(collection: Operand, removed: Operand, name: string, sc: Scope)
    requires ListOrError(Evaluate(collection, sc)) && ListOrError(Evaluate(removed, sc))
    requires forall path: Path | Free(path, removed) :: path[0] != name
    ensures var a, b := Evaluate(collection, sc), Evaluate(removed, sc);
      Evaluate(Expr(Filter, [collection, NotIn(removed, name)]), sc) ==
      if a.Ok? && b.Ok? then Ok(List(ExceptOf(a.value.items, b.value.items)))
      else if a == Ok(List([])) then a
      else Err
  {
    var lambda := NotIn(removed, name);
    var parts := LambdaParts(lambda.operands[0], [name]);
    assert LambdaComponents(lambda) == Some(parts);
    var a := Evaluate(collection, sc);
    if a.Ok? {
      forall i | 0 <= i < |a.value.items|
        ensures IsAbsence(parts.body, name, a.value.items[i], Evaluate(removed, sc), sc)
      {
        NotInStep(removed, name, a.value.items[i], sc);
      }
      FilteredRows(a.value.items, parts.body, name, Evaluate(removed, sc), sc);
    }
    FilterOver(collection, lambda, parts, sc);
  }

  /** A filter whose collection is a list or an error. */
  lemma FilterOver(collection: Operand, lambda: Operand, parts: LambdaParts, sc: Scope)
    requires ListOrError(Evaluate(collection, sc))
    requires LambdaComponents(lambda) == Some(parts) && |parts.variables| == 1
    ensures var a := Evaluate(collection, sc);
      Evaluate(Expr(Filter, [collection, lambda]), sc) ==
      if a.Err? then Err
      else
        var rows := Rows(a.value, 1).value;
        MacroResult(Filter, rows, BodyOutcomes(parts, rows, sc))
  {
    EvaluateStep(Filter, [collection, lambda], sc);
    assert Evaluated(Filter, [collection, lambda]) == [collection];
  }

  /**
    Over list-or-error operands and a fresh name, the two sizes agree unless the removed list errors
    while there is nothing to remove from.
   */
  lemma ExceptIsFilter(collection: Operand, removed: Operand, name: string, sc: Scope)
    requires ListOrError(Evaluate(collection, sc)) && ListOrError(Evaluate(removed, sc))
    requires forall path: Path | Free(path, removed) :: path[0] != name
    ensures Evaluate(ExceptSize(collection, removed), sc) == Evaluate(FilterSize(collection, removed, name), sc) <==>
      !(Evaluate(collection, sc) == Ok(List([])) && Evaluate(removed, sc).Err?)
  {
    ExceptStep(collection, removed, sc);
    FilterStep(collection, removed, name, sc);
    SizeStep(Expr(Except, [collection, removed]), sc);
    SizeStep(Expr(Filter, [collection, NotIn(removed, name)]), sc);
  }

  /** Where the lowering accepts the rewrite, it is exact: constant `removed`, or a non-empty literal. */
  lemma ExceptCountIsExact(collection: Operand, removed: Operand, sc: Scope)
    requires BuildExceptCount(Expr(Except, [collection, removed])).Done?
    requires ListOrError(Evaluate(collection, sc)) && ListOrError(Evaluate(removed, sc))
    requires forall path: Path | Free(path, removed) :: path[0] != EXCEPT_ELEMENT
    ensures Evaluate(BuildExceptCount(Expr(Except, [collection, removed])).result, sc) ==
      Evaluate(ExceptSize(collection, removed), sc)
  {
    ExceptIsFilter(collection, removed, EXCEPT_ELEMENT, sc);
  }

  /** What the refusal prevents: an empty stored list, and a removed list that is a missing attribute. */
  lemma RefusedExceptDiffers(host: Host)
    ensures var sc := Scope(Map(["a"], map["a" := List([])]), path => None, map[], false, host);
      BuildExceptCount(Expr(Except, [Variable(["a"]), Variable(["b"])])).Refused? &&
      Evaluate(ExceptSize(Variable(["a"]), Variable(["b"])), sc) == Err &&
      Evaluate(FilterSize(Variable(["a"]), Variable(["b"]), EXCEPT_ELEMENT), sc) == Ok(Num(D.FromInt(0)))
  {
    var sc := Scope(Map(["a"], map["a" := List([])]), path => None, map[], false, host);
    var a, b := Variable(["a"]), Variable(["b"]);
    assert Evaluate(a, sc) == Ok(List([])) && Evaluate(b, sc) == Err;
    ExceptStep(a, b, sc);
    FilterStep(a, b, EXCEPT_ELEMENT, sc);
    SizeStep(Expr(Except, [a, b]), sc);
    SizeStep(Expr(Filter, [a, NotIn(b, EXCEPT_ELEMENT)]), sc);
  }
}
