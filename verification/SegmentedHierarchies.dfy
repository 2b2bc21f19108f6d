/** Hierarchy relations between paths listed segment by segment, some of them columns. */
module SegmentedHierarchies {
  import opened Wrappers
  import opened Cel
  import opened Plans
  import opened Evaluator
  import opened EvaluatorLaws
  import opened ThreeValued

  datatype Segment = Constant(value: string) | Column(name: string)

  /** A row's string columns; `None` is NULL. */
  type Row = string -> Option<string>

  datatype Core = Fixed(truth: bool) | Equalities(pairs: seq<(Segment, Segment)>)

  /** `case when <a column> is null or ... then null else <core> end`. */
  datatype Filter = Guarded(nullable: seq<string>, core: Core)

  function SegmentValue(s: Segment, row: Row): Option<string> {
    match s
    case Constant(value) => Some(value)
    case Column(name) => row(name)
  }

  function PairHolds(pair: (Segment, Segment), row: Row): Tri {
    var a, b := SegmentValue(pair.0, row), SegmentValue(pair.1, row);
    if a.None? || b.None? then Unknown else OfTruth(a.value == b.value)
  }

  function CoreHolds(core: Core, row: Row): Tri {
    match core
    case Fixed(truth) => OfTruth(truth)
    case Equalities(pairs) => AllOf(seq(|pairs|, i requires 0 <= i < |pairs| => PairHolds(pairs[i], row)))
  }

  function Holds(f: Filter, row: Row): Tri {
    if AnyNull(f.nullable, row) then Unknown else CoreHolds(f.core, row)
  }

  predicate AnyNull(names: seq<string>, row: Row) {
    exists i | 0 <= i < |names| :: row(names[i]).None?
  }

  // ----- the lowering -----

  function Min(a: nat, b: nat): nat {
    if a < b then a else b
  }

  /** How many leading segments the relation compares; none when the lengths already refute it. */
  function SharedPrefixLength(relation: Relation, left: nat, right: nat): Option<nat> {
    match relation
    case AncestorOf => if left < right then Some(left) else None
    case DescendentOf => if left > right then Some(right) else None
    case Overlaps => Some(Min(left, right))
  }

  predicate BothConstant(a: Segment, b: Segment) {
    a.Constant? && b.Constant?
  }

  /** The first `n` pairs that SQL must compare. */
  function Compared(left: seq<Segment>, right: seq<Segment>, n: nat): seq<(Segment, Segment)>
    requires n <= |left| && n <= |right|
  {
    if n == 0 then []
    else
      Compared(left, right, n - 1) +
      if BothConstant(left[n - 1], right[n - 1]) then [] else [(left[n - 1], right[n - 1])]
  }

  predicate Contradicted(left: seq<Segment>, right: seq<Segment>, n: nat)
    requires n <= |left| && n <= |right|
  {
    exists i | 0 <= i < n :: BothConstant(left[i], right[i]) && left[i] != right[i]
  }

  function ColumnNames(segments: seq<Segment>): seq<string> {
    if segments == [] then []
    else (if segments[0].Column? then [segments[0].name] else []) + ColumnNames(segments[1..])
  }

  function Build(relation: Relation, left: seq<Segment>, right: seq<Segment>): Filter {
    var shared := SharedPrefixLength(relation, |left|, |right|);
    var core :=
      if shared.None? || Contradicted(left, right, shared.value) then Fixed(false)
      else if Compared(left, right, shared.value) == [] then Fixed(true)
      else Equalities(Compared(left, right, shared.value));
    Guarded(ColumnNames(left + right), core)
  }

  /** The source's construction, which collects equalities and a contradiction in one pass. */
  method BuildSegmentedHierarchyFilter(relation: Relation, left: seq<Segment>, right: seq<Segment>)
      returns (filter: Filter)
    ensures filter == Build(relation, left, right)
  {
    var shared := SharedPrefixLength(relation, |left|, |right|);
    var core := Fixed(false);
    if shared.Some? {
      var equalities, contradicted := [], false;
      for index := 0 to shared.value
        invariant equalities == Compared(left, right, index)
        invariant contradicted == Contradicted(left, right, index)
      {
        var a, b := left[index], right[index];
        if BothConstant(a, b) {
          if a.value != b.value {
            contradicted := true;
          }
        } else {
          equalities := equalities + [(a, b)];
        }
      }
      core := if contradicted then Fixed(false) else if equalities == [] then Fixed(true) else Equalities(equalities);
    }
    return Guarded(ColumnNames(left + right), core);
  }

  // ----- against the evaluator -----

  /** The path CEL builds: an error as soon as a segment is a missing attribute. */
  ghost predicate AllPresent(segments: seq<Segment>, row: Row) {
    forall i | 0 <= i < |segments| :: SegmentValue(segments[i], row).Some?
  }

  function PathOf(segments: seq<Segment>, row: Row): seq<string> {
    seq(|segments|, i requires 0 <= i < |segments| =>
      var v := SegmentValue(segments[i], row);
      if v.Some? then v.value else "")
  }

  lemma AnyNullAppend(a: seq<string>, b: seq<string>, row: Row)
    ensures AnyNull(a + b, row) <==> AnyNull(a, row) || AnyNull(b, row)
  {
    var all := a + b;
    assert forall i | 0 <= i < |a| :: all[i] == a[i];
    assert forall i | 0 <= i < |b| :: all[|a| + i] == b[i];
  }

  lemma {:induction false} NullableColumns(segments: seq<Segment>, row: Row)
    ensures AnyNull(ColumnNames(segments), row) <==> !AllPresent(segments, row)
    decreases |segments|
  {
    if segments != [] {
      var first, rest := segments[0], segments[1..];
      NullableColumns(rest, row);
      AnyNullAppend(if first.Column? then [first.name] else [], ColumnNames(rest), row);
      assert first.Column? ==> [first.name][0] == first.name;
      assert segments == [first] + rest;
      PresentTogether([first], rest, row);
      assert [first][0] == first;
    }
  }

  lemma PrefixStep(a: seq<string>, b: seq<string>, n: nat)
    requires 0 < n <= |a| && n <= |b|
    ensures a[..n] == b[..n] <==> a[..n - 1] == b[..n - 1] && a[n - 1] == b[n - 1]
  {
    assert a[..n] == a[..n - 1] + [a[n - 1]] && b[..n] == b[..n - 1] + [b[n - 1]];
  }

  lemma ContradictedStep(left: seq<Segment>, right: seq<Segment>, n: nat)
    requires 0 < n <= |left| && n <= |right|
    ensures Contradicted(left, right, n) <==>
      Contradicted(left, right, n - 1) || (BothConstant(left[n - 1], right[n - 1]) && left[n - 1] != right[n - 1])
  {
  }

  /** What SQL compares of the first `n` pairs: no constants differ, and every equality holds. */
  ghost predicate PairsAgree(left: seq<Segment>, right: seq<Segment>, n: nat, row: Row)
    requires n <= |left| && n <= |right|
  {
    !Contradicted(left, right, n) && CoreHolds(Equalities(Compared(left, right, n)), row) == True
  }

  lemma PairsStep(left: seq<Segment>, right: seq<Segment>, n: nat, row: Row)
    requires 0 < n <= |left| && n <= |right|
    requires SegmentValue(left[n - 1], row).Some? && SegmentValue(right[n - 1], row).Some?
    requires CoreHolds(Equalities(Compared(left, right, n - 1)), row) != Unknown
    ensures PairsAgree(left, right, n, row) <==>
      PairsAgree(left, right, n - 1, row) && SegmentValue(left[n - 1], row) == SegmentValue(right[n - 1], row)
    ensures CoreHolds(Equalities(Compared(left, right, n)), row) != Unknown
  {
    ContradictedStep(left, right, n);
    var before := Compared(left, right, n - 1);
    AllOfAppend(before, (left[n - 1], right[n - 1]), row);
    assert before + [] == before;
  }

  /** The compared pairs agree exactly when the prefixes are equal. */
  lemma {:induction false} ComparedHolds(left: seq<Segment>, right: seq<Segment>, n: nat, row: Row)
    requires n <= |left| && n <= |right| && AllPresent(left, row) && AllPresent(right, row)
    ensures PairsAgree(left, right, n, row) <==> PathOf(left, row)[..n] == PathOf(right, row)[..n]
    ensures CoreHolds(Equalities(Compared(left, right, n)), row) != Unknown
    decreases n
  {
    if n > 0 {
      ComparedHolds(left, right, n - 1, row);
      PairsStep(left, right, n, row);
      PrefixStep(PathOf(left, row), PathOf(right, row), n);
    }
  }

  lemma AllOfAppend(pairs: seq<(Segment, Segment)>, last: (Segment, Segment), row: Row)
    ensures var before, after := CoreHolds(Equalities(pairs), row), CoreHolds(Equalities(pairs + [last]), row);
      (after == True <==> before == True && PairHolds(last, row) == True) &&
      (after == Unknown ==> before == Unknown || PairHolds(last, row) == Unknown)
  {
    var all := pairs + [last];
    var ts := seq(|pairs|, i requires 0 <= i < |pairs| => PairHolds(pairs[i], row));
    var us := seq(|all|, i requires 0 <= i < |all| => PairHolds(all[i], row));
    assert us == ts + [PairHolds(last, row)];
  }

  lemma PrefixOfPath(relation: Relation, a: seq<string>, b: seq<string>)
    ensures RelationOf(relation, Hierarchy(a), Hierarchy(b)) == OfBool(
      var shared := SharedPrefixLength(relation, |a|, |b|);
      shared.Some? && a[..shared.value] == b[..shared.value])
  {
    assert forall n: nat | n <= |a| && n <= |b| :: a[..n] == b[..n] <==> forall i | 0 <= i < n :: a[i] == b[i];
  }

  /**
    The filter is the evaluator's relation between the two paths, and NULL exactly when a column
    segment is: CEL builds both lists first, whether or not the relation reads the segment.
   */
  lemma SegmentedExact(relation: Relation, left: seq<Segment>, right: seq<Segment>, row: Row)
    ensures Holds(Build(relation, left, right), row) ==
      if !AllPresent(left, row) || !AllPresent(right, row) then Unknown
      else TriOf(RelationOf(relation, Hierarchy(PathOf(left, row)), Hierarchy(PathOf(right, row))))
  {
    NullableColumns(left + right, row);
    PresentTogether(left, right, row);
    PrefixOfPath(relation, PathOf(left, row), PathOf(right, row));
    var shared := SharedPrefixLength(relation, |left|, |right|);
    if AllPresent(left, row) && AllPresent(right, row) && shared.Some? {
      ComparedHolds(left, right, shared.value, row);
    }
  }

  lemma PresentTogether(left: seq<Segment>, right: seq<Segment>, row: Row)
    ensures AllPresent(left + right, row) <==> AllPresent(left, row) && AllPresent(right, row)
  {
    var all := left + right;
    assert forall i | 0 <= i < |left| :: all[i] == left[i];
    assert forall i | 0 <= i < |right| :: all[|left| + i] == right[i];
  }

  // ----- the plans those filters lower -----

  function SegmentOperand(s: Segment): Operand {
    match s
    case Constant(value) => Literal(Str(value))
    case Column(name) => Variable([name])
  }

  /** `hierarchy([...])`: a path listed segment by segment. */
  function PathOperand(segments: seq<Segment>): Operand {
    Expr(ToHierarchy, [Expr(ListOf, SegmentOperands(segments))])
  }

  function SegmentOperands(segments: seq<Segment>): seq<Operand> {
    seq(|segments|, i requires 0 <= i < |segments| => SegmentOperand(segments[i]))
  }

  /** A document whose attributes are the row's columns, a NULL one missing. */
  ghost predicate Represents(sc: Scope, row: Row) {
    forall name: string :: Evaluate(Variable([name]), sc) ==
      if row(name).Some? then Ok(Str(row(name).value)) else Err
  }

  /** Collecting string outcomes: the list of them, or an error at the first that errs. */
  lemma {:induction false} CollectStrings(outs: seq<Outcome>, texts: seq<Option<string>>, elements: seq<Value>)
    requires |outs| == |texts|
    requires forall i | 0 <= i < |outs| :: outs[i] == if texts[i].Some? then Ok(Str(texts[i].value)) else Err
    ensures var strings := seq(|texts|, i requires 0 <= i < |texts| =>
        Str(if texts[i].Some? then texts[i].value else ""));
      Collect(outs, elements) == if None in texts then Err else Ok(List(elements + strings))
    decreases |outs|
  {
    var strings := seq(|texts|, i requires 0 <= i < |texts| => Str(if texts[i].Some? then texts[i].value else ""));
    if outs == [] {
      assert elements + strings == elements;
    } else if texts[0].Some? {
      var rest := texts[1..];
      CollectStrings(outs[1..], rest, elements + [Str(texts[0].value)]);
      var tail := seq(|rest|, i requires 0 <= i < |rest| => Str(if rest[i].Some? then rest[i].value else ""));
      assert strings == [Str(texts[0].value)] + tail;
      assert elements + [Str(texts[0].value)] + tail == elements + strings;
      assert texts == [texts[0]] + rest;
    }
  }

  lemma SegmentEvaluates(segment: Segment, sc: Scope, row: Row)
    requires Represents(sc, row)
    ensures Evaluate(SegmentOperand(segment), sc) ==
      if SegmentValue(segment, row).Some? then Ok(Str(SegmentValue(segment, row).value)) else Err
  {
  }

  lemma PathEvaluates(segments: seq<Segment>, sc: Scope, row: Row)
    requires Represents(sc, row)
    ensures Evaluate(PathOperand(segments), sc) ==
      if AllPresent(segments, row) then Ok(Hierarchy(PathOf(segments, row))) else Err
  {
    hide Evaluate, Represents, SegmentOperand;
    var operands := SegmentOperands(segments);
    var texts := seq(|segments|, i requires 0 <= i < |segments| => SegmentValue(segments[i], row));
    var outs := Outcomes(operands, sc);
    forall i | 0 <= i < |segments|
      ensures outs[i] == if texts[i].Some? then Ok(Str(texts[i].value)) else Err
    {
      SegmentEvaluates(segments[i], sc, row);
    }
    assert None in texts <==> !AllPresent(segments, row) by {
      assert forall i | 0 <= i < |segments| :: texts[i] == SegmentValue(segments[i], row);
    }
    CollectStrings(outs, texts, []);
    ListStep(operands, sc);
    UnaryStep(ToHierarchy, Expr(ListOf, operands), sc);
    if AllPresent(segments, row) {
      var list := Evaluate(Expr(ListOf, operands), sc).value;
      assert |list.items| == |segments|;
      assert forall i | 0 <= i < |segments| :: list.items[i] == Str(PathOf(segments, row)[i]);
      ListIsHierarchy(list.items, PathOf(segments, row));
    }
  }

  lemma ListStep(operands: seq<Operand>, sc: Scope)
    ensures Evaluate(Expr(ListOf, operands), sc) == Collect(Outcomes(operands, sc), [])
  {
    EvaluateStep(ListOf, operands, sc);
  }

  lemma ListIsHierarchy(items: seq<Value>, path: seq<string>)
    requires |items| == |path| && forall i | 0 <= i < |path| :: items[i] == Str(path[i])
    ensures HierarchyOf(List(items)) == Ok(Hierarchy(path))
  {
    assert seq(|items|, i requires 0 <= i < |items| => items[i].s) == path;
  }

  /** The emitted filter answers each row as the evaluator answers the plan on that row's document. */
  lemma SegmentedPlanExact(relation: Relation, left: seq<Segment>, right: seq<Segment>, sc: Scope, row: Row)
    requires Represents(sc, row)
    ensures Holds(Build(relation, left, right), row) ==
      TriOf(Evaluate(Expr(Relate(relation), [PathOperand(left), PathOperand(right)]), sc))
  {
    hide Evaluate, Build;
    SegmentedExact(relation, left, right, row);
    PathEvaluates(left, sc, row);
    PathEvaluates(right, sc, row);
    BinaryStep(Relate(relation), PathOperand(left), PathOperand(right), sc);
  }
}
