/** CEL's collection macros as SQL: over a relation's rows, and over a literal list. */
module Macros {
  import opened Wrappers
  import opened Cel
  import opened Plans
  import opened Evaluator
  import opened EvaluatorLaws
  import opened Substitution
  import opened ThreeValued

  // ----- the SQL the lowering emits -----

  /**
    Conditions over the correlated rows of one relation. `Row` is the lambda's body on the current row;
    `Settled` is a condition that reads no row, such as a body with its element substituted.
   */
  datatype Condition =
    | Row
    | Settled(t: Tri)
    | IsTrue(c: Condition) | IsFalse(c: Condition) | IsNull(c: Condition)
    | NotC(c: Condition)
    | AndC(cs: seq<Condition>) | OrC(cs: seq<Condition>)
    | Case(test: Condition, result: Condition, otherwise: Condition)
    | ExistsRow(where: Condition)
    | Equals(count: Count, n: int)
    | Positive(count: Count)

  /** Numeric terms; a term's value may be NULL. */
  datatype Count =
    | Constant(n: int)
    | NullCount
    | CaseCount(test: Condition, result: Count, otherwise: Count)
    | Plus(terms: seq<Count>)
    | CountRows(where: Condition)
    | CoalescedSum(term: Count)

  /** Which conditions hold on the rows, and on the current row inside a subquery. */
  datatype Table = Table(rows: seq<Tri>, current: Tri)

  function Holds(c: Condition, t: Table): Tri
    decreases c, 0
  {
    match c
    case Row => t.current
    case Settled(tri) => tri
    case IsTrue(x) => OfTruth(Holds(x, t) == True)
    case IsFalse(x) => OfTruth(Holds(x, t) == False)
    case IsNull(x) => OfTruth(Holds(x, t) == Unknown)
    case NotC(x) => NotOf(Holds(x, t))
    case AndC(cs) => AllOf(HoldEach(cs, t))
    case OrC(cs) => AnyOf(HoldEach(cs, t))
    case Case(test, result, otherwise) => if Holds(test, t) == True then Holds(result, t) else Holds(otherwise, t)
    case ExistsRow(where) =>
      OfTruth(True in HoldOnRows(where, t))
    case Equals(count, n) =>
      var v := CountValue(count, t);
      if v.None? then Unknown else OfTruth(v.value == n)
    case Positive(count) =>
      var v := CountValue(count, t);
      if v.None? then Unknown else OfTruth(v.value > 0)
  }

  function CountValue(n: Count, t: Table): Option<int>
    decreases n, 0
  {
    match n
    case Constant(i) => Some(i)
    case NullCount => None
    case CaseCount(test, result, otherwise) =>
      if Holds(test, t) == True then CountValue(result, t) else CountValue(otherwise, t)
    case Plus(terms) => StrictSum(ValueEach(terms, t))
    case CountRows(where) => Some(CountTrue(HoldOnRows(where, t)))
    case CoalescedSum(term) => Some(LooseSum(ValueOnRows(term, t)))
  }

  function HoldEach(cs: seq<Condition>, t: Table): (r: seq<Tri>)
    ensures |r| == |cs| && forall i | 0 <= i < |cs| :: r[i] == Holds(cs[i], t)
    decreases cs
  {
    seq(|cs|, i requires 0 <= i < |cs| => Holds(cs[i], t))
  }

  function ValueEach(ns: seq<Count>, t: Table): (r: seq<Option<int>>)
    ensures |r| == |ns| && forall i | 0 <= i < |ns| :: r[i] == CountValue(ns[i], t)
    decreases ns
  {
    seq(|ns|, i requires 0 <= i < |ns| => CountValue(ns[i], t))
  }

  function HoldOnRows(c: Condition, t: Table): (r: seq<Tri>)
    ensures |r| == |t.rows| && forall i | 0 <= i < |t.rows| :: r[i] == Holds(c, t.(current := t.rows[i]))
    decreases c, 1
  {
    seq(|t.rows|, i requires 0 <= i < |t.rows| => Holds(c, t.(current := t.rows[i])))
  }

  function ValueOnRows(n: Count, t: Table): (r: seq<Option<int>>)
    ensures |r| == |t.rows| && forall i | 0 <= i < |t.rows| :: r[i] == CountValue(n, t.(current := t.rows[i]))
    decreases n, 1
  {
    seq(|t.rows|, i requires 0 <= i < |t.rows| => CountValue(n, t.(current := t.rows[i])))
  }

  /** `a + b + ...`: NULL as soon as one term is. */
  function StrictSum(vs: seq<Option<int>>): Option<int> {
    if vs == [] then Some(0)
    else
      var rest := StrictSum(vs[1..]);
      if vs[0].None? || rest.None? then None else Some(vs[0].value + rest.value)
  }

  /** `coalesce(sum(...), 0)`: NULL terms are skipped. */
  function LooseSum(vs: seq<Option<int>>): int {
    if vs == [] then 0 else (if vs[0].None? then 0 else vs[0].value) + LooseSum(vs[1..])
  }

  function CountTrue(ts: seq<Tri>): nat {
    if ts == [] then 0 else (if ts[0] == True then 1 else 0) + CountTrue(ts[1..])
  }

  // ----- the lowering -----

  function Polarised(c: Condition, negated: bool): Condition {
    if negated then NotC(c) else c
  }

  /** A quantifier over a relation. */
  function RelationQuantifier(q: Quantifier, negated: bool): Condition {
    var unknownWitness := ExistsRow(IsNull(Row));
    var answer := match q
      case Exists => Case(ExistsRow(IsTrue(Row)), Settled(True), Case(unknownWitness, Settled(Unknown), Settled(False)))
      case All => Case(ExistsRow(IsFalse(Row)), Settled(False), Case(unknownWitness, Settled(Unknown), Settled(True)))
      case ExistsOne =>
        Case(unknownWitness, Settled(Unknown), Case(Equals(CountRows(Row), 1), Settled(True), Settled(False)));
    Polarised(answer, negated)
  }

  /** `size(filter(relation, lambda))`: an UNKNOWN row poisons the count. */
  function RelationCount(): Count {
    var unknowns := CoalescedSum(CaseCount(IsNull(Row), Constant(1), Constant(0)));
    CaseCount(Positive(unknowns), NullCount, CoalescedSum(CaseCount(Row, Constant(1), Constant(0))))
  }

  function AnyIsNull(conditions: seq<Condition>): Condition {
    OrC(seq(|conditions|, i requires 0 <= i < |conditions| => IsNull(conditions[i])))
  }

  function Matches(conditions: seq<Condition>): Count {
    Plus(seq(|conditions|, i requires 0 <= i < |conditions| => CaseCount(conditions[i], Constant(1), Constant(0))))
  }

  /**
    A quantifier over a literal list, from its elements' conditions. `exists` and `all` take those
    already negated when the macro is, and combine them with the other connective.
   */
  function ListQuantifier(q: Quantifier, conditions: seq<Condition>, negated: bool): Condition {
    if q == ExistsOne then
      var answer :=
        if conditions == [] then Settled(False)
        else Case(AnyIsNull(conditions), Settled(Unknown),
          Case(Equals(Matches(conditions), 1), Settled(True), Settled(False)));
      Polarised(answer, negated)
    else
      var combinesWithOr := if q == Exists then !negated else negated;
      if conditions == [] then Settled(if combinesWithOr then False else True)
      else if combinesWithOr then OrC(conditions)
      else AndC(conditions)
  }

  /** `size(filter(list, lambda))` over a literal list. */
  function ListCount(conditions: seq<Condition>): Count {
    if conditions == [] then Constant(0) else CaseCount(AnyIsNull(conditions), NullCount, Matches(conditions))
  }

  // ----- what the SQL computes -----

  /** One for each TRUE, zero for the rest. */
  function Ones(ts: seq<Tri>): (vs: seq<Option<int>>)
    ensures |vs| == |ts| && forall i | 0 <= i < |ts| :: vs[i] == Some(if ts[i] == True then 1 else 0)
  {
    seq(|ts|, i requires 0 <= i < |ts| => Some(if ts[i] == True then 1 else 0))
  }

  lemma {:induction false} OnesAreCounted(ts: seq<Tri>)
    ensures LooseSum(Ones(ts)) == CountTrue(ts) && StrictSum(Ones(ts)) == Some(CountTrue(ts))
    decreases |ts|
  {
    if ts != [] {
      assert Ones(ts)[1..] == Ones(ts[1..]);
      OnesAreCounted(ts[1..]);
    }
  }

  lemma {:induction false} CountIsZero(ts: seq<Tri>)
    ensures CountTrue(ts) == 0 <==> True !in ts
    decreases |ts|
  {
    if ts != [] {
      CountIsZero(ts[1..]);
    }
  }

  function Tris(outs: seq<Outcome>): (ts: seq<Tri>)
    ensures |ts| == |outs| && forall i | 0 <= i < |outs| :: ts[i] == TriOf(outs[i])
  {
    seq(|outs|, i requires 0 <= i < |outs| => TriOf(outs[i]))
  }

  /** CEL's `exists` and `all` are SQL's OR and AND of their elements' conditions. */
  lemma {:induction false} QuantifierIsConnective(q: Quantifier, outs: seq<Outcome>, trueCount: nat, sawError: bool)
    requires q != ExistsOne && Quiet(outs)
    ensures TriOf(QuantifierResult(q, outs, trueCount, sawError)) ==
      if q == Exists then AnyOf(Tris(outs) + if sawError then [Unknown] else [])
      else AllOf(Tris(outs) + if sawError then [Unknown] else [])
    decreases |outs|
  {
    if outs != [] {
      var t, last := TriOf(outs[0]), if sawError then [Unknown] else [];
      assert Tris(outs) + last == [t] + (Tris(outs[1..]) + last);
      QuantifierIsConnective(q, outs[1..], trueCount, true);
      QuantifierIsConnective(q, outs[1..], trueCount, sawError);
      QuantifierIsConnective(q, outs[1..], trueCount + 1, sawError);
    }
  }

  /** CEL's `exists_one` errors on any error, and otherwise counts its matches. */
  lemma {:induction false} ExistsOneIsCount(outs: seq<Outcome>, trueCount: nat, sawError: bool)
    requires Quiet(outs)
    ensures TriOf(QuantifierResult(ExistsOne, outs, trueCount, sawError)) ==
      if sawError || Unknown in Tris(outs) then Unknown else OfTruth(trueCount + CountTrue(Tris(outs)) == 1)
    decreases |outs|
  {
    if outs != [] {
      assert Tris(outs) == [TriOf(outs[0])] + Tris(outs[1..]);
      ExistsOneIsCount(outs[1..], trueCount, true);
      ExistsOneIsCount(outs[1..], trueCount, sawError);
      ExistsOneIsCount(outs[1..], trueCount + 1, sawError);
    }
  }

  /** How many items a filter keeps; none when a condition errors. */
  lemma {:induction false} FilterIsCount(items: seq<Value>, outs: seq<Outcome>, filtered: seq<Value>)
    requires |items| == |outs| && Quiet(outs)
    ensures var r := FilterResult(items, outs, filtered);
      if Unknown in Tris(outs) then r == Err
      else r.Ok? && r.value.List? && |r.value.items| == |filtered| + CountTrue(Tris(outs))
    decreases |outs|
  {
    if outs != [] {
      assert Tris(outs) == [TriOf(outs[0])] + Tris(outs[1..]);
      FilterIsCount(items[1..], outs[1..], filtered);
      FilterIsCount(items[1..], outs[1..], filtered + [items[0]]);
    }
  }

  // ----- over a relation -----

  lemma WitnessIsMember(outs: seq<Outcome>, wanted: Tri)
    ensures var t := Table(Tris(outs), Unknown);
      var test := if wanted == True then IsTrue(Row) else if wanted == False then IsFalse(Row) else IsNull(Row);
      Holds(ExistsRow(test), t) == OfTruth(wanted in Tris(outs))
  {
    var rows := Tris(outs);
    var test := if wanted == True then IsTrue(Row) else if wanted == False then IsFalse(Row) else IsNull(Row);
    var held := HoldOnRows(test, Table(rows, Unknown));
    assert forall i | 0 <= i < |rows| :: held[i] == OfTruth(rows[i] == wanted);
    if wanted in rows {
      var i :| 0 <= i < |rows| && rows[i] == wanted;
      assert held[i] == True;
    }
  }

  lemma RowsCounted(outs: seq<Outcome>)
    ensures CountValue(CountRows(Row), Table(Tris(outs), Unknown)) == Some(CountTrue(Tris(outs)))
  {
    assert HoldOnRows(Row, Table(Tris(outs), Unknown)) == Tris(outs);
  }

  /** The nested CASE of a relation's quantifier, test by test. */
  lemma RelationAnswer(q: Quantifier, negated: bool, t: Table)
    ensures Holds(RelationQuantifier(q, negated), t) == WithPolarity(
      match q
      case Exists =>
        if Holds(ExistsRow(IsTrue(Row)), t) == True then True
        else if Holds(ExistsRow(IsNull(Row)), t) == True then Unknown else False
      case All =>
        if Holds(ExistsRow(IsFalse(Row)), t) == True then False
        else if Holds(ExistsRow(IsNull(Row)), t) == True then Unknown else True
      case ExistsOne =>
        if Holds(ExistsRow(IsNull(Row)), t) == True then Unknown
        else if CountValue(CountRows(Row), t) == Some(1) then True else False,
      negated)
  {
    hide HoldOnRows;
    var counted := Equals(CountRows(Row), 1);
    assert Holds(counted, t) == OfTruth(CountValue(CountRows(Row), t) == Some(1));
    var inner := Case(counted, Settled(True), Settled(False));
    assert Holds(inner, t) == if CountValue(CountRows(Row), t) == Some(1) then True else False;
  }

  /** A macro over a relation answers as the evaluator's quantifier over the same conditions. */
  lemma RelationQuantifierCorrect(q: Quantifier, outs: seq<Outcome>, negated: bool)
    requires Quiet(outs)
    ensures Holds(RelationQuantifier(q, negated), Table(Tris(outs), Unknown)) ==
      WithPolarity(TriOf(QuantifierResult(q, outs, 0, false)), negated)
  {
    hide QuantifierResult, Holds, CountValue, RelationQuantifier;
    RelationAnswer(q, negated, Table(Tris(outs), Unknown));
    WitnessIsMember(outs, True);
    WitnessIsMember(outs, False);
    WitnessIsMember(outs, Unknown);
    if q == ExistsOne {
      RowsCounted(outs);
      ExistsOneIsCount(outs, 0, false);
    } else {
      QuantifierIsConnective(q, outs, 0, false);
      assert Tris(outs) + [] == Tris(outs);
    }
  }

  /** How many items a filter's result keeps, or SQL's NULL for its error. */
  function FilteredSize(r: Outcome): Option<int> {
    if r.Ok? && r.value.List? then Some(|r.value.items|) else None
  }

  /** The filtered count over a relation is the size of the evaluator's filtered list. */
  lemma RelationCountCorrect(items: seq<Value>, outs: seq<Outcome>)
    requires |items| == |outs| && Quiet(outs)
    ensures CountValue(RelationCount(), Table(Tris(outs), Unknown)) == FilteredSize(FilterResult(items, outs, []))
  {
    var rows := Tris(outs);
    FilterIsCount(items, outs, []);
    MatchingRows(rows);
    UnknownRows(rows);
  }

  lemma MatchingRows(rows: seq<Tri>)
    ensures CountValue(CoalescedSum(CaseCount(Row, Constant(1), Constant(0))), Table(rows, Unknown)) ==
      Some(CountTrue(rows))
  {
    assert ValueOnRows(CaseCount(Row, Constant(1), Constant(0)), Table(rows, Unknown)) == Ones(rows);
    OnesAreCounted(rows);
  }

  lemma UnknownRows(rows: seq<Tri>)
    ensures var unknowns := CoalescedSum(CaseCount(IsNull(Row), Constant(1), Constant(0)));
      Holds(Positive(unknowns), Table(rows, Unknown)) == OfTruth(Unknown in rows)
  {
    var nulls := HoldOnRows(IsNull(Row), Table(rows, Unknown));
    assert ValueOnRows(CaseCount(IsNull(Row), Constant(1), Constant(0)), Table(rows, Unknown)) == Ones(nulls);
    OnesAreCounted(nulls);
    CountIsZero(nulls);
    if Unknown in rows {
      var i :| 0 <= i < |rows| && rows[i] == Unknown;
      assert nulls[i] == True;
    }
    assert forall i | 0 <= i < |rows| :: nulls[i] == OfTruth(rows[i] == Unknown);
  }

  // ----- over a literal list -----

  /** The elements' conditions, each built with the negation pushed into it. */
  function Conditions(ts: seq<Tri>, negated: bool): (cs: seq<Condition>)
    ensures |cs| == |ts| && forall i | 0 <= i < |ts| :: cs[i] == Settled(WithPolarity(ts[i], negated))
  {
    seq(|ts|, i requires 0 <= i < |ts| => Settled(WithPolarity(ts[i], negated)))
  }

  lemma ConnectivesOfConditions(ts: seq<Tri>, negated: bool, t: Table)
    ensures Holds(OrC(Conditions(ts, negated)), t) == if negated then NotOf(AllOf(ts)) else AnyOf(ts)
    ensures Holds(AndC(Conditions(ts, negated)), t) == if negated then NotOf(AnyOf(ts)) else AllOf(ts)
  {
    var polarised := HoldEach(Conditions(ts, negated), t);
    assert forall i | 0 <= i < |ts| :: polarised[i] == WithPolarity(ts[i], negated);
    forall x: Tri ensures x in ts <==> WithPolarity(x, negated) in polarised {
      if x in ts {
        var i :| 0 <= i < |ts| && ts[i] == x;
        assert polarised[i] == WithPolarity(x, negated);
      }
    }
    assert WithPolarity(True, true) == False && WithPolarity(False, true) == True;
    assert WithPolarity(Unknown, negated) == Unknown;
  }

  lemma UnknownsFound(ts: seq<Tri>, t: Table)
    ensures Holds(AnyIsNull(Conditions(ts, false)), t) == OfTruth(Unknown in ts)
  {
    var cs := Conditions(ts, false);
    var tests := AnyIsNull(cs).cs;
    var held := HoldEach(tests, t);
    assert forall i | 0 <= i < |ts| :: tests[i] == IsNull(cs[i]) && held[i] == OfTruth(ts[i] == Unknown);
    if Unknown in ts {
      var i :| 0 <= i < |ts| && ts[i] == Unknown;
      assert held[i] == True;
    }
  }

  lemma MatchesCounted(ts: seq<Tri>, t: Table)
    ensures CountValue(Matches(Conditions(ts, false)), t) == Some(CountTrue(ts))
  {
    var cs := Conditions(ts, false);
    var terms := Matches(cs).terms;
    var values := ValueEach(terms, t);
    forall i | 0 <= i < |ts| ensures values[i] == Some(if ts[i] == True then 1 else 0) {
      assert terms[i] == CaseCount(cs[i], Constant(1), Constant(0));
    }
    assert values == Ones(ts);
    OnesAreCounted(ts);
  }

  /** `exists_one` over a literal list: NULL under any UNKNOWN, and otherwise whether one matches. */
  lemma ListOneAnswer(ts: seq<Tri>, negated: bool, t: Table)
    ensures Holds(ListQuantifier(ExistsOne, Conditions(ts, false), negated), t) ==
      WithPolarity(if Unknown in ts then Unknown else OfTruth(CountTrue(ts) == 1), negated)
  {
    hide AnyIsNull, Matches, HoldEach, ValueEach;
    UnknownsFound(ts, t);
    MatchesCounted(ts, t);
    var counted := Equals(Matches(Conditions(ts, false)), 1);
    assert Holds(counted, t) == OfTruth(CountTrue(ts) == 1);
    var decided := Case(counted, Settled(True), Settled(False));
    assert Holds(decided, t) == Holds(counted, t);
    var answer := Case(AnyIsNull(Conditions(ts, false)), Settled(Unknown), decided);
    assert Holds(answer, t) == if Unknown in ts then Unknown else OfTruth(CountTrue(ts) == 1);
    assert ListQuantifier(ExistsOne, Conditions(ts, false), negated) ==
      Polarised(if ts == [] then Settled(False) else answer, negated);
  }

  /** Pushing a negation into the folded conditions is SQL's NOT around the fold. */
  lemma ListQuantifierCorrect(q: Quantifier, outs: seq<Outcome>, negated: bool, t: Table)
    requires Quiet(outs)
    ensures var conditions := Conditions(Tris(outs), q != ExistsOne && negated);
      Holds(ListQuantifier(q, conditions, negated), t) ==
      WithPolarity(TriOf(QuantifierResult(q, outs, 0, false)), negated)
  {
    hide QuantifierResult;
    var ts := Tris(outs);
    assert ts == [] <==> outs == [];
    if q == ExistsOne {
      ExistsOneIsCount(outs, 0, false);
      ListOneAnswer(ts, negated, t);
    } else {
      QuantifierIsConnective(q, outs, 0, false);
      assert ts + [] == ts;
      ConnectivesOfConditions(ts, negated, t);
    }
  }

  lemma ListCountCorrect(items: seq<Value>, outs: seq<Outcome>, t: Table)
    requires |items| == |outs| && Quiet(outs)
    ensures CountValue(ListCount(Conditions(Tris(outs), false)), t) == FilteredSize(FilterResult(items, outs, []))
  {
    FilterIsCount(items, outs, []);
    UnknownsFound(Tris(outs), t);
    MatchesCounted(Tris(outs), t);
  }

  /**
    A quantifier over a literal list, lowered through its substituted bodies, answers as CEL does:
    each body's own condition stands for its outcome, and the fold for the macro's.
   */
  lemma FoldedQuantifierCorrect(q: Quantifier, elements: seq<Value>, lambda: Operand, negated: bool, sc: Scope,
      t: Table)
    requires BodyFirst(lambda) && !sc.nullIsMissing
    requires SubstitutableAll(lambda.operands[0], lambda.operands[1].path[0], elements)
    requires Bodies(lambda.operands[0], lambda.operands[1].path, elements).Done?
    requires Quiet(Outcomes(Bodies(lambda.operands[0], lambda.operands[1].path, elements).result, sc))
    ensures var outs := Outcomes(Bodies(lambda.operands[0], lambda.operands[1].path, elements).result, sc);
      var conditions := Conditions(Tris(outs), q != ExistsOne && negated);
      Holds(ListQuantifier(q, conditions, negated), t) ==
      WithPolarity(TriOf(Evaluate(Expr(Quantify(q), [Literal(List(elements)), lambda]), sc)), negated)
  {
    var name := lambda.operands[1].path[0];
    assert lambda.operands[1].path == [name];
    LiteralRows(Quantify(q), elements, lambda, sc);
    BodiesAreRows(lambda.operands[0], name, elements, sc);
    ListQuantifierCorrect(q, Outcomes(Bodies(lambda.operands[0], [name], elements).result, sc), negated, t);
  }
}
