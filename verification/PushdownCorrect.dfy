/** The emitted filter keeps exactly the documents on which CEL says true. */
module PushdownCorrect {
  import opened Wrappers
  import D = Doubles
  import opened Texts
  import opened Durations
  import opened Cel
  import opened Plans
  import opened Evaluator
  import opened EvaluatorLaws
  import opened Pushdown

  /** A value JSON carries: what attributes, and a plan's literals, are. */
  ghost predicate Json(v: Value)
    decreases v
  {
    match v
    case Null => true
    case Bool(_) => true
    case Num(d) => !d.NaN?
    case Str(_) => true
    case List(items) => forall i | 0 <= i < |items| :: Json(items[i])
    case Map(_, entries) => forall k | k in entries.Keys :: Json(entries[k])
    case _ => false
  }

  lemma {:induction false} StoredEqualIsCel(a: Value, b: Value)
    requires Json(a) && Json(b)
    ensures StoredEqual(a, b) == ValuesEqual(a, b)
    decreases a
  {
    if a.List? && b.List? && |a.items| == |b.items| {
      forall i | 0 <= i < |a.items| ensures StoredEqual(a.items[i], b.items[i]) == ValuesEqual(a.items[i], b.items[i]) {
        StoredEqualIsCel(a.items[i], b.items[i]);
      }
    } else if a.Map? && b.Map? && a.entries.Keys == b.entries.Keys {
      forall k | k in a.entries.Keys
        ensures StoredEqual(a.entries[k], b.entries[k]) == ValuesEqual(a.entries[k], b.entries[k])
      {
        StoredEqualIsCel(a.entries[k], b.entries[k]);
      }
    }
  }

  // ----- leaves -----

  /** What the mapped field of a reference reads as, before the null convention applies. */
  function FieldRead(path: Path, sc: Scope): Outcome {
    Nested(sc.doc, ResolveField(path, sc.mapper))
  }

  /** The field is stored as JSON, and present to CEL under the convention in force. */
  ghost predicate Present(path: Path, sc: Scope) {
    FieldRead(path, sc).Ok? && Json(FieldRead(path, sc).value) &&
    (sc.nullIsMissing ==> FieldRead(path, sc) != Ok(Null))
  }

  lemma StrictStep(op: Operator, args: seq<Operand>, sc: Scope)
    requires (op.Compare? || op.In?) && |args| >= 2
    ensures var a, b := Evaluate(args[0], sc), Evaluate(args[1], sc);
      Evaluate(Expr(op, args), sc) ==
      if a.Throw? || b.Throw? then Throw
      else if a.Err? || b.Err? then Err
      else ApplyTwo(op, Valued, sc.Env(), a.value, b.value)
  {
    EvaluateStep(op, args, sc);
    assert Evaluated(op, args) == args;
  }

  lemma {:induction false} LexOrderMirrors(a: string, b: string)
    ensures LexOrder(a, b) == -LexOrder(b, a) && (LexOrder(a, b) == 0 <==> a == b)
    decreases |a|
  {
    if a != [] && b != [] {
      LexOrderMirrors(a[1..], b[1..]);
      assert a == [a[0]] + a[1..] && b == [b[0]] + b[1..];
    }
  }

  lemma HoldsBoth(f: Filter, g: Filter, doc: Value)
    ensures Holds(QAnd([f, g]), doc) <==> Holds(f, doc) && Holds(g, doc)
  {
    assert [f, g][0] == f && [f, g][1] == g;
  }

  predicate SameType(a: Value, b: Value) {
    (a.Num? && b.Num?) || (a.Bool? && b.Bool?) || (a.Str? && b.Str?)
  }

  /** Within one type, Convex's comparison with a literal is CEL's. */
  lemma OrderedAsCel(c: Comparison, v: Value, literal: Value)
    requires c != Eq && c != Ne && SameType(v, literal) && v != Num(D.NaN) && literal != Num(D.NaN)
    ensures CompareValues(c, v, literal) == OfBool(MethodHolds(ConvexComparison(c), Plain(v), Plain(literal)))
  {
    if v.Str? {
      LexOrderMirrors(v.s, literal.s);
    }
  }

  lemma MirroredComparison(c: Comparison, v: Value, literal: Value)
    requires c != Eq && c != Ne
    ensures CompareValues(c, literal, v) == CompareValues(Mirrored(c), v, literal)
  {
    if v.Str? && literal.Str? {
      LexOrderMirrors(v.s, literal.s);
    }
  }

  predicate GuardHolds(literal: Value, stored: Stored) {
    match literal
    case Num(_) => MethodHolds(QGt, stored, Plain(BigInt(INT64_MAX))) && MethodHolds(QLt, stored, Plain(Bool(false)))
    case Bool(_) => MethodHolds(QGte, stored, Plain(Bool(false))) && MethodHolds(QLte, stored, Plain(Bool(true)))
    case Str(_) => MethodHolds(QGte, stored, Plain(Str(""))) && MethodHolds(QLt, stored, EmptyBytes)
    case _ => false
  }

  lemma GuardIsFilter(literal: Value, field: Term, doc: Value)
    requires SameTypeAs(literal, field).Some?
    ensures Holds(SameTypeAs(literal, field).value, doc) <==> GuardHolds(literal, TermValue(field, doc))
  {
    match SameTypeAs(literal, field).value
    case QAnd(fs) => HoldsBoth(fs[0], fs[1], doc);
  }

  /** The guard confines a field to the literal's type: no other type, and no absent field, passes. */
  lemma GuardConfines(literal: Value, stored: Stored)
    requires stored.Plain? ==> !stored.v.BigInt?
    ensures GuardHolds(literal, stored) <==> stored.Plain? && SameType(stored.v, literal)
  {
  }

  /** An ordering leaf is exact on every document, its field present, null or absent. */
  lemma OrderingLeaf(c: Comparison, args: seq<Operand>, sc: Scope, negated: bool)
    requires c != Eq && c != Ne && FieldAndLiteralOf(args).Some? && sc.bindings == map[]
    requires var pair := FieldAndLiteralOf(args).value;
      Json(pair.literal) && (FieldRead(pair.field, sc).Ok? ==> Json(FieldRead(pair.field, sc).value))
    ensures var pair := FieldAndLiteralOf(args).value;
      Holds(EmitComparison(c, pair, sc.mapper, negated), sc.doc) <==>
      Evaluate(Expr(Compare(c), args), sc) == OfBool(!negated)
  {
    hide FormOf;
    var pair := FieldAndLiteralOf(args).value;
    var field := Field(ResolveField(pair.field, sc.mapper));
    var read := FieldRead(pair.field, sc);
    ComparisonStep(c, args, sc);
    OrderingEmitted(c, pair, sc.mapper, negated, sc.doc);
    GuardConfines(pair.literal, TermValue(field, sc.doc));
    if read.Ok? {
      MirroredComparison(c, read.value, pair.literal);
      if SameType(read.value, pair.literal) {
        OrderedAsCel(if pair.swapped then Mirrored(c) else c, read.value, pair.literal);
      }
    }
  }

  lemma OrderingEmitted(c: Comparison, pair: FieldAndLiteral, mapper: Mapper, negated: bool, doc: Value)
    requires c != Eq && c != Ne
    ensures var stored := TermValue(Field(ResolveField(pair.field, mapper)), doc);
      var call := ConvexComparison(if pair.swapped then Mirrored(c) else c);
      Holds(EmitComparison(c, pair, mapper, negated), doc) <==>
      GuardHolds(pair.literal, stored) && MethodHolds(call, stored, Plain(pair.literal)) != negated
  {
    var field := Field(ResolveField(pair.field, mapper));
    var guard := SameTypeAs(pair.literal, field);
    var compared :=
      Apply(ConvexComparison(if pair.swapped then Mirrored(c) else c), field, OfValue(pair.literal));
    if guard.Some? {
      GuardIsFilter(pair.literal, field, doc);
      HoldsBoth(guard.value, Polarised(compared, negated), doc);
    }
  }

  lemma PolarisedHolds(f: Filter, negated: bool, doc: Value)
    ensures Holds(Polarised(f, negated), doc) <==> Holds(f, doc) != negated
  {
    assert Holds(QNot(f), doc) == !Holds(f, doc);
  }

  /** Whether a filter and a node agree on a document under a polarity. */
  ghost predicate Agree(f: Filter, e: Operand, sc: Scope, negated: bool) {
    Holds(f, sc.doc) <==> Evaluate(e, sc) == OfBool(!negated)
  }

  /** CEL's answer to a comparison of one field with one literal. */
  lemma ComparisonStep(c: Comparison, args: seq<Operand>, sc: Scope)
    requires FieldAndLiteralOf(args).Some? && sc.bindings == map[]
    ensures var pair := FieldAndLiteralOf(args).value;
      var read := ReadPath(FieldRead(pair.field, sc), sc.nullIsMissing);
      Evaluate(Expr(Compare(c), args), sc) ==
      if read.Err? then Err
      else if pair.swapped then CompareValues(c, pair.literal, read.value)
      else CompareValues(c, read.value, pair.literal)
  {
    StrictStep(Compare(c), args, sc);
    var pair := FieldAndLiteralOf(args).value;
    assert Evaluate(Variable(pair.field), sc) == ReadPath(FieldRead(pair.field, sc), sc.nullIsMissing);
    assert Evaluate(Literal(pair.literal), sc) == Ok(pair.literal);
  }

  lemma EqualityEmitted(c: Comparison, pair: FieldAndLiteral, mapper: Mapper, negated: bool, doc: Value)
    requires c == Eq || c == Ne
    ensures var stored := TermValue(Field(ResolveField(pair.field, mapper)), doc);
      Holds(EmitComparison(c, pair, mapper, negated), doc) <==>
      (TermsEqual(stored, Plain(pair.literal)) == (c == Eq)) != negated
  {
    var f := Apply(ConvexComparison(c), Field(ResolveField(pair.field, mapper)), OfValue(pair.literal));
    PolarisedHolds(f, negated, doc);
    assert EmitComparison(c, pair, mapper, negated) == Polarised(f, negated);
  }

  /**
    An equality leaf agrees exactly when its field is present, or when its polarity makes an absent
    field false: `==` unnegated, `!=` negated.
   */
  lemma EqualityLeaf(c: Comparison, args: seq<Operand>, sc: Scope, negated: bool)
    requires (c == Eq || c == Ne) && FieldAndLiteralOf(args).Some? && sc.bindings == map[]
    requires var pair := FieldAndLiteralOf(args).value;
      Json(pair.literal) && (FieldRead(pair.field, sc).Ok? ==> Json(FieldRead(pair.field, sc).value)) &&
      (sc.nullIsMissing ==> pair.literal != Null)
    ensures var pair := FieldAndLiteralOf(args).value;
      Agree(EmitComparison(c, pair, sc.mapper, negated), Expr(Compare(c), args), sc, negated) <==>
      Present(pair.field, sc) || (c == Eq) != negated
  {
    var pair := FieldAndLiteralOf(args).value;
    ComparisonStep(c, args, sc);
    EqualityEmitted(c, pair, sc.mapper, negated, sc.doc);
    var read := FieldRead(pair.field, sc);
    if read.Ok? {
      StoredEqualIsCel(read.value, pair.literal);
      StoredEqualIsCel(pair.literal, read.value);
      StoredEqualSymmetric(read.value, pair.literal);
    }
  }

  lemma {:induction false} StoredEqualSymmetric(a: Value, b: Value)
    ensures StoredEqual(a, b) == StoredEqual(b, a)
    decreases a
  {
    if a.List? && b.List? && |a.items| == |b.items| {
      forall i | 0 <= i < |a.items| ensures StoredEqual(a.items[i], b.items[i]) == StoredEqual(b.items[i], a.items[i]) {
        StoredEqualSymmetric(a.items[i], b.items[i]);
      }
    } else if a.Map? && b.Map? && a.entries.Keys == b.entries.Keys {
      forall k | k in a.entries.Keys
        ensures StoredEqual(a.entries[k], b.entries[k]) == StoredEqual(b.entries[k], a.entries[k])
      {
        StoredEqualSymmetric(a.entries[k], b.entries[k]);
      }
    }
  }

  /** Whether the stored field equals one of the listed values. */
  ghost predicate StoredIn(stored: Stored, values: seq<Value>) {
    exists i | 0 <= i < |values| :: TermsEqual(stored, Plain(values[i]))
  }

  lemma MembershipEmitted(membership: FieldInList, mapper: Mapper, negated: bool, doc: Value)
    ensures Holds(EmitMembership(membership, mapper, negated), doc) <==>
      StoredIn(TermValue(Field(ResolveField(membership.field, mapper)), doc), membership.values) != negated
  {
    var values := membership.values;
    var field := Field(ResolveField(membership.field, mapper));
    var fs := seq(|values|, i requires 0 <= i < |values| => Apply(QEq, field, OfValue(values[i])));
    assert forall i | 0 <= i < |values| :: Holds(fs[i], doc) == TermsEqual(TermValue(field, doc), Plain(values[i]));
    assert EmitMembership(membership, mapper, negated) == Polarised(
      if |values| == 0 then Fixed(false) else if |values| == 1 then fs[0] else QOr(fs), negated);
  }

  /** A membership leaf agrees exactly when its field is present or it is not negated. */
  lemma MembershipLeaf(args: seq<Operand>, sc: Scope, negated: bool)
    requires FieldInListOf(args).Some? && sc.bindings == map[]
    requires var membership := FieldInListOf(args).value;
      Json(List(membership.values)) &&
      (FieldRead(membership.field, sc).Ok? ==> Json(FieldRead(membership.field, sc).value)) &&
      (sc.nullIsMissing ==> Null !in membership.values)
    ensures var membership := FieldInListOf(args).value;
      Agree(EmitMembership(membership, sc.mapper, negated), Expr(In, args), sc, negated) <==>
      Present(membership.field, sc) || !negated
  {
    hide ValuesEqual, FormOf;
    var FieldInList(path, values) := FieldInListOf(args).value;
    StrictStep(In, args, sc);
    MembershipEmitted(FieldInList(path, values), sc.mapper, negated, sc.doc);
    var read := FieldRead(path, sc);
    if read.Ok? {
      forall i | 0 <= i < |values| ensures StoredEqual(read.value, values[i]) == ValuesEqual(values[i], read.value) {
        StoredEqualIsCel(values[i], read.value);
        StoredEqualSymmetric(read.value, values[i]);
      }
      assert StoredIn(Plain(read.value), values) == ListContains(values, read.value);
    }
  }

  /** A bare reference agrees exactly when it is not negated or its field holds a boolean. */
  lemma VariableLeaf(path: Path, sc: Scope, negated: bool)
    requires sc.bindings == map[]
    ensures Agree(Emit(Variable(path), sc.mapper, negated).result, Variable(path), sc, negated) <==>
      !negated || (FieldRead(path, sc).Ok? && FieldRead(path, sc).value.Bool?)
  {
    var f := Apply(QEq, Field(ResolveField(path, sc.mapper)), OfValue(Bool(true)));
    PolarisedHolds(f, negated, sc.doc);
    assert Holds(f, sc.doc) <==> FieldRead(path, sc) == OfBool(true);
    assert Evaluate(Variable(path), sc) == ReadPath(FieldRead(path, sc), sc.nullIsMissing);
  }

  // ----- inputs on which a pushed leaf disagrees -----

  /** `!R.flag` over a stored string: kept, where CEL errs. */
  lemma NegatedStringKept(flag: Path, sc: Scope)
    requires sc.bindings == map[] && FieldRead(flag, sc) == Ok(Str("yes"))
    ensures var f := Emit(Expr(Not, [Variable(flag)]), sc.mapper, false);
      f.Done? && Holds(f.result, sc.doc) && Evaluate(Expr(Not, [Variable(flag)]), sc) == Err
  {
    VariableLeaf(flag, sc, true);
    UnaryStep(Not, Variable(flag), sc);
  }

  /** `!(R.a == "x")` over a document without the attribute: kept, where CEL errs. */
  lemma NegatedEqualityKept(a: Path, sc: Scope)
    requires sc.bindings == map[] && FieldRead(a, sc).Err?
    ensures var equal := Expr(Compare(Eq), [Variable(a), Literal(Str("x"))]);
      var f := Emit(Expr(Not, [equal]), sc.mapper, false);
      f.Done? && Holds(f.result, sc.doc) && Evaluate(Expr(Not, [equal]), sc) == Err
  {
    hide Evaluate, ApplyOne, ApplyTwo, FormOf, Holds, EmitComparison, CompareValues;
    var args := [Variable(a), Literal(Str("x"))];
    EqualityLeaf(Eq, args, sc, true);
    ComparisonStep(Eq, args, sc);
    UnaryStep(Not, Expr(Compare(Eq), args), sc);
  }

  /** `!(R.a in ["x"])` over a document without the attribute: kept, where CEL errs. */
  lemma NegatedMembershipKept(a: Path, sc: Scope)
    requires sc.bindings == map[] && FieldRead(a, sc).Err?
    ensures var within := Expr(In, [Variable(a), Literal(List([Str("x")]))]);
      var f := Emit(Expr(Not, [within]), sc.mapper, false);
      f.Done? && Holds(f.result, sc.doc) && Evaluate(Expr(Not, [within]), sc) == Err
  {
    hide Evaluate, ApplyOne, ApplyTwo, FormOf, Holds, EmitMembership;
    var args := [Variable(a), Literal(List([Str("x")]))];
    MembershipLeaf(args, sc, true);
    ReadsErr(a, sc);
    BinaryStep(In, args[0], args[1], sc);
    UnaryStep(Not, Expr(In, args), sc);
  }

  lemma ReadsErr(a: Path, sc: Scope)
    requires sc.bindings == map[] && FieldRead(a, sc).Err?
    ensures Evaluate(Variable(a), sc) == Err && !Evaluate(Literal(List([Str("x")])), sc).Throw?
  {
  }

  // ----- the compiler -----

  /** The condition under which each leaf, at the polarity it is emitted with, agrees with CEL. */
  ghost predicate Faithful(e: Operand, sc: Scope, negated: bool)
    decreases e
  {
    match e
    case Literal(_) => true
    case Variable(path) => !negated || (FieldRead(path, sc).Ok? && FieldRead(path, sc).value.Bool?)
    case Expr(op, args) =>
      if op.Compare? then
        var pair := FieldAndLiteralOf(args);
        pair.Some? ==>
          var read := FieldRead(pair.value.field, sc);
          Json(pair.value.literal) && (read.Ok? ==> Json(read.value)) &&
          (op == Compare(Eq) || op == Compare(Ne) ==>
            (sc.nullIsMissing ==> pair.value.literal != Null) &&
            (Present(pair.value.field, sc) || (op == Compare(Eq)) != negated))
      else if op.In? then
        var membership := FieldInListOf(args);
        membership.Some? ==>
          var read := FieldRead(membership.value.field, sc);
          Json(List(membership.value.values)) && (read.Ok? ==> Json(read.value)) &&
          (sc.nullIsMissing ==> Null !in membership.value.values) &&
          (Present(membership.value.field, sc) || !negated)
      else
        forall i | 0 <= i < |args| :: Faithful(args[i], sc, if op.Not? then !negated else negated)
  }

  /** A junction answers its deciding value when an operand does, and the other only when all do. */
  lemma {:induction false} JunctionDecides(decisive: bool, outs: seq<Outcome>, sawError: bool)
    requires Quiet(outs)
    ensures Junction(decisive, outs, sawError) == OfBool(decisive) <==>
      exists i | 0 <= i < |outs| :: outs[i] == OfBool(decisive)
    ensures Junction(decisive, outs, sawError) == OfBool(!decisive) <==>
      !sawError && forall i | 0 <= i < |outs| :: outs[i] == OfBool(!decisive)
    decreases |outs|
  {
    if outs != [] {
      JunctionDecides(decisive, outs[1..], true);
      JunctionDecides(decisive, outs[1..], sawError);
      assert forall i | 0 < i < |outs| :: outs[i] == outs[1..][i - 1];
      if i :| 0 <= i < |outs| && outs[i] == OfBool(decisive) && i > 0 {
        assert outs[1..][i - 1] == OfBool(decisive);
      }
    }
  }

  lemma JunctionHolds(fs: seq<Filter>, combinesWithAnd: bool, doc: Value)
    ensures Holds(JunctionFilter(fs, combinesWithAnd), doc) <==>
      if combinesWithAnd then forall i | 0 <= i < |fs| :: Holds(fs[i], doc)
      else exists i | 0 <= i < |fs| :: Holds(fs[i], doc)
  {
    if |fs| == 1 {
      assert JunctionFilter(fs, combinesWithAnd) == fs[0];
    }
  }

  /** A negation is the operand emitted under the other polarity. */
  lemma NotEmitted(args: seq<Operand>, sc: Scope, negated: bool)
    requires args != [] && CanPush(Expr(Not, args), sc.mapper) && Emit(args[0], sc.mapper, !negated).Done?
    requires Agree(Emit(args[0], sc.mapper, !negated).result, args[0], sc, !negated) && !Evaluate(args[0], sc).Throw?
    ensures Emit(Expr(Not, args), sc.mapper, negated) == Emit(args[0], sc.mapper, !negated)
    ensures Agree(Emit(args[0], sc.mapper, !negated).result, Expr(Not, args), sc, negated)
    ensures !Evaluate(Expr(Not, args), sc).Throw?
  {
    hide Holds, FormOf;
    EvaluateStep(Not, args, sc);
  }

  /**
    Compiler correctness: a pushed plan's filter keeps a document exactly when CEL answers true for
    the plan, or for its negation when emitted under an odd number of `not`s.
   */
  lemma {:induction false} EmitCorrect(e: Operand, sc: Scope, negated: bool)
    requires CanPush(e, sc.mapper) && Emit(e, sc.mapper, negated).Done?
    requires sc.bindings == map[] && Faithful(e, sc, negated)
    ensures Agree(Emit(e, sc.mapper, negated).result, e, sc, negated)
    ensures !Evaluate(e, sc).Throw?
    decreases e
  {
    match e
    case Literal(_) =>
    case Variable(path) =>
      VariableLeaf(path, sc, negated);
    case Expr(op, args) =>
      if op.Compare? || op.In? {
        LeafEmitted(op, args, sc, negated);
      } else if op.Not? {
        EmitCorrect(args[0], sc, !negated);
        NotEmitted(args, sc, negated);
      } else {
        JunctionEmitted(op, args, sc, negated);
      }
  }

  lemma LeafEmitted(op: Operator, args: seq<Operand>, sc: Scope, negated: bool)
    requires op.Compare? || op.In?
    requires CanPush(Expr(op, args), sc.mapper) && sc.bindings == map[] && Faithful(Expr(op, args), sc, negated)
    ensures Agree(Emit(Expr(op, args), sc.mapper, negated).result, Expr(op, args), sc, negated)
    ensures !Evaluate(Expr(op, args), sc).Throw?
  {
    hide FormOf, StrictResult;
    StrictStep(op, args, sc);
    if op.In? {
      MembershipLeaf(args, sc, negated);
    } else if op.comparison == Eq || op.comparison == Ne {
      EqualityLeaf(op.comparison, args, sc, negated);
    } else {
      OrderingLeaf(op.comparison, args, sc, negated);
    }
  }

  lemma {:induction false} JunctionEmitted(op: Operator, args: seq<Operand>, sc: Scope, negated: bool)
    requires op.And? || op.Or?
    requires CanPush(Expr(op, args), sc.mapper) && EmitAll(args, sc.mapper, negated).Done?
    requires sc.bindings == map[] && Faithful(Expr(op, args), sc, negated)
    ensures var fs := EmitAll(args, sc.mapper, negated).result;
      Agree(JunctionFilter(fs, op.And? != negated), Expr(op, args), sc, negated)
    ensures !Evaluate(Expr(op, args), sc).Throw?
    decreases Expr(op, args), 0
  {
    var fs := EmitAll(args, sc.mapper, negated).result;
    var outs := Outcomes(args, sc);
    forall i | 0 <= i < |args|
      ensures !outs[i].Throw? && (Holds(fs[i], sc.doc) <==> outs[i] == OfBool(!negated))
    {
      EmitCorrect(args[i], sc, negated);
    }
    JunctionStep(op, args, sc);
    JunctionAgrees(op, fs, outs, sc.doc, negated);
  }

  lemma JunctionStep(op: Operator, args: seq<Operand>, sc: Scope)
    requires op.And? || op.Or?
    ensures Evaluate(Expr(op, args), sc) == Junction(op.Or?, Outcomes(args, sc), false)
  {
    EvaluateStep(op, args, sc);
  }

  /** Filters that agree operand by operand agree as a junction of either polarity. */
  lemma JunctionAgrees(op: Operator, fs: seq<Filter>, outs: seq<Outcome>, doc: Value, negated: bool)
    requires (op.And? || op.Or?) && |fs| == |outs| && Quiet(outs)
    requires forall i | 0 <= i < |fs| :: Holds(fs[i], doc) <==> outs[i] == OfBool(!negated)
    ensures Holds(JunctionFilter(fs, op.And? != negated), doc) <==> Junction(op.Or?, outs, false) == OfBool(!negated)
    ensures !Junction(op.Or?, outs, false).Throw?
  {
    JunctionQuiet(op.Or?, outs, false);
    JunctionDecides(op.Or?, outs, false);
    JunctionHolds(fs, op.And? != negated, doc);
  }
}
