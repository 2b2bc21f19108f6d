/** The compiler from plans to Convex's filter language, and that language's two-valued semantics. */
module Pushdown {
  import opened Wrappers
  import D = Doubles
  import opened Texts
  import opened Durations
  import opened Cel
  import opened Plans
  import opened Evaluator

  // ----- Convex filters -----

  /** What a filter term denotes: nothing, the empty byte string a guard names, or a stored value. */
  datatype Stored = Undefined | EmptyBytes | Plain(v: Value)

  datatype Term = Field(path: Path) | Constant(stored: Stored)

  datatype Method = QEq | QNeq | QLt | QLte | QGt | QGte

  datatype Filter =
    | Apply(call: Method, left: Term, right: Term)
    | QAnd(filters: seq<Filter>)
    | QOr(filters: seq<Filter>)
    | QNot(filter: Filter)

  /** undefined < null < int64 < float64 < boolean < string < bytes < array < object. */
  function Rank(s: Stored): nat {
    match s
    case Undefined => 0
    case EmptyBytes => 6
    case Plain(v) =>
      match v
      case Null => 1
      case BigInt(_) => 2
      case Num(_) => 3
      case Bool(_) => 4
      case Str(_) => 5
      case List(_) => 7
      case _ => 8
  }

  /** Structural equality of stored values; no two types share a value. */
  predicate StoredEqual(a: Value, b: Value)
    decreases a
  {
    match (a, b)
    case (Null, Null) => true
    case (Bool(x), Bool(y)) => x == y
    case (BigInt(x), BigInt(y)) => x == y
    case (Num(x), Num(y)) => D.Same(x, y)
    case (Str(x), Str(y)) => x == y
    case (List(x), List(y)) => |x| == |y| && forall i | 0 <= i < |x| :: StoredEqual(x[i], y[i])
    case (Map(_, x), Map(_, y)) => x.Keys == y.Keys && forall k | k in x.Keys :: StoredEqual(x[k], y[k])
    case _ => false
  }

  predicate TermsEqual(a: Stored, b: Stored) {
    match (a, b)
    case (Undefined, Undefined) => true
    case (EmptyBytes, EmptyBytes) => true
    case (Plain(x), Plain(y)) => StoredEqual(x, y)
    case _ => false
  }

  /** The order across types, and within the types that have one a filter can observe. */
  predicate TermsLess(a: Stored, b: Stored) {
    if Rank(a) != Rank(b) then Rank(a) < Rank(b)
    else match (a, b)
      case (Plain(BigInt(x)), Plain(BigInt(y))) => x < y
      case (Plain(Num(x)), Plain(Num(y))) => D.Less(x, y)
      case (Plain(Bool(x)), Plain(Bool(y))) => !x && y
      case (Plain(Str(x)), Plain(Str(y))) => LexOrder(x, y) < 0
      case _ => false
  }

  function TermValue(t: Term, doc: Value): Stored {
    match t
    case Constant(s) => s
    case Field(path) =>
      match Nested(doc, path)
      case Ok(v) => Plain(v)
      case _ => Undefined
  }

  predicate MethodHolds(m: Method, a: Stored, b: Stored) {
    match m
    case QEq => TermsEqual(a, b)
    case QNeq => !TermsEqual(a, b)
    case QLt => TermsLess(a, b)
    case QLte => TermsLess(a, b) || TermsEqual(a, b)
    case QGt => TermsLess(b, a)
    case QGte => TermsLess(b, a) || TermsEqual(a, b)
  }

  /** Whether Convex's engine keeps `doc`. */
  predicate Holds(f: Filter, doc: Value)
    decreases f
  {
    match f
    case Apply(m, a, b) => MethodHolds(m, TermValue(a, doc), TermValue(b, doc))
    case QAnd(fs) => forall i | 0 <= i < |fs| :: Holds(fs[i], doc)
    case QOr(fs) => exists i | 0 <= i < |fs| :: Holds(fs[i], doc)
    case QNot(g) => !Holds(g, doc)
  }

  // ----- the compiler -----

  function OfValue(v: Value): Term {
    Constant(Plain(v))
  }

  /** `q.eq(true, b)`: a filter that holds for every document or for none. */
  function Fixed(b: bool): Filter {
    Apply(QEq, OfValue(Bool(true)), OfValue(Bool(b)))
  }

  function Polarised(f: Filter, negated: bool): Filter {
    if negated then QNot(f) else f
  }

  datatype FieldAndLiteral = FieldAndLiteral(field: Path, literal: Value, swapped: bool)

  function FieldAndLiteralOf(operands: seq<Operand>): Option<FieldAndLiteral> {
    if |operands| < 2 then None
    else match (operands[0], operands[1])
      case (Variable(path), Literal(v)) => Some(FieldAndLiteral(path, v, false))
      case (Literal(v), Variable(path)) => Some(FieldAndLiteral(path, v, true))
      case _ => None
  }

  datatype FieldInList = FieldInList(field: Path, values: seq<Value>)

  function FieldInListOf(operands: seq<Operand>): Option<FieldInList> {
    if |operands| >= 2 && operands[0].Variable? && operands[1].Literal? && operands[1].value.List? then
      Some(FieldInList(operands[0].path, operands[1].value.items))
    else None
  }

  /** The comparison that holds once the operands are swapped. */
  function Mirrored(c: Comparison): Comparison {
    match c
    case Eq => Eq
    case Ne => Ne
    case Lt => Gt
    case Le => Ge
    case Gt => Lt
    case Ge => Le
  }

  function ConvexComparison(c: Comparison): Method {
    match c
    case Eq => QEq
    case Ne => QNeq
    case Lt => QLt
    case Le => QLte
    case Gt => QGt
    case Ge => QGte
  }

  /** A filter confining a field to the literal's type; none for a literal CEL cannot order. */
  function SameTypeAs(literal: Value, field: Term): Option<Filter> {
    match literal
    case Num(_) =>
      Some(QAnd([Apply(QGt, field, OfValue(BigInt(INT64_MAX))), Apply(QLt, field, OfValue(Bool(false)))]))
    case Bool(_) =>
      Some(QAnd([Apply(QGte, field, OfValue(Bool(false))), Apply(QLte, field, OfValue(Bool(true)))]))
    case Str(_) =>
      Some(QAnd([Apply(QGte, field, OfValue(Str(""))), Apply(QLt, field, Constant(EmptyBytes))]))
    case _ => None
  }

  function EmitComparison(c: Comparison, pair: FieldAndLiteral, mapper: Mapper, negated: bool): Filter {
    var field := Field(ResolveField(pair.field, mapper));
    var compared :=
      Apply(ConvexComparison(if pair.swapped then Mirrored(c) else c), field, OfValue(pair.literal));
    if c == Eq || c == Ne then Polarised(compared, negated)
    else
      var guard := SameTypeAs(pair.literal, field);
      if guard.None? then Fixed(false) else QAnd([guard.value, Polarised(compared, negated)])
  }

  function EmitMembership(membership: FieldInList, mapper: Mapper, negated: bool): Filter {
    var field := Field(ResolveField(membership.field, mapper));
    var values := membership.values;
    var built :=
      if |values| == 0 then Fixed(false)
      else if |values| == 1 then Apply(QEq, field, OfValue(values[0]))
      else QOr(seq(|values|, i requires 0 <= i < |values| => Apply(QEq, field, OfValue(values[i]))));
    Polarised(built, negated)
  }

  /** Whether Convex's filter engine answers `e` exactly as CEL does. */
  predicate CanPush(e: Operand, mapper: Mapper)
    decreases e
  {
    match e
    case Literal(_) => true
    case Variable(path) => !IsNullableField(path, mapper)
    case Expr(op, args) =>
      if op.Compare? then
        var pair := FieldAndLiteralOf(args);
        pair.Some? && !IsNullableField(pair.value.field, mapper)
      else if op.In? then
        var membership := FieldInListOf(args);
        membership.Some? && !IsNullableField(membership.value.field, mapper)
      else if op.And? || op.Or? || op.Not? then
        forall i | 0 <= i < |args| :: CanPush(args[i], mapper)
      else false
  }

  /** `and`/`or` over operands that already carry the enclosing polarity. */
  function JunctionFilter(emitted: seq<Filter>, combinesWithAnd: bool): Filter {
    if |emitted| == 0 then Fixed(combinesWithAnd)
    else if |emitted| == 1 then emitted[0]
    else if combinesWithAnd then QAnd(emitted)
    else QOr(emitted)
  }

  /** The filter for `e` under an odd (`negated`) or even number of enclosing `not`s. */
  function Emit(e: Operand, mapper: Mapper, negated: bool): Translation<Filter>
    decreases e
  {
    match e
    case Literal(v) => if v.Bool? then Done(Polarised(Fixed(v.b), negated)) else Refused
    case Variable(path) =>
      Done(Polarised(Apply(QEq, Field(ResolveField(path, mapper)), OfValue(Bool(true))), negated))
    case Expr(op, args) =>
      match op
      case And => var fs :- EmitAll(args, mapper, negated); Done(JunctionFilter(fs, !negated))
      case Or => var fs :- EmitAll(args, mapper, negated); Done(JunctionFilter(fs, negated))
      case Not => if args == [] then Refused else Emit(args[0], mapper, !negated)
      case Compare(c) =>
        var pair := FieldAndLiteralOf(args);
        if pair.None? then Refused else Done(EmitComparison(c, pair.value, mapper, negated))
      case In =>
        var membership := FieldInListOf(args);
        if membership.None? then Refused else Done(EmitMembership(membership.value, mapper, negated))
      case _ => Refused
  }

  function EmitAll(es: seq<Operand>, mapper: Mapper, negated: bool): (r: Translation<seq<Filter>>)
    ensures r.Done? ==> |r.result| == |es|
    ensures r.Done? ==> forall i | 0 <= i < |es| :: Emit(es[i], mapper, negated) == Done(r.result[i])
    ensures r.Refused? ==> exists i | 0 <= i < |es| :: Emit(es[i], mapper, negated).Refused?
    decreases es
  {
    if es == [] then Done([])
    else
      var f :- Emit(es[0], mapper, negated);
      var fs :- EmitAll(es[1..], mapper, negated);
      Done([f] + fs)
  }
}
