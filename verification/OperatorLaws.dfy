/** What each operator of the evaluator answers, in terms of its operands' values alone. */
module OperatorLaws {
  import opened Wrappers
  import D = Doubles
  import opened DoubleLaws
  import opened Texts
  import opened Splitting
  import opened Durations
  import opened Cel
  import opened IntLaws
  import opened Plans
  import opened Evaluator
  import opened EvaluatorLaws
  import opened PlanTypes
  import opened ListLaws
  import opened ValueLaws

  ghost predicate Has(e: Operand, v: Value, sc: Scope) {
    Evaluate(e, sc) == Ok(v)
  }

  function Unary(op: Operator, x: Operand): Operand {
    Expr(op, [x])
  }

  function Binary(op: Operator, x: Operand, y: Operand): Operand {
    Expr(op, [x, y])
  }

  // ----- operands -----

  predicate TakesTwo(op: Operator) {
    match op
    case Compare(_) => true
    case In => true
    case Test(_) => true
    case Matches => true
    case Arith(_) => true
    case Index => true
    case Relate(_) => true
    case Except => true
    case Intersect => true
    case IsSubset => true
    case HasIntersection => true
    case GetField => true
    case _ => false
  }

  predicate TakesOne(op: Operator) {
    match op
    case Not => true
    case Size => true
    case ToString => true
    case ToDouble => true
    case ToInt => true
    case UpperAscii => true
    case ToDuration => true
    case SinceNow => true
    case ToTimestamp => true
    case ToHierarchy => true
    case _ => false
  }

  /** A missing operand is an exception, and so are a lambda, an entry and an unknown operator by themselves. */
  lemma MissingOperandThrows(op: Operator, args: seq<Operand>, sc: Scope)
    requires
      if TakesTwo(op) then |args| < 2
      else if TakesOne(op) then args == []
      else op.Lambda? || op.SetField? || op.Unlisted? || (op.If? && args == [])
    ensures Evaluate(Expr(op, args), sc) == Throw
  {
    hide Evaluate, FormOf, ApplyOne, ApplyTwo;
    EvaluateStep(op, args, sc);
  }

  /** An operand's exception is the operator's, and its error too where no operand raises an exception. */
  lemma FailureSpreads(op: Operator, x: Operand, y: Operand, sc: Scope)
    requires TakesTwo(op) && op != GetField
    ensures var a, b, r := Evaluate(x, sc), Evaluate(y, sc), Evaluate(Binary(op, x, y), sc);
      (a.Throw? || b.Throw? ==> r == Throw) && (!a.Throw? && !b.Throw? && (a.Err? || b.Err?) ==> r == Err)
  {
    hide Evaluate, FormOf, ApplyTwo;
    BinaryStep(op, x, y, sc);
  }

  lemma FailurePasses(op: Operator, x: Operand, sc: Scope)
    requires TakesOne(op) && !Evaluate(x, sc).Ok?
    ensures Evaluate(Unary(op, x), sc) == Evaluate(x, sc)
  {
    hide Evaluate, FormOf, ApplyOne;
    UnaryStep(op, x, sc);
  }

  // ----- strings -----

  predicate Around(s: string, before: string, t: string, after: string) {
    s == before + t + after
  }

  /** Where the argument stands in the receiver: anywhere, first, or last. */
  ghost predicate Stands(test: StringTest, s: string, t: string) {
    exists before, after ::
      Around(s, before, t, after) && (test.Prefix? ==> before == "") && (test.Suffix? ==> after == "")
  }

  lemma StandsAt(test: StringTest, s: string, t: string)
    ensures Stands(test, s, t) <==>
      match test
      case Contains => Includes(s, t)
      case Prefix => StartsWith(s, t)
      case Suffix => EndsWith(s, t)
  {
    if Stands(test, s, t) {
      var before, after :|
        Around(s, before, t, after) && (test.Prefix? ==> before == "") && (test.Suffix? ==> after == "");
      LiesBetween(before, t, after, s);
      assert OccursAt(s, t, |before|);
    }
    match test
    case Contains =>
      if Includes(s, t) {
        var i :| 0 <= i <= |s| && OccursAt(s, t, i);
        assert Around(s, s[..i], t, s[i + |t|..]);
      }
    case Prefix =>
      if StartsWith(s, t) {
        assert Around(s, "", t, s[|t|..]);
      }
    case Suffix =>
      if EndsWith(s, t) {
        assert Around(s, s[..|s| - |t|], t, "");
      }
  }

  /** `contains`, `startsWith` and `endsWith` find the argument in the receiver; only strings have them. */
  lemma StringTests(test: StringTest, x: Operand, y: Operand, a: Value, b: Value, sc: Scope)
    requires Has(x, a, sc) && Has(y, b, sc)
    ensures Evaluate(Binary(Test(test), x, y), sc) ==
      if a.Str? && b.Str? then OfBool(Stands(test, a.s, b.s)) else Err
  {
    hide Evaluate, FormOf, Includes, StartsWith, EndsWith, Stands;
    BinaryStep(Test(test), x, y, sc);
    if a.Str? && b.Str? {
      StandsAt(test, a.s, b.s);
    }
  }

  const LOWER := "abcdefghijklmnopqrstuvwxyz"
  const UPPER := "ABCDEFGHIJKLMNOPQRSTUVWXYZ"

  /** The second character is the first one with a Latin letter in upper case. */
  ghost predicate Raised(c: char, r: char) {
    (c !in LOWER && r == c) || exists k | 0 <= k < 26 :: LOWER[k] == c && UPPER[k] == r
  }

  lemma LetterRaised(c: char)
    ensures Raised(c, if 'a' <= c <= 'z' then (c as int - 'a' as int + 'A' as int) as char else c)
  {
    assert forall k | 0 <= k < 26 :: LOWER[k] as int == 'a' as int + k && UPPER[k] as int == 'A' as int + k;
    if 'a' <= c <= 'z' {
      var k := c as int - 'a' as int;
      assert LOWER[k] == c;
    } else {
      assert c !in LOWER;
    }
  }

  /** `upperAscii()` raises each Latin letter in its place and leaves every other character. */
  lemma UpperAsciiRaises(x: Operand, a: Value, sc: Scope)
    requires Has(x, a, sc)
    ensures var r := Evaluate(Unary(UpperAscii, x), sc);
      if a.Str? then
        r.Ok? && r.value.Str? && |r.value.s| == |a.s| &&
        forall i | 0 <= i < |a.s| :: Raised(a.s[i], r.value.s[i])
      else r == Err
  {
    hide Evaluate, FormOf, Raised;
    UnaryStep(UpperAscii, x, sc);
    if a.Str? {
      forall i | 0 <= i < |a.s| ensures Raised(a.s[i], UpperAsciiText(a.s)[i]) {
        LetterRaised(a.s[i]);
      }
    }
  }

  /** `matches` asks the engine about its first operand under the pattern its second one is. */
  lemma MatchesPattern(x: Operand, y: Operand, a: Value, b: Value, sc: Scope)
    requires Has(x, a, sc) && Has(y, b, sc)
    ensures Evaluate(Binary(Matches, x, y), sc) ==
      if !a.Str? || !b.Str? || sc.host.matchPattern(a.s, b.s).None? then Err
      else OfBool(sc.host.matchPattern(a.s, b.s).value)
  {
    hide Evaluate, FormOf;
    BinaryStep(Matches, x, y, sc);
  }

  // ----- collections -----

  /** `index`: the element a whole number counts to, or the value a key has; else an error. */
  lemma IndexReads(x: Operand, y: Operand, a: Value, b: Value, sc: Scope)
    requires Has(x, a, sc) && Has(y, b, sc)
    ensures var r := Evaluate(Binary(Index, x, y), sc);
      match (a, b)
      case (List(items), Num(d)) =>
        (forall i | 0 <= i < |items| && Denotes(d, i) :: r == Ok(items[i])) &&
        ((forall i | 0 <= i < |items| :: !Denotes(d, i)) ==> r == Err)
      case (Map(_, entries), Str(key)) => r == if key in entries then Ok(entries[key]) else Err
      case _ => r == Err
  {
    hide Evaluate, FormOf;
    BinaryStep(Index, x, y, sc);
    if a.List? && b.Num? && b.n.Fin? {
      TruncatesTowardZero(b.n);
      assert b.n.IsInteger() ==> Denotes(b.n, b.n.Truncated());
    }
  }

  /** `size()` counts a string's code points, a list's elements and a map's keys. */
  lemma SizeCounts(x: Operand, a: Value, sc: Scope)
    requires Has(x, a, sc)
    ensures Evaluate(Unary(Size, x), sc) ==
      match a
      case Str(s) => Ok(Num(D.FromReal(|s| as real)))
      case List(items) => Ok(Num(D.FromReal(|items| as real)))
      case Map(keys, _) => Ok(Num(D.FromReal(|keys| as real)))
      case _ => Err
  {
    hide Evaluate, FormOf;
    UnaryStep(Size, x, sc);
  }

  /** What `in` looks through: the elements of a list, the keys of a map. */
  ghost predicate Holds(b: Value, v: Value) {
    match b
    case List(items) => exists i | 0 <= i < |items| :: ValuesEqual(items[i], v)
    case Map(keys, _) => v.Str? && v.s in keys
    case _ => false
  }

  lemma InLooks(x: Operand, y: Operand, a: Value, b: Value, sc: Scope)
    requires Has(x, a, sc) && Has(y, b, sc)
    ensures Evaluate(Binary(In, x, y), sc) == if b.List? || b.Map? then OfBool(Holds(b, a)) else Err
  {
    hide Evaluate, FormOf, ValuesEqual;
    BinaryStep(In, x, y, sc);
    if b.Map? {
      KeysHold(b, a);
    }
  }

  lemma KeysHold(b: Value, v: Value)
    requires b.Map?
    ensures ListContains(MacroItems(b).value, v) <==> v.Str? && v.s in b.keys
  {
    var items := MacroItems(b).value;
    forall i | 0 <= i < |items| ensures ValuesEqual(items[i], v) <==> v == Str(b.keys[i]) {
      assert items[i] == Str(b.keys[i]);
    }
    if v.Str? && v.s in b.keys {
      var i :| 0 <= i < |b.keys| && b.keys[i] == v.s;
      assert ValuesEqual(items[i], v);
    }
  }

  /** Those of `items` that `other` has an equal of (`present`) or has not, in their order. */
  ghost function Those(items: seq<Value>, other: seq<Value>, present: bool): seq<Value> {
    if items == [] then []
    else
      var front, last := items[..|items| - 1], items[|items| - 1];
      Those(front, other, present) +
      if (exists i | 0 <= i < |other| :: ValuesEqual(other[i], last)) == present then [last] else []
  }

  lemma {:induction false} SelectAppends(items: seq<Value>, last: Value, other: seq<Value>, keep: bool)
    ensures Select(items + [last], other, keep) ==
      Select(items, other, keep) + if ListContains(other, last) == keep then [last] else []
    decreases |items|
  {
    hide ListContains;
    if items == [] {
      assert [last][1..] == [];
    } else {
      assert (items + [last])[1..] == items[1..] + [last];
      SelectAppends(items[1..], last, other, keep);
    }
  }

  lemma {:induction false} SelectIsThose(items: seq<Value>, other: seq<Value>, keep: bool)
    ensures Select(items, other, keep) == Those(items, other, keep)
    decreases |items|
  {
    if items != [] {
      var front, last := items[..|items| - 1], items[|items| - 1];
      assert items == front + [last];
      SelectIsThose(front, other, keep);
      SelectAppends(front, last, other, keep);
    }
  }

  /** The four list operations, each over two lists. */
  lemma ListOperations(op: Operator, x: Operand, y: Operand, a: Value, b: Value, sc: Scope)
    requires op.Except? || op.Intersect? || op.IsSubset? || op.HasIntersection?
    requires Has(x, a, sc) && Has(y, b, sc)
    ensures var r := Evaluate(Binary(op, x, y), sc);
      if !a.List? || !b.List? then r == Err
      else match op
        case Except => r == Ok(List(Those(a.items, b.items, false)))
        case Intersect =>
          r == Ok(List(if |b.items| < |a.items| then Those(b.items, a.items, true)
                       else Those(a.items, b.items, true)))
        case IsSubset => r == OfBool(Those(a.items, b.items, false) == [])
        case _ => r == OfBool(Those(a.items, b.items, true) != [])
  {
    hide Evaluate, FormOf, ValuesEqual, Those;
    BinaryStep(op, x, y, sc);
    if a.List? && b.List? {
      ListResult(op, a.items, b.items);
    }
  }

  lemma ListResult(op: Operator, a: seq<Value>, b: seq<Value>)
    requires op.Except? || op.Intersect? || op.IsSubset? || op.HasIntersection?
    ensures ListOperation(op, List(a), List(b)) ==
      match op
      case Except => Ok(List(Those(a, b, false)))
      case Intersect => Ok(List(if |b| < |a| then Those(b, a, true) else Those(a, b, true)))
      case IsSubset => OfBool(Those(a, b, false) == [])
      case _ => OfBool(Those(a, b, true) != [])
  {
    hide ValuesEqual, Those, Select;
    SelectIsThose(a, b, false);
    SelectIsThose(a, b, true);
    SelectIsThose(b, a, true);
    SubsetIsEmptyExcept(a, b);
    SelectIsIntersection(a, b);
  }

  // ----- hierarchies -----

  /** `hierarchy(x)`: a string cut at the dots, a list of strings, or a hierarchy as it is. */
  lemma HierarchyOne(x: Operand, a: Value, sc: Scope)
    requires Has(x, a, sc)
    ensures var r := Evaluate(Unary(ToHierarchy, x), sc);
      match a
      case Str(s) => r == Ok(Hierarchy(Split(s, ".")))
      case Hierarchy(_) => r == Ok(a)
      case List(items) =>
        if exists i | 0 <= i < |items| :: !items[i].Str? then r == Err
        else
          r.Ok? && r.value.Hierarchy? && |r.value.segments| == |items| &&
          forall i | 0 <= i < |items| :: items[i] == Str(r.value.segments[i])
      case _ => r == Err
  {
    hide Evaluate, FormOf, Split;
    UnaryStep(ToHierarchy, x, sc);
  }

  /** `hierarchy(x, y)`: cut at each delimiter, or into characters where it is empty. */
  lemma HierarchyTwo(x: Operand, y: Operand, a: Value, b: Value, sc: Scope)
    requires Has(x, a, sc) && Has(y, b, sc)
    ensures var r := Evaluate(Binary(ToHierarchy, x, y), sc);
      if !a.Str? || !b.Str? then r == Err
      else if b.s != "" then r == Ok(Hierarchy(Split(a.s, b.s)))
      else
        r.Ok? && r.value.Hierarchy? && |r.value.segments| == |a.s| &&
        forall i | 0 <= i < |a.s| :: r.value.segments[i] == [a.s[i]]
  {
    hide Evaluate, FormOf, Split;
    BinaryStep(ToHierarchy, x, y, sc);
  }

  predicate Continues(path: seq<string>, longer: seq<string>, rest: seq<string>) {
    longer == path + rest
  }

  ghost predicate Begins(path: seq<string>, longer: seq<string>) {
    exists rest :: Continues(path, longer, rest)
  }

  lemma BeginsExactly(path: seq<string>, longer: seq<string>)
    ensures Begins(path, longer) <==> |path| <= |longer| && SegmentPrefix(path, longer)
  {
    if |path| <= |longer| && SegmentPrefix(path, longer) {
      assert Continues(path, longer, longer[|path|..]);
    }
  }

  /** The relations: one path begins the other, strictly for the two ancestry tests. */
  lemma Relates(relation: Relation, x: Operand, y: Operand, a: Value, b: Value, sc: Scope)
    requires Has(x, a, sc) && Has(y, b, sc)
    ensures Evaluate(Binary(Relate(relation), x, y), sc) ==
      if !a.Hierarchy? || !b.Hierarchy? then Err
      else OfBool(match relation
        case AncestorOf => Begins(a.segments, b.segments) && a.segments != b.segments
        case DescendentOf => Begins(b.segments, a.segments) && a.segments != b.segments
        case Overlaps => Begins(a.segments, b.segments) || Begins(b.segments, a.segments))
  {
    hide Evaluate, FormOf, Begins;
    BinaryStep(Relate(relation), x, y, sc);
    if a.Hierarchy? && b.Hierarchy? {
      BeginsExactly(a.segments, b.segments);
      BeginsExactly(b.segments, a.segments);
      SamePath(a.segments, b.segments);
    }
  }

  lemma SamePath(a: seq<string>, b: seq<string>)
    ensures |a| == |b| && SegmentPrefix(a, b) <==> a == b
    ensures |a| == |b| ==> (SegmentPrefix(a, b) <==> SegmentPrefix(b, a))
  {
  }

  // ----- comparison and logic -----

  /** The six comparisons order values within a type; between types only equality has an answer. */
  lemma Compares(c: Comparison, x: Operand, y: Operand, a: Value, b: Value, sc: Scope)
    requires Has(x, a, sc) && Has(y, b, sc)
    ensures Evaluate(Binary(Compare(c), x, y), sc) ==
      if c == Eq || c == Ne then OfBool(Meets(c, a, b))
      else if a == Num(D.NaN) || b == Num(D.NaN) then OfBool(false)
      else if Ordered(a, b) then OfBool(Meets(c, a, b))
      else Err
  {
    hide Evaluate, FormOf, Meets, CompareValues;
    BinaryStep(Compare(c), x, y, sc);
    ComparesByOrder(c, a, b);
  }

  lemma Negates(x: Operand, a: Value, sc: Scope)
    requires Has(x, a, sc)
    ensures Evaluate(Unary(Not, x), sc) == if a == Bool(true) then OfBool(false)
      else if a == Bool(false) then OfBool(true) else Err
  {
    hide Evaluate, FormOf;
    UnaryStep(Not, x, sc);
  }

  /** The condition chooses a branch, and the other one is not looked at. */
  lemma TernaryAnswers(condition: Operand, yes: Operand, no: Operand, sc: Scope)
    ensures var r := Evaluate(Expr(If, [condition, yes, no]), sc);
      match Evaluate(condition, sc)
      case Throw => r == Throw
      case Err => r == Err
      case Ok(v) =>
        r == if v == Bool(true) then Evaluate(yes, sc) else if v == Bool(false) then Evaluate(no, sc) else Err
  {
    hide Evaluate;
    var args := [condition, yes, no];
    EvaluateStep(If, args, sc);
    assert Evaluated(If, args) == args;
  }

  // ----- arithmetic -----

  /** Timestamps and durations: the exact sum or difference, within the calendar or int64, by overload alone. */
  lemma TemporalArithmetic(op: Arithmetic, x: Operand, y: Operand, a: Value, b: Value, sc: Scope)
    requires op == Add || op == Sub
    requires Typing(x) in {Instant, Elapsed} || Typing(y) in {Instant, Elapsed}
    requires Has(x, a, sc) && Has(y, b, sc)
    ensures var r, overload := Evaluate(Binary(Arith(op), x, y), sc), (op, Typing(x), Typing(y));
      if overload !in OVERLOADS then r == Err
      else
        HasType(Typing(x), a) && HasType(Typing(y), b) &&
        var exact := if op == Add then Nanos(a) + Nanos(b) else Nanos(a) - Nanos(b);
        if OVERLOADS[overload] == Instant then r == if InCalendar(exact) then Ok(BigInt(exact)) else Err
        else r == if InInt64(exact) then Ok(Duration(exact)) else Err
  {
    hide Evaluate, Typing, FormOf, InCalendar;
    var op2 := Arith(op);
    BinaryStep(op2, x, y, sc);
    FormIsTyped(op, [x, y], sc.bindings.Keys);
    SumTyped(op, x, y, sc.bindings.Keys);
    Sound(x, a, sc);
    Sound(y, b, sc);
    CalendarBounds();
    TemporalResult(op, FormOf(op2, [x, y], sc.bindings.Keys), a, b);
  }

  /** A value's nanoseconds: since the epoch, or elapsed. */
  function Nanos(v: Value): int {
    if v.BigInt? then v.i else if v.Duration? then v.nanos else 0
  }

  /** Days in the first `years` years of the Gregorian calendar. */
  function DaysOf(years: nat): nat {
    365 * years + years / 4 - years / 100 + years / 400
  }

  const NANOS_A_DAY := 24 * 60 * 60 * 1_000_000_000

  /** From the first instant of year 1 to the last nanosecond of year 9999. */
  predicate InCalendar(nanos: int) {
    0 <= nanos + DaysOf(1969) * NANOS_A_DAY < DaysOf(9999) * NANOS_A_DAY
  }

  lemma CalendarBounds()
    ensures forall nanos :: InCalendar(nanos) <==> MIN_TIMESTAMP <= nanos <= MAX_TIMESTAMP
  {
    assert DaysOf(1969) == 719162 && DaysOf(9999) == 3652059;
  }

  lemma Sound(e: Operand, v: Value, sc: Scope)
    requires Has(e, v, sc)
    ensures HasType(Typing(e), v)
  {
    hide Evaluate, Typing;
    if Typing(e) != Unsaid {
      TypingIsSound(e, sc);
    }
  }

  /** The type of a sum of two operands, by its overload. */
  lemma SumTyped(op: Arithmetic, x: Operand, y: Operand, bound: set<string>)
    requires op == Add || op == Sub
    requires Typing(x) in {Instant, Elapsed} || Typing(y) in {Instant, Elapsed}
    ensures var form := FormOf(Arith(op), [x, y], bound);
      form.ArithmeticForm? && form.temporal &&
      form.kind ==
        if (op, Typing(x), Typing(y)) in OVERLOADS then KindOfType(OVERLOADS[(op, Typing(x), Typing(y))]) else None
  {
    hide Typing, TemporalKindOf, IsIntExpression;
    ShapesAreTypes(x);
    ShapesAreTypes(y);
    var args := [x, y];
    assert TemporalKindOf(args[0]).Some? || TemporalKindOf(args[1]).Some?;
  }

  lemma TemporalResult(op: Arithmetic, form: Form, a: Value, b: Value)
    requires form.ArithmeticForm? && form.temporal && (op == Add || op == Sub)
    requires form.kind.Some? ==> (a.BigInt? || a.Duration?) && (b.BigInt? || b.Duration?)
    ensures var exact := if op == Add then Nanos(a) + Nanos(b) else Nanos(a) - Nanos(b);
      ArithmeticOf(op, form, a, b) ==
      if form.kind.None? then Err
      else if form.kind == Some(Timestamp) then
        if MIN_TIMESTAMP <= exact <= MAX_TIMESTAMP then Ok(BigInt(exact)) else Err
      else if InInt64(exact) then Ok(Duration(exact)) else Err
  {
  }

  /** Int arithmetic is exact, and errs outside int64 and on a zero divisor. */
  lemma IntArithmeticExact(op: Arithmetic, x: Operand, y: Operand, a: Value, b: Value, sc: Scope)
    requires Typing(Binary(Arith(op), x, y)) == Whole
    requires Has(x, a, sc) && Has(y, b, sc)
    ensures ToBigInt(a).Some? && ToBigInt(b).Some?
    ensures var r := Evaluate(Binary(Arith(op), x, y), sc);
      var exact := Exact(op, ToBigInt(a).value, ToBigInt(b).value);
      if exact.Some? && InInt64(exact.value) then r.Ok? && ToBigInt(r.value) == exact else r == Err
  {
    hide Evaluate, Typing, FormOf, ToBigInt, Exact, IntArithmetic;
    BinaryStep(Arith(op), x, y, sc);
    FormIsTyped(op, [x, y], sc.bindings.Keys);
    IntOperands(op, x, y);
    Sound(x, a, sc);
    Sound(y, b, sc);
    WholeValues(a);
    WholeValues(b);
    ArithmeticIsExact(op, a, b);
  }

  lemma WholeValues(v: Value)
    ensures HasType(WholeConstant, v) ==> ToBigInt(v).Some?
  {
    if v.Num? {
      WholeNumbers(v.n);
    }
  }

  lemma IntOperands(op: Arithmetic, x: Operand, y: Operand)
    requires Typing(Binary(Arith(op), x, y)) == Whole
    ensures Typing(x) in {Whole, WholeConstant} && Typing(y) in {Whole, WholeConstant}
  {
    hide TemporalKindOf;
    ShapesAreTypes(Binary(Arith(op), x, y));
    ShapesAreTypes(x);
    ShapesAreTypes(y);
    var args := [x, y];
    assert IsIntExpression(Expr(Arith(op), args));
    assert IsIntegerLiteral(args[0]) || IsIntExpression(args[0]);
    assert IsIntegerLiteral(args[1]) || IsIntExpression(args[1]);
  }

  /** Whether the operand reads the document: a number there is a double. */
  predicate ReadsDocument(e: Operand, sc: Scope) {
    e.Variable? && e.path[0] !in sc.bindings
  }

  /** Whether CEL has no overload for the two: an int beside a double. */
  ghost predicate MixesTypes(x: Operand, y: Operand, sc: Scope) {
    (Typing(x) == Whole && (Typing(y) == Fraction || ReadsDocument(y, sc))) ||
    (Typing(y) == Whole && (Typing(x) == Fraction || ReadsDocument(x, sc)))
  }

  lemma PlainForm(op: Arithmetic, x: Operand, y: Operand, sc: Scope)
    requires Typing(Binary(Arith(op), x, y)) != Whole
    requires Typing(x) !in {Instant, Elapsed} && Typing(y) !in {Instant, Elapsed}
    ensures var form := FormOf(Arith(op), [x, y], sc.bindings.Keys);
      form.ArithmeticForm? && !form.temporal && !form.isInt && (form.mixed <==> MixesTypes(x, y, sc)) &&
      (form.variable <==> x.Variable? || y.Variable?) && (form.documentDivisor <==> ReadsDocument(y, sc))
  {
    hide Typing, TemporalKindOf, IsIntExpression, IsFractionalLiteral;
    var args := [x, y];
    ShapesAreTypes(x);
    ShapesAreTypes(y);
    ShapesAreTypes(Expr(Arith(op), args));
    assert AnyTemporal(args) ==> TemporalKindOf(x).Some? || TemporalKindOf(y).Some?;
    AnyOfTwo(args, sc.bindings.Keys);
    Kinds(x);
    Kinds(y);
  }

  lemma Kinds(x: Operand)
    ensures Typing(x) == Whole ==> !x.Variable?
  {
  }

  lemma AnyOfTwo(args: seq<Operand>, bound: set<string>)
    requires |args| == 2
    ensures AnyInt(args) <==> IsIntExpression(args[0]) || IsIntExpression(args[1])
    ensures AnyDouble(args, bound) <==> IsDoubleOperand(args[0], bound) || IsDoubleOperand(args[1], bound)
    ensures AnyVariable(args) <==> args[0].Variable? || args[1].Variable?
  {
  }

  /** Doubles: the IEEE result, save that a zero divisor not read from the document raises an exception. */
  lemma NumberArithmeticIs(op: Arithmetic, x: Operand, y: Operand, a: D.Double, b: D.Double, sc: Scope)
    requires Typing(Binary(Arith(op), x, y)) != Whole
    requires Has(x, Num(a), sc) && Has(y, Num(b), sc)
    ensures Evaluate(Binary(Arith(op), x, y), sc) ==
      if MixesTypes(x, y, sc) then Err
      else match op
        case Add => Ok(Num(D.Add(a, b)))
        case Sub => Ok(Num(D.Sub(a, b)))
        case Mult => Ok(Num(D.Mul(a, b)))
        case Div => if b.IsZero() && !a.IsZero() && !ReadsDocument(y, sc) then Throw else Ok(Num(D.Div(a, b)))
        case Mod => if x.Variable? || y.Variable? || b.IsZero() then Err else Ok(Num(D.Mod(a, b)))
  {
    hide Evaluate, Typing, FormOf, MixesTypes;
    BinaryStep(Arith(op), x, y, sc);
    Sound(x, Num(a), sc);
    Sound(y, Num(b), sc);
    PlainForm(op, x, y, sc);
  }

  /** `+` joins two strings, or two lists, the first operand's first; no other operator takes either. */
  lemma Concatenates(op: Arithmetic, x: Operand, y: Operand, a: Value, b: Value, sc: Scope)
    requires a.Str? || a.List?
    requires Has(x, a, sc) && Has(y, b, sc)
    ensures var r := Evaluate(Binary(Arith(op), x, y), sc);
      match (a, b)
      case (Str(s), Str(t)) => r == if op == Add then Ok(Str(s + t)) else Err
      case (List(v), List(w)) => r == if op == Add then Ok(List(v + w)) else Err
      case _ => r == Err
  {
    hide Evaluate, Typing, FormOf, MixesTypes, ArithmeticOf;
    BinaryStep(Arith(op), x, y, sc);
    Sound(x, a, sc);
    Sound(y, b, sc);
    FormIsTyped(op, [x, y], sc.bindings.Keys);
    Untyped(a, Typing(x));
    if Typing(Binary(Arith(op), x, y)) == Whole {
      IntOperands(op, x, y);
    }
    if b.Str? || b.List? {
      Untyped(b, Typing(y));
      PlainForm(op, x, y, sc);
      Unmixed(x, y, sc);
    }
    Joined(op, FormOf(Arith(op), [x, y], sc.bindings.Keys), a, b);
  }

  /** Only an expression of no certain type has a string or a list. */
  lemma Untyped(v: Value, t: CelType)
    requires (v.Str? || v.List?) && HasType(t, v)
    ensures t == Unsaid
  {
  }

  lemma Unmixed(x: Operand, y: Operand, sc: Scope)
    requires Typing(x) == Unsaid && Typing(y) == Unsaid
    ensures !MixesTypes(x, y, sc)
  {
  }

  lemma Joined(op: Arithmetic, form: Form, a: Value, b: Value)
    requires (a.Str? || a.List?) && form.ArithmeticForm? && !form.isInt
    requires b.Str? || b.List? ==> !form.temporal && !form.mixed
    ensures ArithmeticOf(op, form, a, b) ==
      match (a, b)
      case (Str(s), Str(t)) => if op == Add then Ok(Str(s + t)) else Err
      case (List(v), List(w)) => if op == Add then Ok(List(v + w)) else Err
      case _ => Err
  {
  }

  // ----- conversions -----

  /** `timeSince(t)`: the time from `t` to now, held within int64; only of a timestamp. */
  lemma SinceNowMeasures(x: Operand, a: Value, sc: Scope)
    requires Has(x, a, sc)
    ensures var r := Evaluate(Unary(SinceNow, x), sc);
      if Typing(x) != Instant then r == Err
      else
        a.BigInt? && r.Ok? && r.value.Duration? && InInt64(r.value.nanos) &&
        var elapsed := sc.host.now - a.i;
        (InInt64(elapsed) ==> r.value.nanos == elapsed) &&
        (elapsed > r.value.nanos ==> r.value.nanos == INT64_MAX) &&
        (elapsed < r.value.nanos ==> r.value.nanos == INT64_MIN)
  {
    hide Evaluate, Typing, TemporalKindOf;
    UnaryStep(SinceNow, x, sc);
    ShapesAreTypes(x);
    Sound(x, a, sc);
  }

  lemma TimestampParses(x: Operand, a: Value, sc: Scope)
    requires Has(x, a, sc)
    ensures Evaluate(Unary(ToTimestamp, x), sc) ==
      if !a.Str? || sc.host.parseTimestamp(a.s).None? then Err
      else Ok(BigInt(sc.host.parseTimestamp(a.s).value))
  {
    hide Evaluate, FormOf;
    UnaryStep(ToTimestamp, x, sc);
  }

  lemma DurationParses(x: Operand, a: Value, sc: Scope)
    requires Has(x, a, sc)
    ensures Evaluate(Unary(ToDuration, x), sc) ==
      if !a.Str? then Err
      else match ParseDuration(a.s, sc.host.fractionStep)
        case Read(nanos) => Ok(Duration(nanos))
        case Rejected => Err
        case Raised => Throw
  {
    hide Evaluate, FormOf, ParseDuration;
    UnaryStep(ToDuration, x, sc);
  }

  /** The int nearest a real on the side of zero. */
  function TowardZero(r: real): int {
    if r < 0.0 then 0 - (0.0 - r).Floor else r.Floor
  }

  /** What `int()` makes of a value before int64 is checked; a double must lie strictly between the bounds. */
  function IntMeant(v: Value): Option<int> {
    match v
    case BigInt(i) => Some(i)
    case Num(d) =>
      if d.Fin? && -9223372036854775808.0 < d.Real() < 9223372036854775808.0 then Some(TowardZero(d.Real()))
      else None
    case Str(s) => IntSpelled(s)
    case _ => None
  }

  /** `int()` truncates a double toward zero, reads a numeral, and errs outside int64. */
  lemma IntConverts(x: Operand, a: Value, sc: Scope)
    requires Has(x, a, sc)
    ensures var r, i := Evaluate(Unary(ToInt, x), sc), IntMeant(a);
      if i.Some? && InInt64(i.value) then r.Ok? && ToBigInt(r.value) == i else r == Err
  {
    hide Evaluate, FormOf, IntSpelled, ConvertToInt, ToBigInt;
    UnaryStep(ToInt, x, sc);
    IntConverted(a);
  }

  lemma IntConverted(a: Value)
    ensures var r, i := ConvertToInt(a), IntMeant(a);
      if i.Some? && InInt64(i.value) then r.Ok? && ToBigInt(r.value) == i else r == Err
  {
    hide IntSpelled, CelInt, ToBigInt, IsIntText, NatValue;
    match a
    case Str(s) => IntOfText(s);
    case BigInt(i) => CarriedExactly(i);
    case Num(d) =>
      if d.Fin? {
        TruncatedIs(d);
        CarriedExactly(d.Truncated());
      }
    case _ =>
  }

  lemma TruncatedIs(d: D.Double)
    requires d.Fin?
    ensures d.Truncated() == TowardZero(d.Real())
    ensures d.mag < 9223372036854775808.0 <==> -9223372036854775808.0 < d.Real() < 9223372036854775808.0
  {
  }

  /** `double()` keeps a finite number, takes an int's value, and reads a decimal text. */
  lemma DoubleConverts(x: Operand, a: Value, sc: Scope)
    requires Has(x, a, sc)
    ensures var r := Evaluate(Unary(ToDouble, x), sc);
      match a
      case Num(d) => r == if d.Fin? then Ok(a) else Err
      case BigInt(i) => r == Ok(Num(D.FromReal(i as real)))
      case Str(s) =>
        r == if (exists parts :: IsDecimalText(s, parts)) && sc.host.number(s).Fin? then Ok(Num(sc.host.number(s)))
          else Err
      case _ => r == Err
  {
    hide Evaluate, FormOf, IsDoubleText, IsDecimalText;
    UnaryStep(ToDouble, x, sc);
    if a.Str? {
      DoubleTexts(a.s);
    }
  }

  /** `string()`: an int by its plain numeral, a whole number too where its type is surely int. */
  lemma StringConverts(x: Operand, a: Value, sc: Scope)
    requires Has(x, a, sc)
    ensures var r := Evaluate(Unary(ToString, x), sc);
      match a
      case Str(_) => r == Ok(a)
      case Bool(b) => r == Ok(Str(if b then "true" else "false"))
      case BigInt(i) => r.Ok? && r.value.Str? && PlainInt(r.value.s) && IntSpelled(r.value.s) == Some(i)
      case Num(d) =>
        r.Ok? && r.value.Str? &&
        if FirstNumeric(Branches(x)) == Some(IntType) && IsWhole(d) then
          PlainInt(r.value.s) && IntSpelled(r.value.s).Some? && Denotes(d, IntSpelled(r.value.s).value)
        else r.value.s == FormatDouble(d, sc.host)
      case _ => r == Err
  {
    hide Evaluate, NumericTypeOf, Typing, IntSpelled, IntText, FormatDouble, PlainInt;
    UnaryStep(ToString, x, sc);
    TernaryType(x);
    if a.BigInt? {
      OnlyIntText(a.i, IntText(a.i));
    } else if a.Num? {
      WholeNumbers(a.n);
      if a.n.Fin? {
        TruncatesTowardZero(a.n);
        OnlyIntText(a.n.Truncated(), IntText(a.n.Truncated()));
      }
    }
  }

  // ----- reading the document -----

  /** A stored null is an absent attribute under the "omitted" convention. */
  function Seen(read: Outcome, omitted: bool): Outcome {
    match read
    case Ok(Null) => if omitted then Err else read
    case _ => read
  }

  /** A reference reads the lambda variable at its root, or else the field its mapper entry names. */
  lemma ReferenceReads(path: Path, sc: Scope)
    ensures Evaluate(Variable(path), sc) ==
      if path[0] in sc.bindings then
        if |path| == 1 then Ok(sc.bindings[path[0]])
        else Seen(Nested(sc.bindings[path[0]], path[1..]), sc.nullIsMissing)
      else match sc.mapper(path)
        case Some(MapperConfig(Some(field), _)) => Seen(Nested(sc.doc, field), sc.nullIsMissing)
        case _ => Seen(Nested(sc.doc, path), sc.nullIsMissing)
  {
  }

  /** The attribute path a field operand names: a reference's own, or a constant's cut at its dots. */
  function Named(name: Operand): Option<seq<string>> {
    if name.Variable? && name.path != [""] then Some(name.path)
    else if name.Literal? && name.value.Str? && name.value.s != "" then Some(Split(name.value.s, "."))
    else None
  }

  /** `get-field` reads below its target the dotted name its second operand gives. */
  lemma FieldReads(x: Operand, name: Operand, a: Value, sc: Scope)
    requires Has(x, a, sc)
    ensures Evaluate(Binary(GetField, x, name), sc) ==
      if Named(name).None? then Err else Seen(Nested(a, Named(name).value), sc.nullIsMissing)
  {
    hide Evaluate, Nested;
    var args := [x, name];
    EvaluateStep(GetField, args, sc);
    assert Evaluated(GetField, args) == [x];
    FieldNamed(name);
  }

  lemma FieldNamed(name: Operand)
    ensures FieldName(name) == if Named(name).Some? then Named(name).value else [""]
    ensures Named(name).Some? ==> Named(name).value != [""]
  {
    if name.Literal? && name.value.Str? {
      var s := name.value.s;
      assert s == "" ==> Split(s, ".") == [""];
      if Split(s, ".") == [""] {
        JoinSplit(s, ".");
      }
    }
  }
}
