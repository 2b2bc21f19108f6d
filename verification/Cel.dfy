/** CEL's value semantics, as the in-memory evaluator holds them. */
module Cel {
  import opened Wrappers
  import opened Doubles
  import opened Texts
  import opened DoubleText
  import opened Durations

  /**
    A value the evaluator carries. A map lists its keys in enumeration order beside its entries; a
    `BigInt` is an int past the safe range, or a timestamp in nanoseconds.
   */
  datatype Value =
    | Null
    | Bool(b: bool)
    | Num(n: Double)
    | BigInt(i: int)
    | Str(s: string)
    | List(items: seq<Value>)
    | Map(keys: seq<string>, entries: map<string, Value>)
    | Duration(nanos: int)
    | Hierarchy(segments: seq<string>)
  {
    predicate Numeric() {
      Num? || BigInt?
    }

    function AsDouble(): Double
      requires Numeric()
    {
      if Num? then n else FromInt(i)
    }
  }

  /** What evaluating a node yields: a value, CEL's error, or an exception escaping the evaluator. */
  datatype Outcome = Ok(value: Value) | Err | Throw

  datatype Comparison = Eq | Ne | Lt | Le | Gt | Ge

  predicate NumericEqual(a: Double, b: Double) {
    !a.NaN? && !b.NaN? && !Less(a, b) && !Less(b, a)
  }

  predicate ValuesEqual(left: Value, right: Value)
    decreases left
  {
    if left.Hierarchy? || right.Hierarchy? then
      left.Hierarchy? && right.Hierarchy? && |left.segments| == |right.segments| &&
      SegmentPrefix(left.segments, right.segments)
    else if left.Duration? || right.Duration? then
      left.Duration? && right.Duration? && left.nanos == right.nanos
    else if left.Numeric() && right.Numeric() then
      NumericEqual(left.AsDouble(), right.AsDouble())
    else match (left, right)
      case (Null, Null) => true
      case (Bool(a), Bool(b)) => a == b
      case (Str(a), Str(b)) => a == b
      case (List(a), List(b)) =>
        |a| == |b| && forall i | 0 <= i < |a| :: ValuesEqual(a[i], b[i])
      case (Map(_, a), Map(_, b)) =>
        a.Keys == b.Keys && forall k | k in a.Keys :: ValuesEqual(a[k], b[k])
      case _ => false
  }

  function OfBool(b: bool): Outcome {
    Ok(Bool(b))
  }

  function OrderResult(op: Comparison, less: bool, greater: bool): bool {
    match op
    case Eq => !less && !greater
    case Ne => less || greater
    case Lt => less
    case Le => !greater
    case Gt => greater
    case Ge => !less
  }

  /** CEL's comparison of two values; an ordering between types is an error. */
  function CompareValues(op: Comparison, left: Value, right: Value): (r: Outcome)
    ensures !r.Throw?
  {
    if op == Eq then OfBool(ValuesEqual(left, right))
    else if op == Ne then OfBool(!ValuesEqual(left, right))
    else if left == Num(NaN) || right == Num(NaN) then OfBool(false)
    else if left.Str? && right.Str? then
      var order := LexOrder(left.s, right.s);
      OfBool(OrderResult(op, order < 0, order > 0))
    else if left.Bool? && right.Bool? then
      OfBool(OrderResult(op, !left.b && right.b, left.b && !right.b))
    else if left.Numeric() && right.Numeric() then
      OfBool(OrderResult(op, Less(left.AsDouble(), right.AsDouble()), Less(right.AsDouble(), left.AsDouble())))
    else if left.Duration? && right.Duration? then
      OfBool(OrderResult(op, left.nanos < right.nanos, left.nanos > right.nanos))
    else Err
  }

  /** Reads a path of keys; an absent key at any level is CEL's missing-attribute error. */
  function Nested(obj: Value, path: seq<string>): (r: Outcome)
    ensures !r.Throw?
    decreases |path|
  {
    if path == [] then Ok(obj)
    else if !obj.Map? || path[0] !in obj.entries then Err
    else Nested(obj.entries[path[0]], path[1..])
  }

  /** The same read as the source's loop over a current value. */
  method GetNestedValue(obj: Value, path: seq<string>) returns (r: Outcome)
    ensures r == Nested(obj, path)
  {
    var current := obj;
    for i := 0 to |path|
      invariant Nested(obj, path) == Nested(current, path[i..])
    {
      if !current.Map? || path[i] !in current.entries {
        return Err;
      }
      current := current.entries[path[i]];
    }
    return Ok(current);
  }

  // ----- hierarchies -----

  predicate SegmentPrefix(prefix: seq<string>, of: seq<string>) {
    forall i | 0 <= i < |prefix| :: i < |of| && of[i] == prefix[i]
  }

  predicate IsStrictAncestor(ancestor: seq<string>, descendent: seq<string>) {
    |descendent| > |ancestor| && SegmentPrefix(ancestor, descendent)
  }

  predicate HierarchiesOverlap(left: seq<string>, right: seq<string>) {
    if |left| <= |right| then SegmentPrefix(left, right) else SegmentPrefix(right, left)
  }

  /** Go's strings.Split: an empty delimiter splits into code points. */
  function SplitHierarchy(s: string, delimiter: string): seq<string> {
    if delimiter == "" then seq(|s|, i requires 0 <= i < |s| => [s[i]]) else Split(s, delimiter)
  }

  // ----- conversions and int arithmetic -----

  const MAX_SAFE: int := 0x1F_FFFF_FFFF_FFFF

  /** An int as the evaluator carries it: a number while it is safe, a bigint past that. */
  function CelInt(i: int): Outcome {
    if i < INT64_MIN || i > INT64_MAX then Err
    else if -MAX_SAFE <= i <= MAX_SAFE then Ok(Num(FromInt(i)))
    else Ok(BigInt(i))
  }

  function ToBigInt(v: Value): Option<int> {
    match v
    case BigInt(i) => Some(i)
    case Num(d) => if d.IsInteger() then Some(d.Truncated()) else None
    case _ => None
  }

  datatype Arithmetic = Add | Sub | Mult | Div | Mod

  /** Truncated division, as over bigints. */
  function Quotient(a: int, b: int): int
    requires b != 0
  {
    var q := (if a < 0 then -a else a) / (if b < 0 then -b else b);
    if (a < 0) == (b < 0) then q else -q
  }

  function IntArithmetic(op: Arithmetic, left: Value, right: Value): Outcome {
    var a, b := ToBigInt(left), ToBigInt(right);
    if a.None? || b.None? then Err
    else match op
      case Add => CelInt(a.value + b.value)
      case Sub => CelInt(a.value - b.value)
      case Mult => CelInt(a.value * b.value)
      case Div => if b.value == 0 then Err else CelInt(Quotient(a.value, b.value))
      case Mod =>
        if b.value == 0 then Err else CelInt(a.value - b.value * Quotient(a.value, b.value))
  }

  /** Primitives of the JavaScript engine and the clock, which the model takes as given. */
  datatype Host = Host(
    now: int,
    shortest: Double -> Decimal,
    number: string -> Double,
    parseTimestamp: string -> Option<int>,
    matchPattern: (string, string) -> Option<bool>,
    fractionStep: FractionStep
  )

  function FormatDouble(d: Double, host: Host): string {
    match d
    case NaN => "NaN"
    case Inf(neg) => if neg then "-Inf" else "+Inf"
    case Fin(neg, mag) =>
      if mag == 0.0 then (if neg then "-0" else "0")
      else
        var shortest := host.shortest(d);
        if shortest.digits == [] then "" else FormatGo(neg, shortest)
  }

  function ConvertToString(v: Value, isInt: bool, host: Host): Outcome {
    match v
    case Str(_) => Ok(v)
    case Bool(b) => Ok(Str(if b then "true" else "false"))
    case BigInt(i) => Ok(Str(IntText(i)))
    case Num(d) =>
      Ok(Str(if isInt && d.IsInteger() then IntText(d.Truncated()) else FormatDouble(d, host)))
    case _ => Err
  }

  function Unsigned(s: string): string {
    if s != [] && (s[0] == '+' || s[0] == '-') then s[1..] else s
  }

  /** An optional sign and then one or more digits. */
  predicate IsIntText(s: string) {
    Unsigned(s) != [] && AllDigits(Unsigned(s))
  }

  /** `[+-]?(\d+(\.\d*)?|\.\d+)([eE][+-]?\d+)?` */
  predicate IsDoubleText(s: string) {
    var body := Unsigned(s);
    var (i, a, b) := DecimalCuts(body);
    i + (b - a) > 0 && IsExponentText(body[b..])
  }

  predicate IsExponentText(tail: string) {
    tail == [] || ((tail[0] == 'e' || tail[0] == 'E') && IsIntText(tail[1..]))
  }

  function ConvertToDouble(v: Value, host: Host): Outcome {
    match v
    case Num(d) => if d.Fin? then Ok(v) else Err
    case BigInt(i) => Ok(Num(FromInt(i)))
    case Str(s) =>
      if IsDoubleText(s) && host.number(s).Fin? then Ok(Num(host.number(s))) else Err
    case _ => Err
  }

  function ConvertToInt(v: Value): Outcome {
    match v
    case BigInt(i) => CelInt(i)
    case Num(d) =>
      if !d.Fin? || d.mag >= TWO_TO_63 as real then Err else CelInt(d.Truncated())
    case Str(s) =>
      if !IsIntText(s) then Err
      else
        var magnitude: int := NatValue(Unsigned(s));
        CelInt(if s[0] == '-' then -magnitude else magnitude)
    case _ => Err
  }

  // ----- timestamps and durations -----

  const MIN_TIMESTAMP: int := -62135596800000000000
  const MAX_TIMESTAMP: int := 253402300799999999999

  function CheckedDuration(nanos: int): Outcome {
    if INT64_MIN <= nanos <= INT64_MAX then Ok(Duration(nanos)) else Err
  }

  function CheckedTimestamp(nanos: int): Outcome {
    if nanos < MIN_TIMESTAMP || nanos > MAX_TIMESTAMP then Err else Ok(BigInt(nanos))
  }

  /** Go's now.Sub(t), saturating at the int64 bounds. */
  function TimeSince(now: int, timestamp: int): Value {
    var nanos := now - timestamp;
    Duration(if nanos > INT64_MAX then INT64_MAX else if nanos < INT64_MIN then INT64_MIN else nanos)
  }

  function OfOption<T>(o: Option<T>, wrap: T -> Value): Outcome {
    if o.None? then Err else Ok(wrap(o.value))
  }
}
