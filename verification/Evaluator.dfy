/** The in-memory CEL evaluator: one plan node against one document. */
module Evaluator {
  import opened Wrappers
  import D = Doubles
  import opened Texts
  import opened Durations
  import opened Cel
  import opened Plans

  type Bindings = map<string, Value>

  /** `nullIsMissing`: whether a stored null reads as a missing attribute. */
  datatype Scope = Scope(doc: Value, mapper: Mapper, bindings: Bindings, nullIsMissing: bool, host: Host) {
    function Env(): Settings {
      Settings(nullIsMissing, host)
    }
  }

  /** What an operator reads besides its operands: the null convention and the engine. */
  datatype Settings = Settings(nullIsMissing: bool, host: Host)

  function ReadPath(read: Outcome, nullIsMissing: bool): Outcome {
    if nullIsMissing && read == Ok(Null) then Err else read
  }

  /** A lambda variable, or a path through one, first; then the mapped document field. */
  function LookUp(path: Path, sc: Scope): Outcome {
    if path[0] in sc.bindings then
      if |path| == 1 then Ok(sc.bindings[path[0]])
      else ReadPath(Nested(sc.bindings[path[0]], path[1..]), sc.nullIsMissing)
    else ReadPath(Nested(sc.doc, ResolveField(path, sc.mapper)), sc.nullIsMissing)
  }

  // ----- behaviour chosen from the shape of an expression -----

  datatype TemporalKind = Timestamp | Span

  function TemporalResultKind(op: Arithmetic, left: Option<TemporalKind>, right: Option<TemporalKind>):
      Option<TemporalKind>
  {
    if left == Some(Span) && right == Some(Span) then Some(Span)
    else if left == Some(Timestamp) && right == Some(Span) then Some(Timestamp)
    else if op == Add && left == Some(Span) && right == Some(Timestamp) then Some(Timestamp)
    else if op == Sub && left == Some(Timestamp) && right == Some(Timestamp) then Some(Span)
    else None
  }

  function TemporalKindOf(operand: Operand): Option<TemporalKind> {
    if !operand.Expr? then None
    else match operand.operator
      case ToTimestamp => Some(Timestamp)
      case ToDuration => Some(Span)
      case SinceNow => Some(Span)
      case Arith(op) =>
        if (op == Add || op == Sub) && |operand.operands| >= 2 then
          TemporalResultKind(op, TemporalKindOf(operand.operands[0]), TemporalKindOf(operand.operands[1]))
        else None
      case _ => None
  }

  /** Whether the operand is an expression whose result is certainly a CEL int. */
  predicate IsIntExpression(operand: Operand) {
    operand.Expr? &&
    match operand.operator
    case ToInt => true
    case Size => true
    case Arith(_) =>
      (forall i | 0 <= i < |operand.operands| ::
        IsIntegerLiteral(operand.operands[i]) || IsIntExpression(operand.operands[i])) &&
      exists i | 0 <= i < |operand.operands| :: IsIntExpression(operand.operands[i])
    case _ => false
  }

  predicate IsIntegerLiteral(operand: Operand) {
    operand.Literal? && operand.value.Num? && operand.value.n.IsInteger()
  }

  predicate IsFractionalLiteral(operand: Operand) {
    operand.Literal? && operand.value.Num? && !operand.value.n.IsInteger()
  }

  predicate IsDocumentField(operand: Operand, bound: set<string>) {
    operand.Variable? && operand.path[0] !in bound
  }

  /** Whether the operand is certainly not a CEL int. */
  predicate IsDoubleOperand(operand: Operand, bound: set<string>) {
    IsFractionalLiteral(operand) || IsDocumentField(operand, bound) ||
    (operand.Expr? && operand.operator == ToDouble)
  }

  datatype NumericType = IntType | DoubleType

  function NumericTypeOf(operand: Operand): Option<NumericType> {
    if operand.Literal? then (if IsFractionalLiteral(operand) then Some(DoubleType) else None)
    else if IsIntExpression(operand) then Some(IntType)
    else if !operand.Expr? then None
    else if operand.operator == ToDouble then Some(DoubleType)
    else if operand.operator != If || |operand.operands| < 2 then None
    else
      var whenTrue := NumericTypeOf(operand.operands[1]);
      if whenTrue.Some? || |operand.operands| < 3 then whenTrue else NumericTypeOf(operand.operands[2])
  }

  predicate AnyTemporal(args: seq<Operand>) {
    exists i | 0 <= i < |args| :: TemporalKindOf(args[i]).Some?
  }

  predicate AnyInt(args: seq<Operand>) {
    exists i | 0 <= i < |args| :: IsIntExpression(args[i])
  }

  predicate AnyDouble(args: seq<Operand>, bound: set<string>) {
    exists i | 0 <= i < |args| :: IsDoubleOperand(args[i], bound)
  }

  predicate AnyVariable(args: seq<Operand>) {
    exists i | 0 <= i < |args| :: args[i].Variable?
  }

  /** Everything an operator observes of its operands besides their values. */
  datatype Form =
    | Valued
    | ArithmeticForm(temporal: bool, kind: Option<TemporalKind>, isInt: bool, mixed: bool, variable: bool,
        documentDivisor: bool)
    | StringForm(isInt: bool)
    | SinceForm(timestamp: bool)
    | FieldForm(path: seq<string>)

  function FieldName(field: Operand): seq<string> {
    if field.Variable? then field.path
    else if field.Literal? && field.value.Str? then Split(field.value.s, ".")
    else [""]
  }

  /** The form of an operator's operands, given the names lambdas bind around it. */
  function FormOf(op: Operator, args: seq<Operand>, bound: set<string>): Form {
    match op
    case Arith(arithmetic) =>
      if |args| < 2 then Valued
      else ArithmeticForm(
        (arithmetic == Add || arithmetic == Sub) && AnyTemporal(args),
        TemporalResultKind(arithmetic, TemporalKindOf(args[0]), TemporalKindOf(args[1])),
        IsIntExpression(Expr(op, args)),
        AnyInt(args) && AnyDouble(args, bound),
        AnyVariable(args),
        IsDocumentField(args[1], bound))
    case ToString => StringForm(args != [] && NumericTypeOf(args[0]) == Some(IntType))
    case SinceNow => SinceForm(args != [] && TemporalKindOf(args[0]) == Some(Timestamp))
    case GetField => FieldForm(if |args| < 2 then [""] else FieldName(args[1]))
    case _ => Valued
  }

  // ----- operators that need every operand -----

  function NanosOf(v: Value): Option<int> {
    match v
    case Duration(nanos) => Some(nanos)
    case BigInt(i) => Some(i)
    case _ => None
  }

  function TemporalArithmetic(op: Arithmetic, kind: Option<TemporalKind>, left: Value, right: Value): Outcome {
    var a, b := NanosOf(left), NanosOf(right);
    if kind.None? || a.None? || b.None? then Err
    else
      var nanos := if op == Add then a.value + b.value else a.value - b.value;
      if kind == Some(Timestamp) then CheckedTimestamp(nanos) else CheckedDuration(nanos)
  }

  function NumberArithmetic(op: Arithmetic, form: Form, a: D.Double, b: D.Double): Outcome
    requires form.ArithmeticForm?
  {
    match op
    case Add => Ok(Num(D.Add(a, b)))
    case Sub => Ok(Num(D.Sub(a, b)))
    case Mult => Ok(Num(D.Mul(a, b)))
    case Div => if b.IsZero() && !a.IsZero() && !form.documentDivisor then Throw else Ok(Num(D.Div(a, b)))
    case Mod => if form.variable || b.IsZero() then Err else Ok(Num(D.Mod(a, b)))
  }

  function ArithmeticOf(op: Arithmetic, form: Form, left: Value, right: Value): (r: Outcome)
    requires form.ArithmeticForm?
    ensures r.Throw? ==> op == Div
  {
    if form.temporal then TemporalArithmetic(op, form.kind, left, right)
    else if form.isInt then IntArithmetic(op, left, right)
    else if form.mixed then Err
    else if op == Add && left.Str? && right.Str? then Ok(Str(left.s + right.s))
    else if op == Add && left.List? && right.List? then Ok(List(left.items + right.items))
    else if !left.Num? || !right.Num? then Err
    else NumberArithmetic(op, form, left.n, right.n)
  }

  /** A macro's items, and what `in` tests: a list's elements, or a map's keys. */
  function MacroItems(v: Value): Option<seq<Value>> {
    match v
    case List(items) => Some(items)
    case Map(keys, _) => Some(seq(|keys|, i requires 0 <= i < |keys| => Str(keys[i])))
    case _ => None
  }

  predicate ListContains(list: seq<Value>, v: Value) {
    exists i | 0 <= i < |list| :: ValuesEqual(list[i], v)
  }

  /** The elements of `list` that `other` contains (`keep`), or those it does not, in order. */
  function Select(list: seq<Value>, other: seq<Value>, keep: bool): seq<Value> {
    if list == [] then []
    else (if ListContains(other, list[0]) == keep then [list[0]] else []) + Select(list[1..], other, keep)
  }

  function ExceptOf(left: seq<Value>, right: seq<Value>): seq<Value> {
    Select(left, right, false)
  }

  /** The elements of the shorter list (the first, on a tie) present in the longer one. */
  function IntersectOf(left: seq<Value>, right: seq<Value>): seq<Value> {
    if |left| > |right| then Select(right, left, true) else Select(left, right, true)
  }

  predicate IsSubsetOf(left: seq<Value>, right: seq<Value>) {
    forall i | 0 <= i < |left| :: ListContains(right, left[i])
  }

  predicate HasIntersectionOf(left: seq<Value>, right: seq<Value>) {
    exists i, j | 0 <= i < |left| && 0 <= j < |right| :: ValuesEqual(left[i], right[j])
  }

  function ListOperation(op: Operator, left: Value, right: Value): (r: Outcome)
    ensures !r.Throw?
  {
    if !left.List? || !right.List? then Err
    else match op
      case Except => Ok(List(ExceptOf(left.items, right.items)))
      case Intersect => Ok(List(IntersectOf(left.items, right.items)))
      case IsSubset => OfBool(IsSubsetOf(left.items, right.items))
      case _ => OfBool(HasIntersectionOf(left.items, right.items))
  }

  function StringTestOf(test: StringTest, receiver: Value, argument: Value): (r: Outcome)
    ensures !r.Throw?
  {
    if !receiver.Str? || !argument.Str? then Err
    else OfBool(match test
      case Contains => Includes(receiver.s, argument.s)
      case Prefix => StartsWith(receiver.s, argument.s)
      case Suffix => EndsWith(receiver.s, argument.s))
  }

  function IndexOfCollection(collection: Value, index: Value): (r: Outcome)
    ensures !r.Throw?
  {
    if collection.Map? then
      if index.Str? && index.s in collection.entries then Ok(collection.entries[index.s]) else Err
    else if collection.List? && index.Num? && index.n.IsInteger() && 0 <= index.n.Truncated() < |collection.items| then
      Ok(collection.items[index.n.Truncated()])
    else Err
  }

  function SizeOf(v: Value): Outcome {
    match v
    case Str(s) => Ok(Num(D.FromInt(|s|)))
    case List(items) => Ok(Num(D.FromInt(|items|)))
    case Map(keys, _) => Ok(Num(D.FromInt(|keys|)))
    case _ => Err
  }

  function FieldOf(target: Value, path: seq<string>, nullIsMissing: bool): Outcome {
    if path == [""] then Err else ReadPath(Nested(target, path), nullIsMissing)
  }

  function HierarchyOf(v: Value): Outcome {
    match v
    case Str(s) => Ok(Hierarchy(SplitHierarchy(s, ".")))
    case Hierarchy(_) => Ok(v)
    case List(items) =>
      if forall i | 0 <= i < |items| :: items[i].Str? then
        Ok(Hierarchy(seq(|items|, i requires 0 <= i < |items| => items[i].s)))
      else Err
    case _ => Err
  }

  function RelationOf(relation: Relation, left: Value, right: Value): (r: Outcome)
    ensures !r.Throw?
  {
    if !left.Hierarchy? || !right.Hierarchy? then Err
    else OfBool(match relation
      case AncestorOf => IsStrictAncestor(left.segments, right.segments)
      case DescendentOf => IsStrictAncestor(right.segments, left.segments)
      case Overlaps => HierarchiesOverlap(left.segments, right.segments))
  }

  function UpperAsciiText(s: string): string {
    seq(|s|, i requires 0 <= i < |s| =>
      if 'a' <= s[i] <= 'z' then (s[i] as int - 'a' as int + 'A' as int) as char else s[i])
  }

  /** How many leading operands a strict operator evaluates, given how many it has. */
  function Arity(op: Operator, count: nat): (n: nat)
    ensures 1 <= n <= 2
  {
    match op
    case ToHierarchy => if count > 1 then 2 else 1
    case Not => 1
    case GetField => 1
    case Size => 1
    case ToString => 1
    case ToDouble => 1
    case ToInt => 1
    case UpperAscii => 1
    case ToDuration => 1
    case SinceNow => 1
    case ToTimestamp => 1
    case _ => 2
  }

  predicate StrictOperator(op: Operator) {
    !(op.And? || op.Or? || op.If? || op.ListOf? || op.Struct? || op.Macro() ||
      op.SetField? || op.Lambda? || op.Unlisted?)
  }

  function DurationOf(parsed: Parsed<int>): Outcome {
    match parsed
    case Read(nanos) => Ok(Duration(nanos))
    case Rejected => Err
    case Raised => Throw
  }

  /** Whether `duration()` raises an exception on the value: its scan meets an inherited unit name. */
  predicate Raises(v: Value, settings: Settings) {
    v.Str? && ParseDuration(v.s, settings.host.fractionStep).Raised?
  }

  /** A one-operand operator over a value. */
  function ApplyOne(op: Operator, form: Form, settings: Settings, v: Value): (r: Outcome)
    ensures r.Throw? <==> op.ToDuration? && Raises(v, settings)
  {
    match op
    case Not => if v.Bool? then OfBool(!v.b) else Err
    case GetField => if form.FieldForm? then FieldOf(v, form.path, settings.nullIsMissing) else Err
    case Size => SizeOf(v)
    case ToString => ConvertToString(v, form.StringForm? && form.isInt, settings.host)
    case ToDouble => ConvertToDouble(v, settings.host)
    case ToInt => ConvertToInt(v)
    case UpperAscii => if v.Str? then Ok(Str(UpperAsciiText(v.s))) else Err
    case ToDuration =>
      if v.Str? then DurationOf(ParseDuration(v.s, settings.host.fractionStep)) else Err
    case SinceNow =>
      if form.SinceForm? && form.timestamp && v.BigInt? then Ok(TimeSince(settings.host.now, v.i)) else Err
    case ToTimestamp =>
      if v.Str? then OfOption(settings.host.parseTimestamp(v.s), nanos => BigInt(nanos)) else Err
    case _ => HierarchyOf(v)
  }

  /** A two-operand operator over two values. */
  function ApplyTwo(op: Operator, form: Form, settings: Settings, a: Value, b: Value): (r: Outcome)
    ensures r.Throw? ==> op == Arith(Div)
  {
    hide CompareValues, StringTestOf, IndexOfCollection, ListOperation, RelationOf, ArithmeticOf;
    match op
    case Compare(comparison) => CompareValues(comparison, a, b)
    case In =>
      var members := MacroItems(b);
      if members.None? then Err else OfBool(ListContains(members.value, a))
    case Test(test) => StringTestOf(test, a, b)
    case Matches =>
      if a.Str? && b.Str? then OfOption(settings.host.matchPattern(a.s, b.s), m => Bool(m)) else Err
    case Arith(arithmetic) => if form.ArithmeticForm? then ArithmeticOf(arithmetic, form, a, b) else Err
    case Index => IndexOfCollection(a, b)
    case ToHierarchy => if a.Str? && b.Str? then Ok(Hierarchy(SplitHierarchy(a.s, b.s))) else Err
    case Relate(relation) => RelationOf(relation, a, b)
    case _ => ListOperation(op, a, b)
  }

  /** An operator that errors when an operand does: a missing operand throws. */
  function StrictResult(op: Operator, count: nat, form: Form, settings: Settings, outs: seq<Outcome>): Outcome {
    var n := Arity(op, count);
    if |outs| < n || outs[0].Throw? || (n == 2 && outs[1].Throw?) then Throw
    else if outs[0].Err? || (n == 2 && outs[1].Err?) then Err
    else if n == 1 then ApplyOne(op, form, settings, outs[0].value)
    else ApplyTwo(op, form, settings, outs[0].value, outs[1].value)
  }

  // ----- operators that absorb errors or read their operands in turn -----

  function AsBoolean(o: Outcome): Outcome {
    if o.Ok? && !o.value.Bool? then Err else o
  }

  /** CEL's commutative `&&` and `||`: a deciding operand wins over an error in any position. */
  function Junction(decisive: bool, outs: seq<Outcome>, sawError: bool): Outcome {
    if outs == [] then (if sawError then Err else OfBool(!decisive))
    else match AsBoolean(outs[0])
      case Throw => Throw
      case Err => Junction(decisive, outs[1..], true)
      case Ok(v) => if v == Bool(decisive) then OfBool(decisive) else Junction(decisive, outs[1..], sawError)
  }

  /** `if`: the selected branch, or the condition's error. */
  function Conditional(outs: seq<Outcome>): Outcome {
    if outs == [] then Throw
    else match AsBoolean(outs[0])
      case Throw => Throw
      case Err => Err
      case Ok(v) =>
        var branch := if v == Bool(true) then 1 else 2;
        if branch < |outs| then outs[branch] else Throw
  }

  /** A list of the values read so far and the rest; any element's error is the list's. */
  function Collect(outs: seq<Outcome>, elements: seq<Value>): Outcome {
    if outs == [] then Ok(List(elements))
    else if !outs[0].Ok? then outs[0]
    else Collect(outs[1..], elements + [outs[0].value])
  }

  /** A struct literal's entry: a constant string key and a value. */
  predicate IsEntry(entry: Operand) {
    entry.Expr? && entry.operator == SetField && |entry.operands| == 2 &&
    entry.operands[0].Literal? && entry.operands[0].value.Str?
  }

  /** The keys of a struct literal's entries; none for an operand that is no entry. */
  function EntryKeys(args: seq<Operand>): (keys: seq<Option<string>>)
    ensures |keys| == |args|
    ensures forall i | 0 <= i < |args| ::
      keys[i] == if IsEntry(args[i]) then Some(args[i].operands[0].value.s) else None
  {
    seq(|args|, i requires 0 <= i < |args| =>
      if IsEntry(args[i]) then Some(args[i].operands[0].value.s) else None)
  }

  /** A map literal; a repeated key is an error, at evaluation. */
  function Entries(entryKeys: seq<Option<string>>, outs: seq<Outcome>, keys: seq<string>, entries: Bindings): Outcome
    requires |outs| == |entryKeys|
  {
    if outs == [] then Ok(Map(keys, entries))
    else if entryKeys[0].None? then Throw
    else if !outs[0].Ok? then outs[0]
    else
      var key := entryKeys[0].value;
      if key in entries then Err
      else Entries(entryKeys[1..], outs[1..], keys + [key], entries[key := outs[0].value])
  }

  /** `exists`, `exists_one` and `all` over the outcomes of the body, in element order. */
  function QuantifierResult(q: Quantifier, outs: seq<Outcome>, trueCount: nat, sawError: bool): Outcome {
    if outs == [] then
      if sawError then Err
      else match q
        case Exists => OfBool(false)
        case ExistsOne => OfBool(trueCount == 1)
        case All => OfBool(true)
    else match AsBoolean(outs[0])
      case Throw => Throw
      case Err => QuantifierResult(q, outs[1..], trueCount, true)
      case Ok(v) =>
        if v == Bool(true) then
          if q == Exists then OfBool(true) else QuantifierResult(q, outs[1..], trueCount + 1, sawError)
        else if q == All then OfBool(false)
        else QuantifierResult(q, outs[1..], trueCount, sawError)
  }

  /** The items whose condition is true; any condition's error is the list's. */
  function FilterResult(items: seq<Value>, outs: seq<Outcome>, filtered: seq<Value>): Outcome
    requires |items| == |outs|
  {
    if outs == [] then Ok(List(filtered))
    else match AsBoolean(outs[0])
      case Ok(v) =>
        FilterResult(items[1..], outs[1..], if v == Bool(true) then filtered + [items[0]] else filtered)
      case failed => failed
  }

  /** What a macro's lambda is applied to: elements or keys, or the pairs of a two-variable one. */
  function Rows(v: Value, arity: nat): (rows: Option<seq<seq<Value>>>)
    ensures rows.Some? ==> forall i | 0 <= i < |rows.value| :: |rows.value[i]| == if arity == 2 then 2 else 1
  {
    match v
    case List(items) =>
      Some(seq(|items|, i requires 0 <= i < |items| =>
        if arity == 2 then [Num(D.FromInt(i)), items[i]] else [items[i]]))
    case Map(keys, entries) =>
      Some(seq(|keys|, i requires 0 <= i < |keys| =>
        if arity == 2 then [Str(keys[i]), if keys[i] in entries then entries[keys[i]] else Null]
        else [Str(keys[i])]))
    case _ => None
  }

  function Bind(sc: Scope, variables: seq<string>, row: seq<Value>): Scope
    requires variables != [] && row != []
  {
    var first := sc.bindings[variables[0] := row[0]];
    sc.(bindings := if |variables| > 1 && |row| > 1 then first[variables[1] := row[1]] else first)
  }

  function MacroResult(op: Operator, rows: seq<seq<Value>>, outs: seq<Outcome>): Outcome
    requires op.Macro() && |rows| == |outs|
    requires forall i | 0 <= i < |rows| :: rows[i] != []
  {
    match op
    case Quantify(q) => QuantifierResult(q, outs, 0, false)
    case Filter => FilterResult(seq(|rows|, i requires 0 <= i < |rows| => rows[i][0]), outs, [])
    case _ => Collect(outs, [])
  }

  // ----- the evaluator -----

  /** The operands an operator evaluates in the enclosing scope. */
  function Evaluated(op: Operator, args: seq<Operand>): (r: seq<Operand>)
    ensures op.Struct? ==> |r| == |args|
    ensures !op.Struct? ==> r <= args
  {
    if op.Struct? then
      seq(|args|, i requires 0 <= i < |args| => if IsEntry(args[i]) then args[i].operands[1] else args[i])
    else if op.GetField? then (if |args| >= 2 then args[..1] else [])
    else if op.Macro() then (if args == [] then [] else args[..1])
    else if op.Lambda? || op.SetField? || op.Unlisted? then []
    else args
  }

  /** Combines the outcomes of a non-macro operator's operands. */
  function Combine(op: Operator, args: seq<Operand>, form: Form, settings: Settings, outs: seq<Outcome>): Outcome
    requires !op.Macro() && |outs| == |Evaluated(op, args)|
  {
    match op
    case And => Junction(false, outs, false)
    case Or => Junction(true, outs, false)
    case If => Conditional(outs)
    case ListOf => Collect(outs, [])
    case Struct => Entries(EntryKeys(args), outs, [], map[])
    case Lambda => Throw
    case SetField => Throw
    case Unlisted(_) => Throw
    case _ => StrictResult(op, |args|, form, settings, outs)
  }

  /** A macro before its first element: already decided, or a lambda and the rows it ranges over. */
  datatype MacroStart =
    | Decided(outcome: Outcome)
    | Iterate(lambda: LambdaParts, rows: seq<seq<Value>>)

  function StartMacro(op: Operator, args: seq<Operand>, outs: seq<Outcome>): (start: MacroStart)
    requires op.Macro()
    ensures start.Iterate? ==>
      |args| >= 2 && LambdaComponents(args[1]) == Some(start.lambda) && outs != [] && outs[0].Ok? &&
      Rows(outs[0].value, |start.lambda.variables|) == Some(start.rows)
  {
    var lambda := if |args| < 2 then None else LambdaComponents(args[1]);
    if outs == [] || outs[0].Throw? || (op.Quantify? && lambda.None?) then Decided(Throw)
    else if outs[0].Err? then Decided(Err)
    else
      var rows := Rows(outs[0].value, if lambda.None? then 1 else |lambda.value.variables|);
      if rows.None? then Decided(Err)
      else if lambda.None? || (!op.Quantify? && |lambda.value.variables| == 2) then Decided(Throw)
      else Iterate(lambda.value, rows.value)
  }

  function Evaluate(e: Operand, sc: Scope): Outcome
    decreases e
  {
    match e
    case Literal(v) => Ok(v)
    case Variable(path) => LookUp(path, sc)
    case Expr(op, args) =>
      var operands := Evaluated(op, args);
      var outs := seq(|operands|, i requires 0 <= i < |operands| => Evaluate(operands[i], sc));
      if !op.Macro() then Combine(op, args, FormOf(op, args, sc.bindings.Keys), sc.Env(), outs)
      else match StartMacro(op, args, outs)
        case Decided(outcome) => outcome
        case Iterate(lambda, rows) =>
          MacroResult(op, rows, seq(|rows|, i requires 0 <= i < |rows| =>
            Evaluate(lambda.body, Bind(sc, lambda.variables, rows[i]))))
  }

  /** The outcomes of operands evaluated side by side in one scope. */
  function Outcomes(operands: seq<Operand>, sc: Scope): (outs: seq<Outcome>)
    ensures |outs| == |operands| && forall i | 0 <= i < |outs| :: outs[i] == Evaluate(operands[i], sc)
  {
    seq(|operands|, i requires 0 <= i < |operands| => Evaluate(operands[i], sc))
  }

  /** The outcomes of a lambda's body, row by row. */
  function BodyOutcomes(lambda: LambdaParts, rows: seq<seq<Value>>, sc: Scope): (outs: seq<Outcome>)
    requires lambda.variables != [] && forall i | 0 <= i < |rows| :: rows[i] != []
    ensures |outs| == |rows|
    ensures forall i | 0 <= i < |rows| ::
      outs[i] == Evaluate(lambda.body, Bind(sc, lambda.variables, rows[i]))
  {
    seq(|rows|, i requires 0 <= i < |rows| => Evaluate(lambda.body, Bind(sc, lambda.variables, rows[i])))
  }

  /** What a macro yields once its collection has been evaluated. */
  function MacroOutcome(op: Operator, start: MacroStart, sc: Scope): Outcome
    requires op.Macro()
    requires start.Iterate? ==>
      start.lambda.variables != [] && forall i | 0 <= i < |start.rows| :: start.rows[i] != []
  {
    match start
    case Decided(outcome) => outcome
    case Iterate(lambda, rows) => MacroResult(op, rows, BodyOutcomes(lambda, rows, sc))
  }

  /** One unfolding of the evaluator, with its intermediate outcomes named. */
  lemma EvaluateStep(op: Operator, args: seq<Operand>, sc: Scope)
    ensures var outs := Outcomes(Evaluated(op, args), sc);
      Evaluate(Expr(op, args), sc) ==
      if op.Macro() then MacroOutcome(op, StartMacro(op, args, outs), sc)
      else Combine(op, args, FormOf(op, args, sc.bindings.Keys), sc.Env(), outs)
  {
    var operands := Evaluated(op, args);
    var outs := Outcomes(operands, sc);
    assert outs == seq(|operands|, i requires 0 <= i < |operands| => Evaluate(operands[i], sc));
    if op.Macro() {
      match StartMacro(op, args, outs) {
        case Decided(_) =>
        case Iterate(lambda, rows) =>
          assert BodyOutcomes(lambda, rows, sc) == seq(|rows|, i requires 0 <= i < |rows| =>
            Evaluate(lambda.body, Bind(sc, lambda.variables, rows[i])));
      }
    }
  }
}
