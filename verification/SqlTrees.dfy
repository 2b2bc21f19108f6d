/** The SQL trees the PostgreSQL renderer prints, and the text it prints for them. */
module SqlTrees {
  import opened Wrappers
  import opened Texts

  /** A value bound as a parameter; a float is its bits, a time its nanoseconds. */
  datatype Arg = BoolArg(b: bool) | FloatArg(bits: int) | IntArg(i: int) | TimeArg(nanos: int) | TextArg(s: string)
    | OtherArg(id: int)

  datatype Comparison = Eq | Ne | Lt | Le | Gt | Ge | OtherComparison(name: string)
  datatype Arithmetic = Add | Sub | Mult | Div | Mod | OtherArithmetic(name: string)
  datatype Truth = IsTrue | IsFalse | IsUnknown | OtherTruth(n: int)
  datatype Function = CharLength | Replace | NullIf | ConcatAll | OtherFunction(name: string)
  datatype CastType = Text | Float | OtherType(name: string)
  datatype SubqueryKind = Exists | Scalar | Count | OtherKind(n: int)

  /** An expression tree; `Foreign` is a node of no known type, nil included. */
  datatype Expr =
    | Column(qualifier: string, name: string)
    | Lit(v: Option<Arg>)
    | BoolConst(b: bool)
    | Compare(comparison: Comparison, l: Expr, r: Expr)
    | Arith(arithmetic: Arithmetic, l: Expr, r: Expr)
    | Concat(l: Expr, r: Expr)
    | Logic(xs: seq<Expr>, and: bool)
    | Not(x: Expr)
    | IsNull(x: Expr, negate: bool)
    | TruthTest(x: Expr, want: Truth)
    | Like(receiver: Expr, pattern: Expr)
    | NotDistinct(l: Expr, r: Expr)
    | InList(x: Expr, vs: seq<Expr>)
    | Case(whens: seq<When>, otherwise: Option<Expr>)
    | Call(f: Function, args: seq<Expr>)
    | Cast(x: Expr, target: CastType)
    | Subquery(kind: SubqueryKind, select: Expr, from: seq<FromItem>, correlate: Expr, where: Option<Expr>)
    | Foreign

  datatype When = When(cond: Expr, result: Expr)
  datatype FromItem = FromItem(table: string, alias: string)

  // ----- the text, piece by piece -----

  /** The renderer's own syntax, in units none of which begins another. */
  datatype Keyword = Open | Close | Dot | Comma | NullWord | TrueWord | FalseWord
    | CompareWord(comparison: Comparison) | ArithWord(arithmetic: Arithmetic) | ConcatWord | AndWord | OrWord | NotWord
    | IsNullWord | IsNotNullWord | IsTrueWord | IsFalseWord | LikeWord | EscapeWord | NotDistinctWord | InWord
    | CaseWord | WhenWord | ThenWord | ElseWord | EndWord | FunctionWord(f: Function)
    | CastWord | AsWord | TextWord | DoubleWord
    | ExistsWord | SelectWord | OneWord | CountWord | FromWord | WhereWord

  function Spelling(w: Keyword): string {
    match w
    case Open => "("
    case Close => ")"
    case Dot => "."
    case Comma => ", "
    case NullWord => "NULL"
    case TrueWord => "TRUE"
    case FalseWord => "FALSE"
    case CompareWord(op) => " " + ComparisonSymbol(op) + " "
    case ArithWord(op) => " " + ArithmeticSymbol(op) + " "
    case ConcatWord => " || "
    case AndWord => " AND "
    case OrWord => " OR "
    case NotWord => "NOT "
    case IsNullWord => " IS NULL"
    case IsNotNullWord => " IS NOT NULL"
    case IsTrueWord => " IS TRUE"
    case IsFalseWord => " IS FALSE"
    case LikeWord => " LIKE "
    case EscapeWord => " ESCAPE "
    case NotDistinctWord => " IS NOT DISTINCT FROM "
    case InWord => " IN "
    case CaseWord => "CASE"
    case WhenWord => " WHEN "
    case ThenWord => " THEN "
    case ElseWord => " ELSE "
    case EndWord => " END"
    case FunctionWord(f) => FunctionName(f)
    case CastWord => "CAST"
    case AsWord => " AS "
    case TextWord => "text"
    case DoubleWord => "double precision"
    case ExistsWord => "EXISTS "
    case SelectWord => "SELECT "
    case OneWord => "1"
    case CountWord => "count(*)"
    case FromWord => " FROM "
    case WhereWord => " WHERE "
  }

  /** The comparison symbols; an unknown operator has none. */
  function ComparisonSymbol(op: Comparison): string {
    match op
    case Eq => "="
    case Ne => "<>"
    case Lt => "<"
    case Le => "<="
    case Gt => ">"
    case Ge => ">="
    case OtherComparison(_) => ""
  }

  function ArithmeticSymbol(op: Arithmetic): string {
    match op
    case Add => "+"
    case Sub => "-"
    case Mult => "*"
    case Div => "/"
    case Mod => "%"
    case OtherArithmetic(_) => ""
  }

  /** Function names; `concat` is spelled with an operator instead, and an unknown function has none. */
  function FunctionName(f: Function): string {
    match f
    case CharLength => "char_length"
    case Replace => "replace"
    case NullIf => "nullif"
    case ConcatAll => ""
    case OtherFunction(_) => ""
  }

  /** One step of the output: a keyword, a quoted identifier, or a parameter. */
  datatype Piece = Word(w: Keyword) | Name(name: string) | Bind(arg: Arg)

  const ESCAPE := TextArg("\\")

  function Infix(l: seq<Piece>, w: Keyword, r: seq<Piece>): seq<Piece> {
    [Word(Open)] + l + [Word(w)] + r + [Word(Close)]
  }

  /** `(x<test>)` */
  function Postfix(x: seq<Piece>, test: Keyword): seq<Piece> {
    [Word(Open)] + x + [Word(test), Word(Close)]
  }

  function Wrapped(body: seq<Piece>): seq<Piece> {
    [Word(Open)] + body + [Word(Close)]
  }

  function CastPieces(x: seq<Piece>, target: CastType): seq<Piece> {
    [Word(CastWord)] + Wrapped(x + [Word(AsWord), Word(if target.Text? then TextWord else DoubleWord)])
  }

  /** What is printed for a tree, or the renderer's refusal. */
  function Pieces(e: Expr): Translation<seq<Piece>>
    decreases e, 2
  {
    match e
    case Column(qualifier, name) =>
      Done((if qualifier != "" then [Name(qualifier), Word(Dot)] else []) + [Name(name)])
    case Lit(v) => Done([if v.None? then Word(NullWord) else Bind(v.value)])
    case BoolConst(b) => Done([Word(if b then TrueWord else FalseWord)])
    case Compare(op, l, r) =>
      if op.OtherComparison? then Refused
      else
        var a :- Pieces(l);
        var b :- Pieces(r);
        Done(Infix(a, CompareWord(op), b))
    case Arith(op, l, r) =>
      if op.OtherArithmetic? then Refused
      else
        var a :- Pieces(l);
        var b :- Pieces(r);
        Done(Infix(a, ArithWord(op), b))
    case Concat(l, r) =>
      var a :- Pieces(l);
      var b :- Pieces(r);
      Done(Infix(a, ConcatWord, b))
    case Logic(xs, and) =>
      var list :- ListPieces(xs, if and then AndWord else OrWord, 0);
      Done(Wrapped(list))
    case Not(x) =>
      var a :- Pieces(x);
      Done(Wrapped([Word(NotWord)] + a))
    case IsNull(x, negate) =>
      var a :- Pieces(x);
      Done(Postfix(a, if negate then IsNotNullWord else IsNullWord))
    case TruthTest(x, want) =>
      if want.OtherTruth? then Refused
      else
        var a :- Pieces(x);
        Done(Postfix(a, if want.IsTrue? then IsTrueWord else if want.IsFalse? then IsFalseWord else IsNullWord))
    case Like(receiver, pattern) =>
      var a :- Pieces(receiver);
      var b :- Pieces(pattern);
      Done(Infix(a, LikeWord, b + [Word(EscapeWord), Bind(ESCAPE)]))
    case NotDistinct(l, r) =>
      var a :- Pieces(l);
      var b :- Pieces(r);
      Done(Infix(a, NotDistinctWord, b))
    case InList(x, vs) =>
      var a :- Pieces(x);
      var list :- ListPieces(vs, Comma, 0);
      Done(Infix(a, InWord, Wrapped(list)))
    case Case(whens, otherwise) =>
      var list :- WhenPieces(whens, 0);
      var last :- OptionPieces(otherwise, ElseWord);
      Done(Wrapped([Word(CaseWord)] + list + last + [Word(EndWord)]))
    case Call(f, args) =>
      if f.OtherFunction? then Refused
      else
        var list :- ListPieces(args, if f.ConcatAll? then ConcatWord else Comma, 0);
        Done((if f.ConcatAll? then [] else [Word(FunctionWord(f))]) + Wrapped(list))
    case Cast(x, target) =>
      if target.OtherType? then Refused
      else
        var a :- Pieces(x);
        Done(CastPieces(a, target))
    case Subquery(kind, _, _, _, _) =>
      var body :- SelectPieces(e);
      Done(if kind.Exists? then Wrapped([Word(ExistsWord)] + Wrapped(body)) else Wrapped(body))
    case Foreign => Refused
  }

  /** What stands between a subquery's SELECT and FROM. */
  function ProjectionPieces(e: Expr): Translation<seq<Piece>>
    requires e.Subquery?
    decreases e, 0
  {
    if e.kind.Scalar? then Pieces(e.select) else Done([Word(if e.kind.Exists? then OneWord else CountWord)])
  }

  /** What stands between a subquery's inner parentheses. */
  function SelectPieces(e: Expr): Translation<seq<Piece>>
    requires e.Subquery?
    decreases e, 1
  {
    if e.kind.OtherKind? then Refused
    else
      var projection :- ProjectionPieces(e);
      var condition :- Pieces(e.correlate);
      var more :- OptionPieces(e.where, AndWord);
      Done([Word(SelectWord)] + projection + [Word(FromWord)] + FromPieces(e.from, 0) +
        [Word(WhereWord)] + condition + more)
  }

  /** The expressions of `xs` from the `i`th on, each but the list's first after the separator. */
  function ListPieces(xs: seq<Expr>, separator: Keyword, i: nat): Translation<seq<Piece>>
    requires i <= |xs|
    decreases xs, |xs| - i
  {
    if i == |xs| then Done([])
    else
      var first :- Pieces(xs[i]);
      var rest :- ListPieces(xs, separator, i + 1);
      Done((if i > 0 then [Word(separator)] else []) + first + rest)
  }

  function WhenPieces(whens: seq<When>, i: nat): Translation<seq<Piece>>
    requires i <= |whens|
    decreases whens, |whens| - i
  {
    if i == |whens| then Done([])
    else
      var first :- ArmPieces(whens[i]);
      var rest :- WhenPieces(whens, i + 1);
      Done(first + rest)
  }

  function ArmPieces(arm: When): Translation<seq<Piece>>
    decreases arm
  {
    var cond :- Pieces(arm.cond);
    var result :- Pieces(arm.result);
    Done([Word(WhenWord)] + cond + [Word(ThenWord)] + result)
  }

  function OptionPieces(x: Option<Expr>, before: Keyword): Translation<seq<Piece>>
    decreases x, 0
  {
    if x.None? then Done([])
    else
      var a :- Pieces(x.value);
      Done([Word(before)] + a)
  }

  function FromPieces(from: seq<FromItem>, i: nat): seq<Piece>
    requires i <= |from|
    decreases |from| - i
  {
    if i == |from| then []
    else
      (if i > 0 then [Word(Comma)] else []) + [Name(from[i].table), Word(AsWord), Name(from[i].alias)] +
      FromPieces(from, i + 1)
  }

  // ----- characters -----

  function Doubled(name: string): string {
    if name == "" then "" else (if name[0] == '"' then ['"', '"'] else [name[0]]) + Doubled(name[1..])
  }

  function QuoteIdent(name: string): string {
    ['"'] + Doubled(name) + ['"']
  }

  /** The type a parameter states, by the type of its value. */
  function TypeSuffix(v: Arg): string {
    match v
    case BoolArg(_) => "::boolean"
    case FloatArg(_) => "::double precision"
    case IntArg(_) => "::bigint"
    case TimeArg(_) => "::timestamptz"
    case TextArg(_) => "::text"
    case OtherArg(_) => ""
  }

  function Placeholder(n: int, v: Arg): string {
    ['$'] + IntText(n) + TypeSuffix(v)
  }

  /** The bound values, in order. */
  function Bound(pieces: seq<Piece>): seq<Arg> {
    if pieces == [] then []
    else
      var last := pieces[|pieces| - 1];
      Bound(pieces[..|pieces| - 1]) + if last.Bind? then [last.arg] else []
  }

  /** The text of the pieces, parameters numbered from `offset + 1`. */
  function Spelled(pieces: seq<Piece>, offset: int): string {
    if pieces == [] then ""
    else
      var last := pieces[|pieces| - 1];
      Spelled(pieces[..|pieces| - 1], offset) +
      match last
      case Word(w) => Spelling(w)
      case Name(name) => QuoteIdent(name)
      case Bind(v) => Placeholder(offset + |Bound(pieces)|, v)
  }

  /** The renderer's result: the text and its arguments. */
  function Rendered(e: Expr, offset: int): Translation<(string, seq<Arg>)> {
    var pieces :- Pieces(e);
    Done((Spelled(pieces, offset), Bound(pieces)))
  }
}
