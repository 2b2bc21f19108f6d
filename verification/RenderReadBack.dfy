/** Reading the printed pieces back: a recursive descent over tokens, with no table of precedences. */
module RenderReadBack {
  import opened Wrappers
  import opened SqlTrees

  type Reading<X> = Option<(X, seq<Piece>)>

  // ----- the reader -----

  /** The escape character that LIKE patterns are read with. */
  const BACKSLASH := TextArg(['\\'])

  predicate Begins(ps: seq<Piece>, w: Keyword) {
    ps != [] && ps[0] == Word(w)
  }

  function ReadExpr(ps: seq<Piece>): (r: Reading<Expr>)
    ensures r.Some? ==> |r.value.1| < |ps|
    decreases |ps|, 2
  {
    if ps == [] then None
    else match ps[0]
      case Name(name) =>
        if |ps| >= 3 && ps[1] == Word(Dot) && ps[2].Name? then Some((Column(name, ps[2].name), ps[3..]))
        else Some((Column("", name), ps[1..]))
      case Bind(v) => Some((Lit(Some(v)), ps[1..]))
      case Word(NullWord) => Some((Lit(None), ps[1..]))
      case Word(TrueWord) => Some((BoolConst(true), ps[1..]))
      case Word(FalseWord) => Some((BoolConst(false), ps[1..]))
      case Word(CastWord) => ReadCast(ps[1..])
      case Word(FunctionWord(f)) => ReadCall(f, ps[1..])
      case Word(Open) => ReadParenthesised(ps[1..])
      case _ => None
  }

  /** An expression and the parenthesis that closes around it. */
  function ReadClosed(ps: seq<Piece>): (r: Reading<Expr>)
    ensures r.Some? ==> |r.value.1| < |ps|
    decreases |ps|, 3
  {
    var x := ReadExpr(ps);
    if x.None? || !Begins(x.value.1, Close) then None else Some((x.value.0, x.value.1[1..]))
  }

  function ReadCast(ps: seq<Piece>): (r: Reading<Expr>)
    ensures r.Some? ==> |r.value.1| < |ps|
    decreases |ps|, 3
  {
    if !Begins(ps, Open) then None
    else
      var x := ReadExpr(ps[1..]);
      if x.None? || |x.value.1| < 3 || x.value.1[0] != Word(AsWord) || x.value.1[2] != Word(Close) then None
      else if x.value.1[1] == Word(TextWord) then Some((Cast(x.value.0, Text), x.value.1[3..]))
      else if x.value.1[1] == Word(DoubleWord) then Some((Cast(x.value.0, Float), x.value.1[3..]))
      else None
  }

  function ReadCall(f: Function, ps: seq<Piece>): (r: Reading<Expr>)
    ensures r.Some? ==> |r.value.1| < |ps|
    decreases |ps|, 3
  {
    if !Begins(ps, Open) then None
    else
      var args := ReadArguments(ps[1..]);
      if args.None? then None else Some((Call(f, args.value.0), args.value.1))
  }

  /** Expressions between commas, and the closing parenthesis. */
  function ReadArguments(ps: seq<Piece>): (r: Reading<seq<Expr>>)
    ensures r.Some? ==> |r.value.1| < |ps|
    decreases |ps|, 3
  {
    if Begins(ps, Close) then Some(([], ps[1..]))
    else
      var first := ReadExpr(ps);
      if first.None? then None
      else
        var rest := ReadTail(Comma, first.value.1);
        if rest.None? || !Begins(rest.value.1, Close) then None
        else Some(([first.value.0] + rest.value.0, rest.value.1[1..]))
  }

  /** As many further expressions as follow the separator. */
  function ReadTail(separator: Keyword, ps: seq<Piece>): (r: Reading<seq<Expr>>)
    ensures r.Some? ==> |r.value.1| <= |ps|
    decreases |ps|, 3
  {
    if !Begins(ps, separator) then Some(([], ps))
    else
      var x := ReadExpr(ps[1..]);
      if x.None? then None
      else
        var rest := ReadTail(separator, x.value.1);
        if rest.None? then None else Some(([x.value.0] + rest.value.0, rest.value.1))
  }

  /** What follows an opening parenthesis. */
  function ReadParenthesised(ps: seq<Piece>): (r: Reading<Expr>)
    ensures r.Some? ==> |r.value.1| <= |ps|
    decreases |ps|, 4
  {
    if ps == [] then None
    else match ps[0]
      case Word(NotWord) =>
        var x := ReadClosed(ps[1..]);
        if x.None? then None else Some((Not(x.value.0), x.value.1))
      case Word(CaseWord) => ReadCase(ps[1..])
      case Word(SelectWord) =>
        var s := ReadSelect(ps[1..]);
        if s.None? || s.value.0.kind.Exists? || !Begins(s.value.1, Close) then None
        else Some((s.value.0, s.value.1[1..]))
      case Word(ExistsWord) =>
        if |ps| < 3 || ps[1] != Word(Open) || ps[2] != Word(SelectWord) then None
        else
          var s := ReadSelect(ps[3..]);
          if s.None? || !s.value.0.kind.Exists? || !Begins(s.value.1, Close) || !Begins(s.value.1[1..], Close) then None
          else Some((s.value.0, s.value.1[2..]))
      case Word(Close) => Some((Logic([], true), ps[1..]))
      case _ =>
        var x := ReadExpr(ps);
        if x.None? then None else ReadOperator(x.value.0, x.value.1)
  }

  /** The operator after a parenthesis's first expression, its other operands and the closing. */
  function ReadOperator(x: Expr, ps: seq<Piece>): (r: Reading<Expr>)
    ensures r.Some? ==> |r.value.1| < |ps|
    decreases |ps|, 5
  {
    if ps == [] || !ps[0].Word? then None
    else match ps[0].w
      case Close => Some((Logic([x], true), ps[1..]))
      case AndWord => ReadChain(x, AndWord, ps)
      case OrWord => ReadChain(x, OrWord, ps)
      case ConcatWord => ReadChain(x, ConcatWord, ps)
      case CompareWord(op) =>
        var y := ReadClosed(ps[1..]);
        if y.None? then None else Some((Compare(op, x, y.value.0), y.value.1))
      case ArithWord(op) =>
        var y := ReadClosed(ps[1..]);
        if y.None? then None else Some((Arith(op, x, y.value.0), y.value.1))
      case NotDistinctWord =>
        var y := ReadClosed(ps[1..]);
        if y.None? then None else Some((NotDistinct(x, y.value.0), y.value.1))
      case IsNullWord => ReadTest(IsNull(x, false), ps[1..])
      case IsNotNullWord => ReadTest(IsNull(x, true), ps[1..])
      case IsTrueWord => ReadTest(TruthTest(x, IsTrue), ps[1..])
      case IsFalseWord => ReadTest(TruthTest(x, IsFalse), ps[1..])
      case LikeWord =>
        var y := ReadExpr(ps[1..]);
        if y.None? || |y.value.1| < 3 || y.value.1[..3] != [Word(EscapeWord), Bind(BACKSLASH), Word(Close)] then None
        else Some((Like(x, y.value.0), y.value.1[3..]))
      case InWord =>
        if !Begins(ps[1..], Open) then None
        else
          var vs := ReadArguments(ps[2..]);
          if vs.None? || !Begins(vs.value.1, Close) then None else Some((InList(x, vs.value.0), vs.value.1[1..]))
      case _ => None
  }

  function ReadTest(test: Expr, ps: seq<Piece>): (r: Reading<Expr>)
    ensures r.Some? ==> |r.value.1| < |ps|
  {
    if Begins(ps, Close) then Some((test, ps[1..])) else None
  }

  /** A chain of one operator. */
  function ReadChain(x: Expr, separator: Keyword, ps: seq<Piece>): (r: Reading<Expr>)
    ensures r.Some? ==> |r.value.1| < |ps|
    decreases |ps|, 4
  {
    var rest := ReadTail(separator, ps);
    if rest.None? || !Begins(rest.value.1, Close) then None
    else Some((Chained(separator, [x] + rest.value.0), rest.value.1[1..]))
  }

  function Chained(separator: Keyword, xs: seq<Expr>): Expr {
    if separator == ConcatWord then Call(ConcatAll, xs) else Logic(xs, separator == AndWord)
  }

  function ReadCase(ps: seq<Piece>): (r: Reading<Expr>)
    ensures r.Some? ==> |r.value.1| < |ps|
    decreases |ps|, 4
  {
    var whens := ReadWhens(ps);
    if whens.None? then None
    else
      var otherwise := ReadOption(ElseWord, whens.value.1);
      if otherwise.None? then None
      else
        var rest := otherwise.value.1;
        if !Begins(rest, EndWord) || !Begins(rest[1..], Close) then None
        else Some((Case(whens.value.0, otherwise.value.0), rest[2..]))
  }

  function ReadWhens(ps: seq<Piece>): (r: Reading<seq<When>>)
    ensures r.Some? ==> |r.value.1| <= |ps|
    decreases |ps|, 3
  {
    if !Begins(ps, WhenWord) then Some(([], ps))
    else
      var cond := ReadExpr(ps[1..]);
      if cond.None? || !Begins(cond.value.1, ThenWord) then None
      else
        var result := ReadExpr(cond.value.1[1..]);
        if result.None? then None
        else
          var rest := ReadWhens(result.value.1);
          if rest.None? then None else Some(([When(cond.value.0, result.value.0)] + rest.value.0, rest.value.1))
  }

  function ReadOption(before: Keyword, ps: seq<Piece>): (r: Reading<Option<Expr>>)
    ensures r.Some? ==> |r.value.1| <= |ps|
    decreases |ps|, 3
  {
    if !Begins(ps, before) then Some((None, ps))
    else
      var x := ReadExpr(ps[1..]);
      if x.None? then None else Some((Some(x.value.0), x.value.1))
  }

  /** A subquery's kind and projection, up to its tables. */
  function ReadProjection(ps: seq<Piece>): (r: Reading<(SubqueryKind, Expr)>)
    ensures r.Some? ==> |r.value.1| < |ps|
    decreases |ps|, 3
  {
    if Begins(ps, OneWord) then Some(((Exists, Foreign), ps[1..]))
    else if Begins(ps, CountWord) then Some(((Count, Foreign), ps[1..]))
    else
      var x := ReadExpr(ps);
      if x.None? then None else Some(((Scalar, x.value.0), x.value.1))
  }

  /** What follows a subquery's SELECT. */
  function ReadSelect(ps: seq<Piece>): (r: Reading<Expr>)
    ensures r.Some? ==> |r.value.1| < |ps| && r.value.0.Subquery?
    decreases |ps|, 4
  {
    var projection := ReadProjection(ps);
    if projection.None? || !Begins(projection.value.1, FromWord) then None
    else
      var from := ReadFrom(projection.value.1[1..]);
      if !Begins(from.1, WhereWord) then None
      else
        var condition := ReadExpr(from.1[1..]);
        if condition.None? then None
        else
          var more := ReadOption(AndWord, condition.value.1);
          if more.None? then None
          else
            var (kind, select) := projection.value.0;
            Some((Subquery(kind, select, from.0, condition.value.0, more.value.0), more.value.1))
  }

  /** Aliased tables, with or without the comma before the first. */
  function ReadFrom(ps: seq<Piece>): (r: (seq<FromItem>, seq<Piece>))
    ensures |r.1| <= |ps|
    decreases |ps|
  {
    var items := if Begins(ps, Comma) then ps[1..] else ps;
    if |items| < 3 || !items[0].Name? || items[1] != Word(AsWord) || !items[2].Name? then ([], ps)
    else
      var rest := ReadFrom(items[3..]);
      ([FromItem(items[0].name, items[2].name)] + rest.0, rest.1)
  }

  // ----- trees that print alike -----

  /** One tree for all those that print the same. */
  function Canon(e: Expr): Expr
    decreases e, 0
  {
    match e
    case Compare(op, l, r) => Compare(op, Canon(l), Canon(r))
    case Arith(op, l, r) => Arith(op, Canon(l), Canon(r))
    case Concat(l, r) => Call(ConcatAll, [Canon(l), Canon(r)])
    case Logic(xs, and) => Logic(Canons(xs, 0), and || |xs| <= 1)
    case Not(x) => Not(Canon(x))
    case IsNull(x, negate) => IsNull(Canon(x), negate)
    case TruthTest(x, want) => if want.IsUnknown? then IsNull(Canon(x), false) else TruthTest(Canon(x), want)
    case Like(receiver, pattern) => Like(Canon(receiver), Canon(pattern))
    case NotDistinct(l, r) => NotDistinct(Canon(l), Canon(r))
    case InList(x, vs) => InList(Canon(x), Canons(vs, 0))
    case Case(whens, otherwise) => Case(CanonWhens(whens, 0), CanonOption(otherwise))
    case Call(f, args) =>
      if f.ConcatAll? && |args| <= 1 then Logic(Canons(args, 0), true) else Call(f, Canons(args, 0))
    case Cast(x, target) => Cast(Canon(x), target)
    case Subquery(kind, select, from, correlate, where) =>
      Subquery(kind, if kind.Scalar? then Canon(select) else Foreign, from, Canon(correlate), CanonOption(where))
    case _ => e
  }

  function Canons(xs: seq<Expr>, i: nat): (r: seq<Expr>)
    requires i <= |xs|
    ensures |r| == |xs| - i
    decreases xs, |xs| - i
  {
    if i == |xs| then [] else [Canon(xs[i])] + Canons(xs, i + 1)
  }

  function CanonArm(arm: When): When
    decreases arm, 0
  {
    When(Canon(arm.cond), Canon(arm.result))
  }

  function CanonWhens(whens: seq<When>, i: nat): seq<When>
    requires i <= |whens|
    decreases whens, |whens| - i
  {
    if i == |whens| then [] else [CanonArm(whens[i])] + CanonWhens(whens, i + 1)
  }

  function CanonOption(x: Option<Expr>): Option<Expr>
    decreases x, 0
  {
    if x.None? then None else Some(Canon(x.value))
  }

  // ----- what is printed -----

  /** How an expression's print begins; nothing that can follow an open parenthesis otherwise. */
  predicate Starts(a: seq<Piece>) {
    a != [] && (a[0].Word? ==>
      a[0].w in {Open, NullWord, TrueWord, FalseWord, CastWord} || a[0].w.FunctionWord?)
  }

  lemma PiecesStart(e: Expr)
    requires Pieces(e).Done?
    ensures Starts(Pieces(e).result)
  {
  }

  /** Only a column's dot could continue an expression that is already complete. */
  predicate Follows(rest: seq<Piece>) {
    !Begins(rest, Dot)
  }

  // ----- reading one node -----

  lemma OpensOperand(a: seq<Piece>, x: Expr, more: seq<Piece>)
    requires Starts(a) && ReadExpr(a + more) == Some((x, more))
    ensures ReadExpr([Word(Open)] + (a + more)) == ReadOperator(x, more)
  {
    hide ReadOperator;
    var inner := a + more;
    assert ([Word(Open)] + inner)[1..] == inner && inner[0] == a[0];
    assert ReadExpr([Word(Open)] + inner) == ReadParenthesised(inner);
  }

  /** `(x w y)`: the reader stands at `w` with `x` read, and `y` and the closing follow. */
  lemma InfixReads(a: seq<Piece>, w: Keyword, b: seq<Piece>, x: Expr, y: Expr, rest: seq<Piece>)
    requires Starts(a)
    requires var close := [Word(Close)] + rest; var more := [Word(w)] + (b + close);
      ReadExpr(b + close) == Some((y, close)) && ReadExpr(a + more) == Some((x, more))
    ensures var close := [Word(Close)] + rest; var more := [Word(w)] + (b + close);
      ReadExpr(Infix(a, w, b) + rest) == ReadOperator(x, more) && more[1..] == b + close &&
      ReadClosed(b + close) == Some((y, rest))
  {
    hide ReadExpr, ReadOperator;
    var close := [Word(Close)] + rest;
    assert close[1..] == rest;
    InfixNested(a, w, b, rest);
    OpensOperand(a, x, [Word(w)] + (b + close));
  }

  lemma InfixNested(a: seq<Piece>, w: Keyword, b: seq<Piece>, rest: seq<Piece>)
    ensures Infix(a, w, b) + rest == [Word(Open)] + (a + ([Word(w)] + (b + ([Word(Close)] + rest))))
    ensures ([Word(w)] + (b + ([Word(Close)] + rest)))[1..] == b + ([Word(Close)] + rest)
  {
  }

  lemma BinaryReads(e: Expr, l: Expr, w: Keyword, r: Expr, rest: seq<Piece>)
    requires w.CompareWord? || w.ArithWord? || w == ConcatWord || w == NotDistinctWord
    requires Pieces(l).Done? && Pieces(r).Done?
    requires Pieces(e) == Done(Infix(Pieces(l).result, w, Pieces(r).result))
    requires var close := [Word(Close)] + rest; var more := [Word(w)] + (Pieces(r).result + close);
      ReadExpr(Pieces(r).result + close) == Some((Canon(r), close)) &&
      ReadExpr(Pieces(l).result + more) == Some((Canon(l), more))
    requires w == ConcatWord ==> Canon(e) == Call(ConcatAll, [Canon(l), Canon(r)])
    requires w.CompareWord? ==> Canon(e) == Compare(w.comparison, Canon(l), Canon(r))
    requires w.ArithWord? ==> Canon(e) == Arith(w.arithmetic, Canon(l), Canon(r))
    requires w == NotDistinctWord ==> Canon(e) == NotDistinct(Canon(l), Canon(r))
    ensures ReadExpr(Pieces(e).result + rest) == Some((Canon(e), rest))
  {
    hide ReadExpr, Pieces, Canon;
    var a, b := Pieces(l).result, Pieces(r).result;
    PiecesStart(l);
    InfixReads(a, w, b, Canon(l), Canon(r), rest);
    if w == ConcatWord {
      ChainOfTwo(Canon(l), b, Canon(r), rest);
    }
  }

  /** A chain of two operands. */
  lemma ChainOfTwo(x: Expr, b: seq<Piece>, y: Expr, rest: seq<Piece>)
    requires var close := [Word(Close)] + rest; ReadExpr(b + close) == Some((y, close))
    ensures ReadOperator(x, [Word(ConcatWord)] + (b + ([Word(Close)] + rest))) == Some((Call(ConcatAll, [x, y]), rest))
  {
    hide ReadExpr;
    var close := [Word(Close)] + rest;
    var more := [Word(ConcatWord)] + (b + close);
    assert more[1..] == b + close && close[1..] == rest;
    assert ReadTail(ConcatWord, close) == Some(([], close));
    assert ReadTail(ConcatWord, more) == Some(([y] + [], close));
    assert [x] + ([y] + []) == [x, y];
  }

  lemma PostfixReads(a: seq<Piece>, test: Keyword, x: Expr, rest: seq<Piece>)
    requires Starts(a)
    requires var more := [Word(test), Word(Close)] + rest; ReadExpr(a + more) == Some((x, more))
    ensures ReadExpr(Postfix(a, test) + rest) == ReadOperator(x, [Word(test), Word(Close)] + rest)
    ensures ([Word(test), Word(Close)] + rest)[1..] == [Word(Close)] + rest && ([Word(Close)] + rest)[1..] == rest
  {
    hide ReadExpr, ReadOperator;
    var more := [Word(test), Word(Close)] + rest;
    assert Postfix(a, test) + rest == [Word(Open)] + (a + more);
    OpensOperand(a, x, more);
  }

  // ----- reading whole trees -----

  predicate IsSeparator(w: Keyword) {
    w in {Comma, AndWord, OrWord, ConcatWord}
  }

  lemma {:induction false} TailReads(xs: seq<Expr>, separator: Keyword, i: nat, rest: seq<Piece>)
    requires 0 < i <= |xs| && ListPieces(xs, separator, i).Done?
    requires IsSeparator(separator) && !Begins(rest, separator) && Follows(rest)
    ensures ReadTail(separator, ListPieces(xs, separator, i).result + rest) == Some((Canons(xs, i), rest))
    decreases xs, |xs| - i
  {
    hide ReadExpr, Pieces, Canon;
    if i == |xs| {
      assert [] + rest == rest;
    } else {
      hide ReadTail, Follows;
      var first, tail := Pieces(xs[i]).result, ListPieces(xs, separator, i + 1).result;
      var more := tail + rest;
      TailBegins(xs, separator, i + 1, rest);
      TailReads(xs, separator, i + 1, rest);
      ReadsBack(xs[i], more);
      TailNested(first, separator, tail, rest);
      ElementReads(separator, first + more, Canon(xs[i]), more, Canons(xs, i + 1), rest);
    }
  }

  lemma TailNested(first: seq<Piece>, separator: Keyword, tail: seq<Piece>, rest: seq<Piece>)
    ensures [Word(separator)] + first + tail + rest == [Word(separator)] + (first + (tail + rest))
  {
  }

  lemma ElementReads(separator: Keyword, ps: seq<Piece>, x: Expr, more: seq<Piece>, tail: seq<Expr>, rest: seq<Piece>)
    requires IsSeparator(separator)
    requires ReadExpr(ps) == Some((x, more)) && ReadTail(separator, more) == Some((tail, rest))
    ensures ReadTail(separator, [Word(separator)] + ps) == Some(([x] + tail, rest))
  {
    hide ReadExpr;
    assert ([Word(separator)] + ps)[1..] == ps;
  }

  /** A list's later elements begin with the separator, or are none. */
  lemma TailBegins(xs: seq<Expr>, separator: Keyword, i: nat, rest: seq<Piece>)
    requires 0 < i <= |xs| && ListPieces(xs, separator, i).Done? && separator != Dot && Follows(rest)
    ensures var ps := ListPieces(xs, separator, i).result + rest;
      Follows(ps) && (i < |xs| ==> Begins(ps, separator)) && (i == |xs| ==> ps == rest)
  {
    hide Pieces;
  }

  lemma {:induction false} ArgumentsRead(xs: seq<Expr>, rest: seq<Piece>)
    requires ListPieces(xs, Comma, 0).Done?
    ensures ReadArguments(ListPieces(xs, Comma, 0).result + ([Word(Close)] + rest)) == Some((Canons(xs, 0), rest))
    decreases xs, |xs| + 1
  {
    hide ReadExpr, Pieces, Canon, ReadTail;
    var close := [Word(Close)] + rest;
    assert close[1..] == rest;
    if xs == [] {
      assert [] + close == close;
    } else {
      var first, tail := Pieces(xs[0]).result, ListPieces(xs, Comma, 1).result;
      var more := tail + close;
      TailBegins(xs, Comma, 1, close);
      TailReads(xs, Comma, 1, close);
      ReadsBack(xs[0], more);
      PiecesStart(xs[0]);
      ArgumentList(first + more, Canon(xs[0]), more, Canons(xs, 1), rest);
      assert [] + first + tail + close == first + more;
    }
  }

  lemma ArgumentList(ps: seq<Piece>, x: Expr, more: seq<Piece>, tail: seq<Expr>, rest: seq<Piece>)
    requires ReadExpr(ps) == Some((x, more)) && !Begins(ps, Close)
    requires ReadTail(Comma, more) == Some((tail, [Word(Close)] + rest))
    ensures ReadArguments(ps) == Some(([x] + tail, rest))
  {
    hide ReadExpr, ReadTail;
    assert ([Word(Close)] + rest)[1..] == rest;
  }

  /** A parenthesised chain; a chain of one is just parentheses. */
  lemma {:induction false} ChainReads(xs: seq<Expr>, separator: Keyword, rest: seq<Piece>)
    requires xs != [] && ListPieces(xs, separator, 0).Done? && IsSeparator(separator) && separator != Comma
    ensures ReadExpr(Wrapped(ListPieces(xs, separator, 0).result) + rest) ==
      Some((if |xs| == 1 then Logic(Canons(xs, 0), true) else Chained(separator, Canons(xs, 0)), rest))
    decreases xs, |xs| + 1
  {
    hide ReadExpr, Pieces, Canon, ReadTail;
    var close := [Word(Close)] + rest;
    var first, tail := Pieces(xs[0]).result, ListPieces(xs, separator, 1).result;
    var more := tail + close;
    TailBegins(xs, separator, 1, close);
    TailReads(xs, separator, 1, close);
    ReadsBack(xs[0], more);
    PiecesStart(xs[0]);
    ChainNested(first, tail, ListPieces(xs, separator, 0).result, rest);
    OpensOperand(first, Canon(xs[0]), more);
    ChainEnds(Canon(xs[0]), separator, Canons(xs, 1), more, rest);
    assert Canons(xs, 0) == [Canon(xs[0])] + Canons(xs, 1);
    assert |xs| == 1 ==> Canons(xs, 0) == [Canon(xs[0])];
  }

  lemma ChainEnds(x: Expr, separator: Keyword, tail: seq<Expr>, more: seq<Piece>, rest: seq<Piece>)
    requires IsSeparator(separator) && separator != Comma
    requires var close := [Word(Close)] + rest;
      ReadTail(separator, more) == Some((tail, close)) &&
      (if tail == [] then more == close else Begins(more, separator))
    ensures ReadOperator(x, more) ==
      Some((if tail == [] then Logic([x], true) else Chained(separator, [x] + tail), rest))
  {
    hide ReadExpr, ReadTail;
    assert ([Word(Close)] + rest)[1..] == rest;
  }

  lemma ChainNested(first: seq<Piece>, tail: seq<Piece>, list: seq<Piece>, rest: seq<Piece>)
    requires list == [] + first + tail
    ensures Wrapped(list) + rest == [Word(Open)] + (first + (tail + ([Word(Close)] + rest)))
  {
  }

  lemma {:induction false} WhensRead(whens: seq<When>, i: nat, rest: seq<Piece>)
    requires i <= |whens| && WhenPieces(whens, i).Done? && !Begins(rest, WhenWord) && Follows(rest)
    ensures ReadWhens(WhenPieces(whens, i).result + rest) == Some((CanonWhens(whens, i), rest))
    decreases whens, |whens| - i
  {
    hide ReadExpr, ArmPieces, CanonArm;
    if i == |whens| {
      assert [] + rest == rest;
    } else {
      var more := WhenPieces(whens, i + 1).result + rest;
      WhensBegin(whens, i + 1, rest);
      WhensRead(whens, i + 1, rest);
      ArmReads(whens[i], more);
      assert WhenPieces(whens, i).result + rest == ArmPieces(whens[i]).result + more;
    }
  }

  lemma WhensBegin(whens: seq<When>, i: nat, rest: seq<Piece>)
    requires i <= |whens| && WhenPieces(whens, i).Done? && Follows(rest)
    ensures var ps := WhenPieces(whens, i).result + rest; Follows(ps)
  {
    hide Pieces;
  }

  /** One arm, and then whatever further arms the reader finds. */
  lemma {:induction false} ArmReads(arm: When, more: seq<Piece>)
    requires ArmPieces(arm).Done? && Follows(more)
    ensures ReadWhens(ArmPieces(arm).result + more) ==
      var rest := ReadWhens(more);
      if rest.None? then None else Some(([CanonArm(arm)] + rest.value.0, rest.value.1))
    decreases arm, 2
  {
    hide ReadExpr, Pieces, Canon;
    var a, b := Pieces(arm.cond).result, Pieces(arm.result).result;
    var afterThen := b + more;
    var afterCond := [Word(ThenWord)] + afterThen;
    ReadsBack(arm.result, more);
    ReadsBack(arm.cond, afterCond);
    var ps := [Word(WhenWord)] + (a + afterCond);
    assert ArmPieces(arm).result + more == ps;
    assert ps[1..] == a + afterCond && afterCond[1..] == afterThen;
  }

  lemma {:induction false} OptionReads(x: Option<Expr>, before: Keyword, rest: seq<Piece>)
    requires OptionPieces(x, before).Done? && !Begins(rest, before) && Follows(rest)
    ensures ReadOption(before, OptionPieces(x, before).result + rest) == Some((CanonOption(x), rest))
    decreases x, 2
  {
    hide ReadExpr, Pieces, Canon;
    if x.None? {
      assert [] + rest == rest;
    } else {
      var a := Pieces(x.value).result;
      ReadsBack(x.value, rest);
      var ps := [Word(before)] + (a + rest);
      assert OptionPieces(x, before).result + rest == ps;
      assert ps[1..] == a + rest;
    }
  }

  lemma {:induction false} FromReads(from: seq<FromItem>, i: nat, rest: seq<Piece>)
    requires i <= |from| && Begins(rest, WhereWord)
    ensures ReadFrom(FromPieces(from, i) + rest) == (from[i..], rest)
    decreases |from| - i
  {
    hide FromPieces, ReadFrom;
    if i == |from| {
      FromEnds(from, rest);
    } else {
      var more := FromPieces(from, i + 1) + rest;
      FromReads(from, i + 1, rest);
      ItemReads(from[i], if i > 0 then [Word(Comma)] else [], more);
      FromNested(from, i, rest);
      assert from[i..] == [from[i]] + from[i + 1..];
    }
  }

  lemma FromEnds(from: seq<FromItem>, rest: seq<Piece>)
    requires Begins(rest, WhereWord)
    ensures ReadFrom(FromPieces(from, |from|) + rest) == ([], rest)
  {
    assert [] + rest == rest;
  }

  lemma FromNested(from: seq<FromItem>, i: nat, rest: seq<Piece>)
    requires i < |from|
    ensures FromPieces(from, i) + rest == (if i > 0 then [Word(Comma)] else []) +
      ([Name(from[i].table), Word(AsWord), Name(from[i].alias)] + (FromPieces(from, i + 1) + rest))
  {
  }

  lemma ItemReads(item: FromItem, comma: seq<Piece>, more: seq<Piece>)
    requires comma == [] || comma == [Word(Comma)]
    ensures ReadFrom(comma + ([Name(item.table), Word(AsWord), Name(item.alias)] + more)) ==
      ([item] + ReadFrom(more).0, ReadFrom(more).1)
  {
    var three := [Name(item.table), Word(AsWord), Name(item.alias)] + more;
    var ps := comma + three;
    assert three[3..] == more;
    assert (if Begins(ps, Comma) then ps[1..] else ps) == three;
  }

  // ----- every kind of node -----

  lemma ColumnReads(e: Expr, rest: seq<Piece>)
    requires e.Column? && Follows(rest)
    ensures ReadExpr(Pieces(e).result + rest) == Some((e, rest))
  {
    var ps := Pieces(e).result + rest;
    if e.qualifier != "" {
      assert ps == [Name(e.qualifier), Word(Dot), Name(e.name)] + rest;
      assert ps[3..] == rest;
    } else {
      assert ps == [Name(e.name)] + rest;
      assert ps[1..] == rest;
    }
  }

  lemma LeafReads(e: Expr, rest: seq<Piece>)
    requires e.Lit? || e.BoolConst?
    ensures ReadExpr(Pieces(e).result + rest) == Some((e, rest))
  {
    var ps := Pieces(e).result + rest;
    assert ps[1..] == rest;
  }

  lemma {:induction false} OperandsRead(e: Expr, l: Expr, w: Keyword, r: Expr, rest: seq<Piece>)
    requires l < e && r < e && w != Dot
    requires w.CompareWord? || w.ArithWord? || w == ConcatWord || w == NotDistinctWord
    requires Pieces(l).Done? && Pieces(r).Done?
    requires Pieces(e) == Done(Infix(Pieces(l).result, w, Pieces(r).result))
    requires w == ConcatWord ==> Canon(e) == Call(ConcatAll, [Canon(l), Canon(r)])
    requires w.CompareWord? ==> Canon(e) == Compare(w.comparison, Canon(l), Canon(r))
    requires w.ArithWord? ==> Canon(e) == Arith(w.arithmetic, Canon(l), Canon(r))
    requires w == NotDistinctWord ==> Canon(e) == NotDistinct(Canon(l), Canon(r))
    ensures ReadExpr(Pieces(e).result + rest) == Some((Canon(e), rest))
    decreases e, 1
  {
    hide ReadExpr, Pieces, Canon;
    var close := [Word(Close)] + rest;
    ReadsBack(r, close);
    ReadsBack(l, [Word(w)] + (Pieces(r).result + close));
    BinaryReads(e, l, w, r, rest);
  }

  lemma {:induction false} LogicReads(e: Expr, rest: seq<Piece>)
    requires e.Logic? && Pieces(e).Done?
    ensures ReadExpr(Pieces(e).result + rest) == Some((Canon(e), rest))
    decreases e, 1
  {
    hide ReadExpr, ListPieces, Canons;
    if e.xs == [] {
      NothingReads(rest);
      NoList(e.xs, if e.and then AndWord else OrWord);
    } else {
      ChainReads(e.xs, if e.and then AndWord else OrWord, rest);
    }
  }

  lemma NothingReads(rest: seq<Piece>)
    ensures ReadExpr(Wrapped([]) + rest) == Some((Logic([], true), rest))
  {
    var ps := [Word(Close)] + rest;
    assert Wrapped([]) + rest == [Word(Open)] + ps;
    assert ([Word(Open)] + ps)[1..] == ps && ps[1..] == rest;
  }

  lemma NoList(xs: seq<Expr>, separator: Keyword)
    requires xs == []
    ensures ListPieces(xs, separator, 0) == Done([]) && Canons(xs, 0) == []
  {
  }

  lemma {:induction false} NotReads(e: Expr, rest: seq<Piece>)
    requires e.Not? && Pieces(e).Done?
    ensures ReadExpr(Pieces(e).result + rest) == Some((Canon(e), rest))
    decreases e, 1
  {
    var a := Pieces(e.x).result;
    var close := [Word(Close)] + rest;
    ReadsBack(e.x, close);
    NotNested(a, Canon(e.x), rest);
  }

  lemma NotNested(a: seq<Piece>, x: Expr, rest: seq<Piece>)
    requires ReadExpr(a + ([Word(Close)] + rest)) == Some((x, [Word(Close)] + rest))
    ensures ReadExpr(Wrapped([Word(NotWord)] + a) + rest) == Some((Not(x), rest))
  {
    hide ReadOperator, ReadCase, ReadSelect, ReadCast, ReadCall;
    var close := [Word(Close)] + rest;
    var inner := [Word(NotWord)] + (a + close);
    var ps := [Word(Open)] + inner;
    assert Wrapped([Word(NotWord)] + a) + rest == ps;
    assert ps[1..] == inner && inner[1..] == a + close && close[1..] == rest;
    assert ReadClosed(a + close) == Some((x, rest));
  }

  lemma {:induction false} TestReads(e: Expr, test: Keyword, rest: seq<Piece>)
    requires (e.IsNull? || e.TruthTest?) && Pieces(e).Done?
    requires Pieces(e) == Done(Postfix(Pieces(e.x).result, test))
    requires Canon(e) ==
      if test == IsNullWord then IsNull(Canon(e.x), false)
      else if test == IsNotNullWord then IsNull(Canon(e.x), true)
      else TruthTest(Canon(e.x), if test == IsTrueWord then IsTrue else IsFalse)
    requires test in {IsNullWord, IsNotNullWord, IsTrueWord, IsFalseWord}
    ensures ReadExpr(Pieces(e).result + rest) == Some((Canon(e), rest))
    decreases e, 1
  {
    hide ReadExpr, Canon;
    var more := [Word(test), Word(Close)] + rest;
    ReadsBack(e.x, more);
    PiecesStart(e.x);
    PostfixReads(Pieces(e.x).result, test, Canon(e.x), rest);
  }

  lemma {:induction false} LikeReads(e: Expr, rest: seq<Piece>)
    requires e.Like? && Pieces(e).Done?
    ensures ReadExpr(Pieces(e).result + rest) == Some((Canon(e), rest))
    decreases e, 1
  {
    var a, b := Pieces(e.receiver).result, Pieces(e.pattern).result;
    var escape := [Word(EscapeWord), Bind(ESCAPE), Word(Close)] + rest;
    ReadsBack(e.pattern, escape);
    ReadsBack(e.receiver, [Word(LikeWord)] + (b + escape));
    PiecesStart(e.receiver);
    LikeNested(a, b, Canon(e.receiver), Canon(e.pattern), rest);
  }

  lemma LikeNested(a: seq<Piece>, b: seq<Piece>, x: Expr, y: Expr, rest: seq<Piece>)
    requires Starts(a)
    requires var escape := [Word(EscapeWord), Bind(ESCAPE), Word(Close)] + rest;
      var more := [Word(LikeWord)] + (b + escape);
      ReadExpr(b + escape) == Some((y, escape)) && ReadExpr(a + more) == Some((x, more))
    ensures ReadExpr(Infix(a, LikeWord, b + [Word(EscapeWord), Bind(ESCAPE)]) + rest) == Some((Like(x, y), rest))
  {
    hide ReadExpr;
    var escape := [Word(EscapeWord), Bind(ESCAPE), Word(Close)] + rest;
    var more := [Word(LikeWord)] + (b + escape);
    OpensOperand(a, x, more);
    assert Infix(a, LikeWord, b + [Word(EscapeWord), Bind(ESCAPE)]) + rest == [Word(Open)] + (a + more);
    assert more[1..] == b + escape;
    assert escape[..3] == [Word(EscapeWord), Bind(ESCAPE), Word(Close)] && escape[3..] == rest;
  }

  lemma {:induction false} InReads(e: Expr, rest: seq<Piece>)
    requires e.InList? && Pieces(e).Done?
    ensures ReadExpr(Pieces(e).result + rest) == Some((Canon(e), rest))
    decreases e, 1
  {
    hide ReadExpr, ListPieces, Canons, ReadArguments;
    var list := ListPieces(e.vs, Comma, 0).result;
    var close := [Word(Close)] + rest;
    ArgumentsRead(e.vs, close);
    var arguments := [Word(Open)] + (list + ([Word(Close)] + close));
    ReadsBack(e.x, [Word(InWord)] + arguments);
    PiecesStart(e.x);
    InNested(Pieces(e.x).result, list, Canon(e.x), Canons(e.vs, 0), rest);
  }

  lemma InNested(a: seq<Piece>, list: seq<Piece>, x: Expr, vs: seq<Expr>, rest: seq<Piece>)
    requires Starts(a)
    requires var close := [Word(Close)] + rest; var inner := list + ([Word(Close)] + close);
      var more := [Word(InWord)] + ([Word(Open)] + inner);
      ReadArguments(inner) == Some((vs, close)) && ReadExpr(a + more) == Some((x, more))
    ensures ReadExpr(Infix(a, InWord, Wrapped(list)) + rest) == Some((InList(x, vs), rest))
  {
    hide ReadExpr, ReadArguments;
    var close := [Word(Close)] + rest;
    var inner := list + ([Word(Close)] + close);
    var more := [Word(InWord)] + ([Word(Open)] + inner);
    InNesting(a, list, rest);
    OpensOperand(a, x, more);
  }

  lemma InNesting(a: seq<Piece>, list: seq<Piece>, rest: seq<Piece>)
    ensures var close := [Word(Close)] + rest; var inner := list + ([Word(Close)] + close);
      var more := [Word(InWord)] + ([Word(Open)] + inner);
      Infix(a, InWord, Wrapped(list)) + rest == [Word(Open)] + (a + more) &&
      more[1..] == [Word(Open)] + inner && more[2..] == inner && close[1..] == rest
  {
    var close := [Word(Close)] + rest;
    var inner := list + ([Word(Close)] + close);
    assert Wrapped(list) + close == [Word(Open)] + inner;
  }

  lemma {:induction false} CaseReads(e: Expr, rest: seq<Piece>)
    requires e.Case? && Pieces(e).Done?
    ensures ReadExpr(Pieces(e).result + rest) == Some((Canon(e), rest))
    decreases e, 1
  {
    hide ReadExpr, WhenPieces, OptionPieces, CanonWhens, CanonOption, ReadWhens, ReadOption;
    var end := [Word(EndWord), Word(Close)] + rest;
    var last := OptionPieces(e.otherwise, ElseWord).result + end;
    OptionBegins(e.otherwise, ElseWord, end);
    OptionReads(e.otherwise, ElseWord, end);
    WhensRead(e.whens, 0, last);
    CaseNested(WhenPieces(e.whens, 0).result, OptionPieces(e.otherwise, ElseWord).result, CanonWhens(e.whens, 0),
      CanonOption(e.otherwise), rest);
  }

  lemma OptionBegins(x: Option<Expr>, before: Keyword, rest: seq<Piece>)
    requires OptionPieces(x, before).Done? && before != Dot && Follows(rest)
    ensures var ps := OptionPieces(x, before).result + rest;
      Follows(ps) && (x.Some? ==> Begins(ps, before)) && (x.None? ==> ps == rest)
  {
    hide Pieces;
  }

  lemma CaseNested(list: seq<Piece>, last: seq<Piece>, whens: seq<When>, otherwise: Option<Expr>, rest: seq<Piece>)
    requires var end := [Word(EndWord), Word(Close)] + rest;
      ReadWhens(list + (last + end)) == Some((whens, last + end)) &&
      ReadOption(ElseWord, last + end) == Some((otherwise, end))
    ensures ReadExpr(Wrapped([Word(CaseWord)] + list + last + [Word(EndWord)]) + rest) ==
      Some((Case(whens, otherwise), rest))
  {
    hide ReadWhens, ReadOption;
    var end := [Word(EndWord), Word(Close)] + rest;
    var inner := [Word(CaseWord)] + (list + (last + end));
    var ps := [Word(Open)] + inner;
    assert Wrapped([Word(CaseWord)] + list + last + [Word(EndWord)]) + rest == ps;
    assert ps[1..] == inner && inner[1..] == list + (last + end);
    assert end[1..] == [Word(Close)] + rest && end[2..] == rest;
    assert ReadCase(list + (last + end)) == Some((Case(whens, otherwise), rest));
  }

  lemma {:induction false} CallReads(e: Expr, rest: seq<Piece>)
    requires e.Call? && Pieces(e).Done?
    ensures ReadExpr(Pieces(e).result + rest) == Some((Canon(e), rest))
    decreases e, 1
  {
    hide ReadExpr, ListPieces, Canons;
    if !e.f.ConcatAll? {
      ArgumentsRead(e.args, rest);
      CallNested(e.f, ListPieces(e.args, Comma, 0).result, Canons(e.args, 0), rest);
    } else if e.args == [] {
      NothingReads(rest);
      NoList(e.args, ConcatWord);
      assert Pieces(e).result == Wrapped([]);
    } else {
      ChainReads(e.args, ConcatWord, rest);
      assert Pieces(e).result == Wrapped(ListPieces(e.args, ConcatWord, 0).result);
    }
  }

  lemma CallNested(f: Function, list: seq<Piece>, args: seq<Expr>, rest: seq<Piece>)
    requires ReadArguments(list + ([Word(Close)] + rest)) == Some((args, rest))
    ensures ReadExpr([Word(FunctionWord(f))] + Wrapped(list) + rest) == Some((Call(f, args), rest))
  {
    hide ReadArguments;
    var inner := list + ([Word(Close)] + rest);
    var call := [Word(Open)] + inner;
    var ps := [Word(FunctionWord(f))] + call;
    assert [Word(FunctionWord(f))] + Wrapped(list) + rest == ps;
    assert ps[1..] == call && call[1..] == inner;
    assert ReadCall(f, call) == Some((Call(f, args), rest));
  }

  lemma {:induction false} CastReads(e: Expr, rest: seq<Piece>)
    requires e.Cast? && Pieces(e).Done?
    ensures ReadExpr(Pieces(e).result + rest) == Some((Canon(e), rest))
    decreases e, 1
  {
    hide ReadExpr, CastPieces;
    var a := Pieces(e.x).result;
    ReadsBack(e.x, [Word(AsWord), Word(if e.target.Text? then TextWord else DoubleWord), Word(Close)] + rest);
    CastNested(a, e.target, Canon(e.x), rest);
  }

  lemma CastNested(a: seq<Piece>, target: CastType, x: Expr, rest: seq<Piece>)
    requires !target.OtherType?
    requires var more := [Word(AsWord), Word(if target.Text? then TextWord else DoubleWord), Word(Close)] + rest;
      ReadExpr(a + more) == Some((x, more))
    ensures ReadExpr(CastPieces(a, target) + rest) == Some((Cast(x, target), rest))
  {
    var more := [Word(AsWord), Word(if target.Text? then TextWord else DoubleWord), Word(Close)] + rest;
    hide ReadExpr, ReadCast, CastPieces;
    CastNesting(a, target, more, rest);
    CastIsRead([Word(Open)] + (a + more));
    CastArgument(a, target, x, more, rest);
  }

  lemma CastNesting(a: seq<Piece>, target: CastType, more: seq<Piece>, rest: seq<Piece>)
    requires more == [Word(AsWord), Word(if target.Text? then TextWord else DoubleWord), Word(Close)] + rest
    ensures CastPieces(a, target) + rest == [Word(CastWord)] + ([Word(Open)] + (a + more))
  {
  }

  lemma CastIsRead(call: seq<Piece>)
    ensures ReadExpr([Word(CastWord)] + call) == ReadCast(call)
  {
    hide ReadCast;
    assert ([Word(CastWord)] + call)[1..] == call;
  }

  lemma CastArgument(a: seq<Piece>, target: CastType, x: Expr, more: seq<Piece>, rest: seq<Piece>)
    requires !target.OtherType? && ReadExpr(a + more) == Some((x, more))
    requires more == [Word(AsWord), Word(if target.Text? then TextWord else DoubleWord), Word(Close)] + rest
    ensures ReadCast([Word(Open)] + (a + more)) == Some((Cast(x, target), rest))
  {
    hide ReadExpr;
    assert ([Word(Open)] + (a + more))[1..] == a + more && more[3..] == rest;
  }

  lemma {:induction false} ProjectionReads(e: Expr, more: seq<Piece>)
    requires e.Subquery? && !e.kind.OtherKind? && ProjectionPieces(e).Done? && Follows(more)
    ensures ReadProjection(ProjectionPieces(e).result + more) ==
      Some(((e.kind, if e.kind.Scalar? then Canon(e.select) else Foreign), more))
    decreases e, 0
  {
    hide ReadExpr, Pieces, Canon;
    var ps := ProjectionPieces(e).result + more;
    if e.kind.Scalar? {
      ReadsBack(e.select, more);
      PiecesStart(e.select);
      assert ps[0] == Pieces(e.select).result[0];
    } else {
      assert ps[1..] == more;
    }
  }

  /** The pieces after a subquery's SELECT, in the order the reader meets them. */
  function SelectNested(p: seq<Piece>, f: seq<Piece>, c: seq<Piece>, m: seq<Piece>, closing: seq<Piece>): seq<Piece> {
    p + ([Word(FromWord)] + (f + ([Word(WhereWord)] + (c + (m + closing)))))
  }

  lemma SelectParts(p: seq<Piece>, f: seq<Piece>, c: seq<Piece>, m: seq<Piece>, closing: seq<Piece>, x: Expr,
      kind: SubqueryKind, select: Expr, from: seq<FromItem>, where: Option<Expr>)
    requires var condition := c + (m + closing); var tables := f + ([Word(WhereWord)] + condition);
      ReadProjection(p + ([Word(FromWord)] + tables)) == Some(((kind, select), [Word(FromWord)] + tables)) &&
      ReadFrom(tables) == (from, [Word(WhereWord)] + condition) &&
      ReadExpr(condition) == Some((x, m + closing)) &&
      ReadOption(AndWord, m + closing) == Some((where, closing))
    ensures ReadSelect(SelectNested(p, f, c, m, closing)) == Some((Subquery(kind, select, from, x, where), closing))
  {
    hide ReadProjection, ReadExpr, ReadOption, ReadFrom;
    var condition := c + (m + closing);
    var tables := f + ([Word(WhereWord)] + condition);
    assert ([Word(FromWord)] + tables)[1..] == tables && ([Word(WhereWord)] + condition)[1..] == condition;
  }

  lemma {:induction false} SelectReads(e: Expr, closing: seq<Piece>)
    requires e.Subquery? && SelectPieces(e).Done? && Begins(closing, Close)
    ensures ReadSelect(SelectNested(ProjectionPieces(e).result, FromPieces(e.from, 0), Pieces(e.correlate).result,
      OptionPieces(e.where, AndWord).result, closing)) == Some((Canon(e), closing))
    decreases e, 1
  {
    hide ReadExpr, ReadOption, ReadFrom, ReadProjection, ReadSelect, FromPieces, OptionPieces, CanonOption;
    var p, f := ProjectionPieces(e).result, FromPieces(e.from, 0);
    var c, m := Pieces(e.correlate).result, OptionPieces(e.where, AndWord).result;
    OptionReads(e.where, AndWord, closing);
    OptionBegins(e.where, AndWord, closing);
    ReadsBack(e.correlate, m + closing);
    var condition := c + (m + closing);
    FromReads(e.from, 0, [Word(WhereWord)] + condition);
    assert e.from[0..] == e.from;
    var tables := f + ([Word(WhereWord)] + condition);
    ProjectionReads(e, [Word(FromWord)] + tables);
    SelectParts(p, f, c, m, closing, Canon(e.correlate), e.kind, if e.kind.Scalar? then Canon(e.select) else Foreign,
      e.from, CanonOption(e.where));
  }

  lemma SelectIsNested(e: Expr, closing: seq<Piece>)
    requires e.Subquery? && SelectPieces(e).Done?
    ensures ProjectionPieces(e).Done? && Pieces(e.correlate).Done? && OptionPieces(e.where, AndWord).Done?
    ensures SelectPieces(e).result + closing == [Word(SelectWord)] +
      SelectNested(ProjectionPieces(e).result, FromPieces(e.from, 0), Pieces(e.correlate).result,
        OptionPieces(e.where, AndWord).result, closing)
  {
    hide Pieces, FromPieces, OptionPieces;
    var p, f := ProjectionPieces(e).result, FromPieces(e.from, 0);
    var c, m := Pieces(e.correlate).result, OptionPieces(e.where, AndWord).result;
    NestSelect(p, f, c, m, closing);
  }

  lemma NestSelect(p: seq<Piece>, f: seq<Piece>, c: seq<Piece>, m: seq<Piece>, closing: seq<Piece>)
    ensures [Word(SelectWord)] + p + [Word(FromWord)] + f + [Word(WhereWord)] + c + m + closing ==
      [Word(SelectWord)] + SelectNested(p, f, c, m, closing)
  {
  }

  lemma {:induction false} SubqueryReads(e: Expr, rest: seq<Piece>)
    requires e.Subquery? && Pieces(e).Done?
    ensures ReadExpr(Pieces(e).result + rest) == Some((Canon(e), rest))
    decreases e, 2
  {
    hide ReadExpr, SelectPieces, SelectNested, ReadSelect, Canon;
    var body := SelectPieces(e).result;
    var close := [Word(Close)] + rest;
    var closing := if e.kind.Exists? then [Word(Close)] + close else close;
    SelectIsNested(e, closing);
    SelectReads(e, closing);
    var nested := SelectNested(ProjectionPieces(e).result, FromPieces(e.from, 0), Pieces(e.correlate).result,
      OptionPieces(e.where, AndWord).result, closing);
    CanonKind(e);
    if e.kind.Exists? {
      ExistsNested(body, nested, Canon(e), rest);
    } else {
      SelectWrapped(body, nested, Canon(e), rest);
    }
  }

  lemma CanonKind(e: Expr)
    requires e.Subquery?
    ensures Canon(e).Subquery? && Canon(e).kind == e.kind
  {
  }

  lemma SelectWrapped(body: seq<Piece>, nested: seq<Piece>, s: Expr, rest: seq<Piece>)
    requires body + ([Word(Close)] + rest) == [Word(SelectWord)] + nested
    requires s.Subquery? && !s.kind.Exists? && ReadSelect(nested) == Some((s, [Word(Close)] + rest))
    ensures ReadExpr(Wrapped(body) + rest) == Some((s, rest))
  {
    hide ReadSelect;
    var close := [Word(Close)] + rest;
    var inner := [Word(SelectWord)] + nested;
    var ps := [Word(Open)] + inner;
    assert Wrapped(body) + rest == ps;
    assert ps[1..] == inner && inner[1..] == nested && close[1..] == rest;
    assert ReadParenthesised(inner) == Some((s, rest));
  }

  lemma ExistsNested(body: seq<Piece>, nested: seq<Piece>, s: Expr, rest: seq<Piece>)
    requires body + ([Word(Close)] + ([Word(Close)] + rest)) == [Word(SelectWord)] + nested
    requires s.Subquery? && s.kind.Exists? && ReadSelect(nested) == Some((s, [Word(Close)] + ([Word(Close)] + rest)))
    ensures ReadExpr(Wrapped([Word(ExistsWord)] + Wrapped(body)) + rest) == Some((s, rest))
  {
    hide ReadSelect;
    var close := [Word(Close)] + rest;
    var closing := [Word(Close)] + close;
    var inner := [Word(ExistsWord), Word(Open), Word(SelectWord)] + nested;
    var ps := [Word(Open)] + inner;
    assert Wrapped([Word(ExistsWord)] + Wrapped(body)) + rest ==
      [Word(Open), Word(ExistsWord), Word(Open)] + (body + closing) == ps;
    assert ps[1..] == inner && inner[3..] == nested;
    assert closing[1..] == close && closing[2..] == rest;
    assert ReadParenthesised(inner) == Some((s, rest));
  }

  /** Every tree that prints reads back, from its pieces alone, to the one tree of all that print alike. */
  lemma {:induction false} ReadsBack(e: Expr, rest: seq<Piece>)
    requires Pieces(e).Done? && Follows(rest)
    ensures ReadExpr(Pieces(e).result + rest) == Some((Canon(e), rest))
    decreases e, 3
  {
    hide ReadExpr;
    match e
    case Column(_, _) => ColumnReads(e, rest);
    case Lit(_) => LeafReads(e, rest);
    case BoolConst(_) => LeafReads(e, rest);
    case Compare(op, l, r) => OperandsRead(e, l, CompareWord(op), r, rest);
    case Arith(op, l, r) => OperandsRead(e, l, ArithWord(op), r, rest);
    case Concat(l, r) => OperandsRead(e, l, ConcatWord, r, rest);
    case Logic(_, _) => LogicReads(e, rest);
    case Not(_) => NotReads(e, rest);
    case IsNull(_, negate) => TestReads(e, if negate then IsNotNullWord else IsNullWord, rest);
    case TruthTest(_, want) =>
      TestReads(e, if want.IsTrue? then IsTrueWord else if want.IsFalse? then IsFalseWord else IsNullWord, rest);
    case Like(_, _) => LikeReads(e, rest);
    case NotDistinct(l, r) => OperandsRead(e, l, NotDistinctWord, r, rest);
    case InList(_, _) => InReads(e, rest);
    case Case(_, _) => CaseReads(e, rest);
    case Call(_, _) => CallReads(e, rest);
    case Cast(_, _) => CastReads(e, rest);
    case Subquery(_, _, _, _, _) => SubqueryReads(e, rest);
    case Foreign => assert false;
  }
}
