/** What the rendered text and arguments determine: the tree, the numbering, and nothing of the values. */
module RenderText {
  import opened Wrappers
  import opened Texts
  import opened SqlTrees
  import opened RenderReadBack
  import opened RenderLexing

  // ----- every tree prints pieces that do not run together -----

  lemma {:induction false} LexicalAppend(a: seq<Piece>, b: seq<Piece>)
    requires Lexical(a) && Lexical(b)
    requires a == [] || b == [] || a[|a| - 1].Word? || Separates(b[0])
    ensures Lexical(a + b)
    decreases |a|
  {
    hide PrintablePiece, Separates;
    if a == [] {
      assert a + b == b;
    } else {
      LexicalAppend(a[1..], b);
      assert (a + b)[1..] == a[1..] + b;
      assert |a| > 1 ==> (a + b)[1] == a[1];
      assert |a| == 1 ==> a[1..] + b == b;
    }
  }

  lemma LexicalBefore(w: Keyword, a: seq<Piece>)
    requires Printable(w) && Lexical(a)
    ensures Lexical([Word(w)] + a)
  {
    assert [Word(w)][1..] == [];
    LexicalAppend([Word(w)], a);
  }

  lemma LexicalBetween(a: seq<Piece>, w: Keyword, b: seq<Piece>)
    requires Lexical(a) && Printable(w) && w != OneWord && Lexical(b)
    ensures Lexical(a + [Word(w)] + b)
  {
    LexicalBefore(w, b);
    LexicalAppend(a, [Word(w)] + b);
    assert a + [Word(w)] + b == a + ([Word(w)] + b);
  }

  lemma LexicalAfter(a: seq<Piece>, w: Keyword)
    requires Lexical(a) && Printable(w) && w != OneWord
    ensures Lexical(a + [Word(w)])
  {
    LexicalBetween(a, w, []);
    assert a + [Word(w)] + [] == a + [Word(w)];
  }

  lemma LexicalWrapped(a: seq<Piece>)
    requires Lexical(a)
    ensures Lexical(Wrapped(a))
  {
    LexicalBefore(Open, a);
    LexicalAfter([Word(Open)] + a, Close);
  }

  lemma LexicalInfix(a: seq<Piece>, w: Keyword, b: seq<Piece>)
    requires Lexical(a) && Printable(w) && w != OneWord && Lexical(b)
    ensures Lexical(Infix(a, w, b))
  {
    LexicalBetween(a, w, b);
    LexicalWrapped(a + [Word(w)] + b);
    assert Infix(a, w, b) == Wrapped(a + [Word(w)] + b);
  }

  lemma LexicalPostfix(a: seq<Piece>, test: Keyword)
    requires Lexical(a) && Printable(test) && test != OneWord
    ensures Lexical(Postfix(a, test))
  {
    LexicalAfter(a, test);
    LexicalWrapped(a + [Word(test)]);
    assert Postfix(a, test) == Wrapped(a + [Word(test)]);
  }

  lemma LexicalLike(a: seq<Piece>, b: seq<Piece>)
    requires Lexical(a) && Lexical(b)
    ensures Lexical(Infix(a, LikeWord, b + [Word(EscapeWord), Bind(ESCAPE)]))
  {
    assert [Bind(ESCAPE)][1..] == [];
    LexicalBetween(b, EscapeWord, [Bind(ESCAPE)]);
    assert b + [Word(EscapeWord)] + [Bind(ESCAPE)] == b + [Word(EscapeWord), Bind(ESCAPE)];
    LexicalInfix(a, LikeWord, b + [Word(EscapeWord), Bind(ESCAPE)]);
  }

  lemma LexicalCast(a: seq<Piece>, target: CastType)
    requires Lexical(a)
    ensures Lexical(CastPieces(a, target))
  {
    var w := if target.Text? then TextWord else DoubleWord;
    LexicalAfter(a, AsWord);
    LexicalAfter(a + [Word(AsWord)], w);
    assert a + [Word(AsWord)] + [Word(w)] == a + [Word(AsWord), Word(w)];
    LexicalWrapped(a + [Word(AsWord), Word(w)]);
    LexicalBefore(CastWord, Wrapped(a + [Word(AsWord), Word(w)]));
  }

  lemma LexicalColumn(e: Expr)
    requires e.Column?
    ensures Lexical(Pieces(e).result)
  {
    var name := [Name(e.name)];
    assert name[1..] == [];
    if e.qualifier != "" {
      assert [Name(e.qualifier)][1..] == [];
      LexicalBetween([Name(e.qualifier)], Dot, name);
      assert [Name(e.qualifier)] + [Word(Dot)] + name == [Name(e.qualifier), Word(Dot)] + name;
    } else {
      assert [] + name == name;
    }
  }

  lemma LexicalLeaf(e: Expr)
    requires e.Lit? || e.BoolConst?
    ensures Lexical(Pieces(e).result)
  {
    assert Pieces(e).result[1..] == [];
  }

  lemma {:induction false} LexicalFrom(from: seq<FromItem>, i: nat)
    requires i <= |from|
    ensures Lexical(FromPieces(from, i))
    ensures FromPieces(from, i) != [] ==> i < |from| && (i > 0 ==> FromPieces(from, i)[0] == Word(Comma))
    decreases |from| - i
  {
    if i < |from| {
      LexicalFrom(from, i + 1);
      var table, alias := [Name(from[i].table)], [Name(from[i].alias)];
      assert table[1..] == [] && alias[1..] == [];
      LexicalBetween(table, AsWord, alias);
      var item := table + [Word(AsWord)] + alias;
      LexicalAppend(item, FromPieces(from, i + 1));
      var tail := item + FromPieces(from, i + 1);
      LexicalBefore(Comma, tail);
      FromItemFirst(from, i, tail);
    }
  }

  lemma FromItemFirst(from: seq<FromItem>, i: nat, tail: seq<Piece>)
    requires i < |from|
    requires tail == [Name(from[i].table)] + [Word(AsWord)] + [Name(from[i].alias)] + FromPieces(from, i + 1)
    ensures FromPieces(from, i) == if i > 0 then [Word(Comma)] + tail else tail
  {
  }

  lemma {:induction false} LexicalList(xs: seq<Expr>, separator: Keyword, i: nat)
    requires i <= |xs| && ListPieces(xs, separator, i).Done? && Printable(separator) && separator != OneWord
    ensures Lexical(ListPieces(xs, separator, i).result)
    ensures var ps := ListPieces(xs, separator, i).result; i > 0 && ps != [] ==> Separates(ps[0])
    decreases xs, |xs| - i
  {
    hide Pieces, Lexical;
    if i == |xs| {
      NoPieces();
    } else {
      LexicalList(xs, separator, i + 1);
      PiecesLexical(xs[i]);
      var first, rest := Pieces(xs[i]).result, ListPieces(xs, separator, i + 1).result;
      LexicalAppend(first, rest);
      LexicalBefore(separator, first + rest);
      assert [Word(separator)] + first + rest == [Word(separator)] + (first + rest);
      assert [] + first + rest == first + rest;
    }
  }

  lemma NoPieces()
    ensures Lexical([])
  {
  }

  lemma {:induction false} LexicalWhens(whens: seq<When>, i: nat)
    requires i <= |whens| && WhenPieces(whens, i).Done?
    ensures Lexical(WhenPieces(whens, i).result)
    ensures var ps := WhenPieces(whens, i).result; ps != [] ==> Separates(ps[0])
    decreases whens, |whens| - i
  {
    hide ArmPieces, Lexical;
    if i == |whens| {
      NoPieces();
    } else {
      LexicalWhens(whens, i + 1);
      LexicalArm(whens[i]);
      LexicalAppend(ArmPieces(whens[i]).result, WhenPieces(whens, i + 1).result);
    }
  }

  lemma {:induction false} LexicalArm(arm: When)
    requires ArmPieces(arm).Done?
    ensures var ps := ArmPieces(arm).result; Lexical(ps) && ps != [] && Separates(ps[0])
    decreases arm, 0
  {
    hide Pieces, Lexical;
    PiecesLexical(arm.cond);
    PiecesLexical(arm.result);
    var a, b := Pieces(arm.cond).result, Pieces(arm.result).result;
    LexicalBetween(a, ThenWord, b);
    LexicalBefore(WhenWord, a + [Word(ThenWord)] + b);
    assert [Word(WhenWord)] + (a + [Word(ThenWord)] + b) == [Word(WhenWord)] + a + [Word(ThenWord)] + b;
  }

  lemma {:induction false} LexicalOption(x: Option<Expr>, before: Keyword)
    requires OptionPieces(x, before).Done? && Printable(before) && before != OneWord
    ensures var ps := OptionPieces(x, before).result; Lexical(ps) && (ps != [] ==> Separates(ps[0]))
    decreases x, 0
  {
    hide Pieces, Lexical;
    if x.None? {
      NoPieces();
    } else {
      PiecesLexical(x.value);
      LexicalBefore(before, Pieces(x.value).result);
    }
  }

  lemma {:induction false} LexicalCase(e: Expr)
    requires e.Case? && Pieces(e).Done?
    ensures Lexical(Pieces(e).result)
    decreases e, 0
  {
    hide Lexical, WhenPieces, OptionPieces;
    LexicalWhens(e.whens, 0);
    LexicalOption(e.otherwise, ElseWord);
    var list, last := WhenPieces(e.whens, 0).result, OptionPieces(e.otherwise, ElseWord).result;
    LexicalBefore(CaseWord, list);
    LexicalAppend([Word(CaseWord)] + list, last);
    LexicalAfter([Word(CaseWord)] + list + last, EndWord);
    LexicalWrapped([Word(CaseWord)] + list + last + [Word(EndWord)]);
  }

  lemma {:induction false} LexicalSelect(e: Expr)
    requires e.Subquery? && SelectPieces(e).Done?
    ensures Lexical(SelectPieces(e).result)
    decreases e, 0
  {
    hide Lexical, Pieces, OptionPieces, FromPieces, SelectNested;
    SelectIsNested(e, []);
    var p, f := ProjectionPieces(e).result, FromPieces(e.from, 0);
    var c, m := Pieces(e.correlate).result, OptionPieces(e.where, AndWord).result;
    if e.kind.Scalar? {
      PiecesLexical(e.select);
    } else {
      OneWordLexical(p);
    }
    LexicalBefore(SelectWord, p);
    LexicalFrom(e.from, 0);
    LexicalBetween([Word(SelectWord)] + p, FromWord, f);
    PiecesLexical(e.correlate);
    LexicalBetween([Word(SelectWord)] + p + [Word(FromWord)] + f, WhereWord, c);
    LexicalOption(e.where, AndWord);
    LexicalAppend([Word(SelectWord)] + p + [Word(FromWord)] + f + [Word(WhereWord)] + c, m);
  }

  lemma OneWordLexical(p: seq<Piece>)
    requires p == [Word(OneWord)] || p == [Word(CountWord)]
    ensures Lexical(p)
  {
    assert p[1..] == [];
  }

  lemma {:induction false} LexicalCall(e: Expr)
    requires e.Call? && Pieces(e).Done?
    ensures Lexical(Pieces(e).result)
    decreases e, 0
  {
    hide Lexical, ListPieces;
    var separator := if e.f.ConcatAll? then ConcatWord else Comma;
    var list := ListPieces(e.args, separator, 0).result;
    LexicalList(e.args, separator, 0);
    LexicalWrapped(list);
    if e.f.ConcatAll? {
      assert [] + Wrapped(list) == Wrapped(list);
    } else {
      LexicalBefore(FunctionWord(e.f), Wrapped(list));
    }
  }

  lemma {:induction false} LexicalSubquery(e: Expr)
    requires e.Subquery? && Pieces(e).Done?
    ensures Lexical(Pieces(e).result)
    decreases e, 1
  {
    hide Lexical, SelectPieces;
    var body := SelectPieces(e).result;
    LexicalSelect(e);
    LexicalWrapped(body);
    if e.kind.Exists? {
      LexicalBefore(ExistsWord, Wrapped(body));
      LexicalWrapped([Word(ExistsWord)] + Wrapped(body));
    }
  }

  lemma {:induction false} PiecesLexical(e: Expr)
    requires Pieces(e).Done?
    ensures Lexical(Pieces(e).result)
    decreases e, 2
  {
    hide Lexical, ListPieces, SelectPieces, CastPieces;
    match e
    case Column(_, _) => LexicalColumn(e);
    case Lit(_) => LexicalLeaf(e);
    case BoolConst(_) => LexicalLeaf(e);
    case Compare(op, l, r) =>
      PiecesLexical(l);
      PiecesLexical(r);
      LexicalInfix(Pieces(l).result, CompareWord(op), Pieces(r).result);
    case Arith(op, l, r) =>
      PiecesLexical(l);
      PiecesLexical(r);
      LexicalInfix(Pieces(l).result, ArithWord(op), Pieces(r).result);
    case Concat(l, r) =>
      PiecesLexical(l);
      PiecesLexical(r);
      LexicalInfix(Pieces(l).result, ConcatWord, Pieces(r).result);
    case Logic(xs, and) =>
      LexicalList(xs, if and then AndWord else OrWord, 0);
      LexicalWrapped(ListPieces(xs, if and then AndWord else OrWord, 0).result);
    case Not(x) =>
      PiecesLexical(x);
      LexicalBefore(NotWord, Pieces(x).result);
      LexicalWrapped([Word(NotWord)] + Pieces(x).result);
    case IsNull(x, negate) =>
      PiecesLexical(x);
      LexicalPostfix(Pieces(x).result, if negate then IsNotNullWord else IsNullWord);
    case TruthTest(x, want) =>
      PiecesLexical(x);
      LexicalPostfix(Pieces(x).result,
        if want.IsTrue? then IsTrueWord else if want.IsFalse? then IsFalseWord else IsNullWord);
    case Like(receiver, pattern) =>
      PiecesLexical(receiver);
      PiecesLexical(pattern);
      LexicalLike(Pieces(receiver).result, Pieces(pattern).result);
    case NotDistinct(l, r) =>
      PiecesLexical(l);
      PiecesLexical(r);
      LexicalInfix(Pieces(l).result, NotDistinctWord, Pieces(r).result);
    case InList(x, vs) =>
      PiecesLexical(x);
      LexicalList(vs, Comma, 0);
      LexicalWrapped(ListPieces(vs, Comma, 0).result);
      LexicalInfix(Pieces(x).result, InWord, Wrapped(ListPieces(vs, Comma, 0).result));
    case Case(_, _) => LexicalCase(e);
    case Call(_, _) => LexicalCall(e);
    case Cast(x, target) =>
      PiecesLexical(x);
      LexicalCast(Pieces(x).result, target);
    case Subquery(_, _, _, _, _) => LexicalSubquery(e);
    case Foreign => assert false;
  }

  // ----- reading the text back -----

  /** The tree that a text and its arguments spell. */
  function ReadText(text: string, args: seq<Arg>, offset: int): Option<Expr> {
    var read := ReadExpr(Decode(text, args, offset));
    if read.None? || read.value.1 != [] then None else Some(read.value.0)
  }

  /**
    Every tree that renders reads back from its text and bound arguments alone, up to the trees that print
    alike: no plan value and no identifier can change how the rest of the text is read.
   */
  lemma TextReadsBack(e: Expr, offset: int)
    requires Rendered(e, offset).Done?
    ensures var (text, args) := Rendered(e, offset).result; ReadText(text, args, offset) == Some(Canon(e))
  {
    hide Lexical, ReadExpr, Decode, Spelled, Bound, Pieces, Canon;
    var ps := Pieces(e).result;
    PiecesLexical(e);
    Decodes(ps, [], offset);
    assert [] + Bound(ps) == Bound(ps);
    ReadsBack(e, []);
    assert ps + [] == ps;
  }

  // ----- trees that print alike -----

  lemma {:induction false} CanonsAt(xs: seq<Expr>, i: nat, j: nat)
    requires i <= j < |xs|
    ensures Canons(xs, i)[j - i] == Canon(xs[j])
    decreases j - i
  {
    if i < j {
      CanonsAt(xs, i + 1, j);
    }
  }

  lemma {:induction false} CanonListPrints(xs: seq<Expr>, separator: Keyword, i: nat)
    requires i <= |xs| && ListPieces(xs, separator, i).Done?
    ensures ListPieces(Canons(xs, 0), separator, i) == ListPieces(xs, separator, i)
    decreases xs, |xs| - i
  {
    hide Pieces, Canon, Canons;
    if i < |xs| {
      CanonsAt(xs, 0, i);
      CanonPrints(xs[i]);
      CanonListPrints(xs, separator, i + 1);
    }
  }

  /** A list of at most one element shows no separator. */
  lemma ShortList(xs: seq<Expr>, a: Keyword, b: Keyword)
    requires |xs| <= 1
    ensures ListPieces(xs, a, 0) == ListPieces(xs, b, 0)
  {
    hide Pieces;
    if |xs| == 1 {
      assert ListPieces(xs, a, 1) == ListPieces(xs, b, 1);
    }
  }

  lemma {:induction false} CanonWhensAt(whens: seq<When>, i: nat, j: nat)
    requires i <= j < |whens|
    ensures |CanonWhens(whens, i)| == |whens| - i && CanonWhens(whens, i)[j - i] == CanonArm(whens[j])
    decreases |whens| - i
  {
    hide CanonArm;
    if i + 1 < |whens| {
      CanonWhensAt(whens, i + 1, if i < j then j else i + 1);
    }
  }

  lemma {:induction false} CanonWhensPrint(whens: seq<When>, i: nat)
    requires i <= |whens| && WhenPieces(whens, i).Done?
    requires |CanonWhens(whens, 0)| == |whens|
    ensures WhenPieces(CanonWhens(whens, 0), i) == WhenPieces(whens, i)
    decreases whens, |whens| - i
  {
    hide ArmPieces, CanonArm, CanonWhens;
    if i < |whens| {
      CanonWhensAt(whens, 0, i);
      CanonArmPrints(whens[i]);
      CanonWhensPrint(whens, i + 1);
    }
  }

  lemma {:induction false} CanonArmPrints(arm: When)
    requires ArmPieces(arm).Done?
    ensures ArmPieces(CanonArm(arm)) == ArmPieces(arm)
    decreases arm, 0
  {
    hide Pieces, Canon;
    CanonPrints(arm.cond);
    CanonPrints(arm.result);
  }

  lemma {:induction false} CanonOptionPrints(x: Option<Expr>, before: Keyword)
    requires OptionPieces(x, before).Done?
    ensures OptionPieces(CanonOption(x), before) == OptionPieces(x, before)
    decreases x, 0
  {
    hide Pieces, Canon;
    if x.Some? {
      CanonPrints(x.value);
    }
  }

  lemma {:induction false} CanonCasePrints(e: Expr)
    requires e.Case? && Pieces(e).Done?
    ensures Pieces(Canon(e)) == Pieces(e)
    decreases e, 0
  {
    hide WhenPieces, OptionPieces, CanonWhens, CanonOption;
    CanonWhensLength(e.whens, 0);
    CanonWhensPrint(e.whens, 0);
    CanonOptionPrints(e.otherwise, ElseWord);
  }

  lemma {:induction false} CanonWhensLength(whens: seq<When>, i: nat)
    requires i <= |whens|
    ensures |CanonWhens(whens, i)| == |whens| - i
    decreases |whens| - i
  {
    hide CanonArm;
    if i < |whens| {
      CanonWhensLength(whens, i + 1);
    }
  }

  lemma {:induction false} CanonSubqueryPrints(e: Expr)
    requires e.Subquery? && Pieces(e).Done?
    ensures Pieces(Canon(e)) == Pieces(e)
    decreases e, 0
  {
    hide OptionPieces, CanonOption, FromPieces, ListPieces, WhenPieces;
    assert SelectPieces(e).Done? && ProjectionPieces(e).Done?;
    if e.kind.Scalar? {
      CanonPrints(e.select);
    }
    CanonPrints(e.correlate);
    CanonOptionPrints(e.where, AndWord);
    assert SelectPieces(Canon(e)) == SelectPieces(e);
  }

  lemma {:induction false} CanonChainPrints(e: Expr)
    requires (e.Logic? || e.Call?) && Pieces(e).Done?
    ensures Pieces(Canon(e)) == Pieces(e)
    decreases e, 0
  {
    hide ListPieces, Canons;
    var xs := if e.Logic? then e.xs else e.args;
    var separator :=
      if e.Logic? then (if e.and then AndWord else OrWord) else if e.f.ConcatAll? then ConcatWord else Comma;
    CanonListPrints(xs, separator, 0);
    if |xs| <= 1 {
      ShortList(Canons(xs, 0), separator, AndWord);
    }
    var list := ListPieces(xs, separator, 0).result;
    assert [] + Wrapped(list) == Wrapped(list);
  }

  /** The tree read back prints the same. */
  lemma {:induction false} CanonPrints(e: Expr)
    requires Pieces(e).Done?
    ensures Pieces(Canon(e)) == Pieces(e)
    decreases e, 1
  {
    hide ListPieces, SelectPieces, WhenPieces, OptionPieces, Canons, CanonWhens, CanonOption;
    match e
    case Compare(_, l, r) =>
      CanonPrints(l);
      CanonPrints(r);
    case Arith(_, l, r) =>
      CanonPrints(l);
      CanonPrints(r);
    case Concat(l, r) =>
      CanonPrints(l);
      CanonPrints(r);
      PairPrints(Canon(l), Canon(r));
    case Not(x) => CanonPrints(x);
    case IsNull(x, _) => CanonPrints(x);
    case TruthTest(x, _) => CanonPrints(x);
    case Like(receiver, pattern) =>
      CanonPrints(receiver);
      CanonPrints(pattern);
    case NotDistinct(l, r) =>
      CanonPrints(l);
      CanonPrints(r);
    case InList(x, vs) =>
      CanonPrints(x);
      CanonListPrints(vs, Comma, 0);
    case Cast(x, _) => CanonPrints(x);
    case Logic(_, _) => CanonChainPrints(e);
    case Call(_, _) => CanonChainPrints(e);
    case Case(_, _) => CanonCasePrints(e);
    case Subquery(_, _, _, _, _) => CanonSubqueryPrints(e);
    case Column(_, _) =>
    case Lit(_) =>
    case BoolConst(_) =>
    case Foreign =>
  }

  /** `Concat` prints as the two-argument call. */
  lemma PairPrints(l: Expr, r: Expr)
    requires Pieces(l).Done? && Pieces(r).Done?
    ensures Pieces(Call(ConcatAll, [l, r])) == Done(Infix(Pieces(l).result, ConcatWord, Pieces(r).result))
  {
    hide ListPieces, Infix, Wrapped;
    PairList(l, r);
    PairNested(Pieces(l).result, Pieces(r).result);
  }

  lemma PairNested(a: seq<Piece>, b: seq<Piece>)
    ensures [] + Wrapped([] + a + ([Word(ConcatWord)] + b + [])) == Infix(a, ConcatWord, b)
  {
  }

  lemma PairList(l: Expr, r: Expr)
    requires Pieces(l).Done? && Pieces(r).Done?
    ensures ListPieces([l, r], ConcatWord, 0) ==
      Done([] + Pieces(l).result + ([Word(ConcatWord)] + Pieces(r).result + []))
  {
    hide Pieces;
    assert ListPieces([l, r], ConcatWord, 2) == Done([]);
    assert ListPieces([l, r], ConcatWord, 1) == Done([Word(ConcatWord)] + Pieces(r).result + []);
  }

  /** Two trees render to the same text and arguments exactly when they are the same up to printing alike. */
  lemma RenderDecidesTree(a: Expr, b: Expr, offset: int)
    requires Rendered(a, offset).Done? && Rendered(b, offset).Done?
    ensures Rendered(a, offset) == Rendered(b, offset) <==> Canon(a) == Canon(b)
  {
    hide ReadText, Canon, Pieces, Spelled, Bound;
    TextReadsBack(a, offset);
    TextReadsBack(b, offset);
    CanonPrints(a);
    CanonPrints(b);
  }

  // ----- what is refused -----

  /** Every node of the tree is one the renderer has a spelling for. */
  predicate Renderable(e: Expr)
    decreases e, 0
  {
    match e
    case Column(_, _) => true
    case Lit(_) => true
    case BoolConst(_) => true
    case Compare(op, l, r) => !op.OtherComparison? && Renderable(l) && Renderable(r)
    case Arith(op, l, r) => !op.OtherArithmetic? && Renderable(l) && Renderable(r)
    case Concat(l, r) => Renderable(l) && Renderable(r)
    case Logic(xs, _) => forall i | 0 <= i < |xs| :: Renderable(xs[i])
    case Not(x) => Renderable(x)
    case IsNull(x, _) => Renderable(x)
    case TruthTest(x, want) => !want.OtherTruth? && Renderable(x)
    case Like(receiver, pattern) => Renderable(receiver) && Renderable(pattern)
    case NotDistinct(l, r) => Renderable(l) && Renderable(r)
    case InList(x, vs) => Renderable(x) && forall i | 0 <= i < |vs| :: Renderable(vs[i])
    case Case(whens, otherwise) =>
      (forall i | 0 <= i < |whens| :: RenderableArm(whens[i])) && (otherwise.Some? ==> Renderable(otherwise.value))
    case Call(f, args) => !f.OtherFunction? && forall i | 0 <= i < |args| :: Renderable(args[i])
    case Cast(x, target) => !target.OtherType? && Renderable(x)
    case Subquery(kind, select, _, correlate, where) =>
      !kind.OtherKind? && (kind.Scalar? ==> Renderable(select)) && Renderable(correlate) &&
      (where.Some? ==> Renderable(where.value))
    case Foreign => false
  }

  predicate RenderableArm(arm: When)
    decreases arm, 0
  {
    Renderable(arm.cond) && Renderable(arm.result)
  }

  lemma {:induction false} ListRefuses(xs: seq<Expr>, separator: Keyword, i: nat)
    requires i <= |xs|
    ensures ListPieces(xs, separator, i).Done? <==> forall j | i <= j < |xs| :: Renderable(xs[j])
    decreases xs, |xs| - i
  {
    hide Pieces, Renderable;
    if i < |xs| {
      RefusesExactly(xs[i]);
      ListRefuses(xs, separator, i + 1);
    }
  }

  lemma {:induction false} WhensRefuse(whens: seq<When>, i: nat)
    requires i <= |whens|
    ensures WhenPieces(whens, i).Done? <==> forall j | i <= j < |whens| :: RenderableArm(whens[j])
    decreases whens, |whens| - i
  {
    hide ArmPieces, RenderableArm;
    if i < |whens| {
      ArmRefuses(whens[i]);
      WhensRefuse(whens, i + 1);
    }
  }

  lemma {:induction false} ArmRefuses(arm: When)
    ensures ArmPieces(arm).Done? <==> RenderableArm(arm)
    decreases arm, 0
  {
    hide Pieces, Renderable;
    RefusesExactly(arm.cond);
    RefusesExactly(arm.result);
  }

  lemma {:induction false} OptionRefuses(x: Option<Expr>, before: Keyword)
    ensures OptionPieces(x, before).Done? <==> (x.Some? ==> Renderable(x.value))
    decreases x, 0
  {
    hide Pieces, Renderable;
    if x.Some? {
      RefusesExactly(x.value);
    }
  }

  predicate TwoOperands(e: Expr) {
    e.Compare? || e.Arith? || e.Concat? || e.NotDistinct? || e.Like?
  }

  lemma {:induction false} OperandsRefuse(e: Expr)
    requires TwoOperands(e)
    ensures Pieces(e).Done? <==> Renderable(e)
    decreases e, 0
  {
    hide ListPieces, WhenPieces, OptionPieces, SelectPieces, Infix;
    if e.Like? {
      RefusesExactly(e.receiver);
      RefusesExactly(e.pattern);
    } else {
      RefusesExactly(e.l);
      RefusesExactly(e.r);
    }
  }

  /** A refusal anywhere below a node reaches the caller, and nothing else is refused. */
  lemma {:induction false} RefusesExactly(e: Expr)
    ensures Pieces(e).Done? <==> Renderable(e)
    decreases e, 1
  {
    hide ListPieces, WhenPieces, OptionPieces, FromPieces, SelectPieces, Infix, Postfix, Wrapped, CastPieces;
    if TwoOperands(e) {
      OperandsRefuse(e);
    } else if e.Subquery? {
      SubqueryRefuses(e);
    } else if e.Not? || e.IsNull? || e.TruthTest? || e.Cast? {
      RefusesExactly(e.x);
    } else if e.InList? {
      RefusesExactly(e.x);
      ListRefuses(e.vs, Comma, 0);
    } else if e.Logic? {
      ListRefuses(e.xs, if e.and then AndWord else OrWord, 0);
    } else if e.Call? {
      ListRefuses(e.args, if e.f.ConcatAll? then ConcatWord else Comma, 0);
    } else if e.Case? {
      WhensRefuse(e.whens, 0);
      OptionRefuses(e.otherwise, ElseWord);
    }
  }

  lemma {:induction false} SubqueryRefuses(e: Expr)
    requires e.Subquery?
    ensures Pieces(e).Done? <==> Renderable(e)
    decreases e, 0
  {
    hide ListPieces, WhenPieces, OptionPieces, FromPieces;
    RefusesExactly(e.select);
    RefusesExactly(e.correlate);
    OptionRefuses(e.where, AndWord);
    assert ProjectionPieces(e).Done? <==> (e.kind.Scalar? ==> Renderable(e.select));
    assert Pieces(e).Done? <==> SelectPieces(e).Done?;
  }

  // ----- placeholders -----

  /** The output with the placeholder numbers told apart from the text between them. */
  datatype Token = Fixed(text: string) | Slot(n: int)

  /** The tokens of the pieces, in order; a parameter states its type after its number. */
  function Tokens(ps: seq<Piece>, offset: int): seq<Token> {
    if ps == [] then []
    else
      var last := ps[|ps| - 1];
      Tokens(ps[..|ps| - 1], offset) +
      if last.Bind? then [Slot(offset + |Bound(ps)|), Fixed(TypeSuffix(last.arg))] else [Fixed(TextOf(last, 0))]
  }

  function TokenText(t: Token): string {
    match t
    case Fixed(text) => text
    case Slot(n) => ['$'] + IntText(n)
  }

  function Flat(ts: seq<Token>): string {
    if ts == [] then [] else Flat(ts[..|ts| - 1]) + TokenText(ts[|ts| - 1])
  }

  function Slots(ts: seq<Token>): seq<int> {
    if ts == [] then []
    else
      var last := ts[|ts| - 1];
      Slots(ts[..|ts| - 1]) + if last.Slot? then [last.n] else []
  }

  function Shifted(ts: seq<Token>, shift: int): seq<Token> {
    if ts == [] then []
    else
      var last := ts[|ts| - 1];
      Shifted(ts[..|ts| - 1], shift) + [if last.Slot? then Slot(last.n + shift) else last]
  }

  lemma LastFlat(ts: seq<Token>, t: Token)
    ensures Flat(ts + [t]) == Flat(ts) + TokenText(t)
  {
    hide TokenText;
    assert (ts + [t])[..|ts|] == ts;
  }

  lemma LastSlots(ts: seq<Token>, t: Token)
    ensures Slots(ts + [t]) == Slots(ts) + if t.Slot? then [t.n] else []
  {
    assert (ts + [t])[..|ts|] == ts;
  }

  lemma LastShifted(ts: seq<Token>, t: Token, shift: int)
    ensures Shifted(ts + [t], shift) == Shifted(ts, shift) + [if t.Slot? then Slot(t.n + shift) else t]
  {
    assert (ts + [t])[..|ts|] == ts;
  }

  lemma LastToken(ts: seq<Token>, t: Token, shift: int)
    ensures Flat(ts + [t]) == Flat(ts) + TokenText(t)
    ensures Slots(ts + [t]) == Slots(ts) + if t.Slot? then [t.n] else []
    ensures Shifted(ts + [t], shift) == Shifted(ts, shift) + [if t.Slot? then Slot(t.n + shift) else t]
  {
    hide *;
    LastFlat(ts, t);
    LastSlots(ts, t);
    LastShifted(ts, t, shift);
  }

  lemma LastPiece(ps: seq<Piece>, offset: int, shift: int)
    requires ps != []
    ensures var front, last := Tokens(ps[..|ps| - 1], offset), ps[|ps| - 1];
      if last.Bind? then
        (var n := offset + |Bound(ps)|;
         Flat(Tokens(ps, offset)) == Flat(front) + Placeholder(n, last.arg) &&
         Slots(Tokens(ps, offset)) == Slots(front) + [n] &&
         Shifted(Tokens(ps, offset), shift) == Shifted(front, shift) + [Slot(n + shift), Fixed(TypeSuffix(last.arg))])
      else
        (Flat(Tokens(ps, offset)) == Flat(front) + TextOf(last, 0) && Slots(Tokens(ps, offset)) == Slots(front) &&
         Shifted(Tokens(ps, offset), shift) == Shifted(front, shift) + [Fixed(TextOf(last, 0))])
  {
    hide Flat, Slots, Shifted, TypeSuffix, Spelling, QuoteIdent, IntText, Bound;
    var front, last := Tokens(ps[..|ps| - 1], offset), ps[|ps| - 1];
    if last.Bind? {
      var slot, suffix := Slot(offset + |Bound(ps)|), Fixed(TypeSuffix(last.arg));
      LastToken(front, slot, shift);
      LastToken(front + [slot], suffix, shift);
      assert front + [slot] + [suffix] == front + [slot, suffix];
      var moved := Slot(slot.n + shift);
      assert Shifted(front, shift) + [moved] + [suffix] == Shifted(front, shift) + [moved, suffix];
    } else {
      LastToken(front, Fixed(TextOf(last, 0)), shift);
    }
  }

  /**
    Placeholders appear once each and in order, from `offset + 1` to `offset` plus the number of arguments,
    and the text at an offset is the text at 0 with every placeholder shifted.
   */
  lemma {:induction false} PlaceholdersCount(ps: seq<Piece>, offset: int)
    ensures Spelled(ps, offset) == Flat(Tokens(ps, offset))
    ensures |Slots(Tokens(ps, offset))| == |Bound(ps)|
    ensures forall i | 0 <= i < |Bound(ps)| :: Slots(Tokens(ps, offset))[i] == offset + 1 + i
    ensures Tokens(ps, offset) == Shifted(Tokens(ps, 0), offset)
    decreases |ps|
  {
    hide Flat, Slots, Shifted, TypeSuffix, Spelling, QuoteIdent, Placeholder;
    if ps == [] {
      NoTokens(offset);
    } else {
      PlaceholdersCount(ps[..|ps| - 1], offset);
      LastPiece(ps, offset, offset);
      LastPiece(ps, 0, offset);
    }
  }

  lemma NoTokens(shift: int)
    ensures Flat([]) == [] && Slots([]) == [] && Shifted([], shift) == []
  {
  }

  // ----- values -----

  /** A value of the same type, the same for every value of it. */
  function Typical(v: Arg): Arg {
    match v
    case BoolArg(_) => BoolArg(false)
    case FloatArg(_) => FloatArg(0)
    case IntArg(_) => IntArg(0)
    case TimeArg(_) => TimeArg(0)
    case TextArg(_) => TextArg("")
    case OtherArg(_) => OtherArg(0)
  }

  function WithoutValues(ps: seq<Piece>): (r: seq<Piece>)
    ensures |r| == |ps|
  {
    if ps == [] then []
    else
      var last := ps[|ps| - 1];
      WithoutValues(ps[..|ps| - 1]) + [WithoutValue(last)]
  }

  lemma TypicalPlaceholder(n: int, v: Arg)
    ensures Placeholder(n, Typical(v)) == Placeholder(n, v)
  {
  }

  function WithoutValue(p: Piece): Piece {
    if p.Bind? then Bind(Typical(p.arg)) else p
  }

  lemma LastWithoutValue(ps: seq<Piece>)
    requires ps != []
    ensures var masked, front := WithoutValues(ps), ps[..|ps| - 1];
      masked[..|ps| - 1] == WithoutValues(front) && masked[|ps| - 1] == WithoutValue(ps[|ps| - 1])
  {
    hide Typical;
  }

  /** One piece after others that are spelled and bind alike. */
  lemma LastSpelled(ps: seq<Piece>, masked: seq<Piece>, offset: int)
    requires ps != [] && |masked| == |ps| && masked[|ps| - 1] == WithoutValue(ps[|ps| - 1])
    requires Spelled(masked[..|ps| - 1], offset) == Spelled(ps[..|ps| - 1], offset)
    requires |Bound(masked[..|ps| - 1])| == |Bound(ps[..|ps| - 1])|
    ensures Spelled(masked, offset) == Spelled(ps, offset) && |Bound(masked)| == |Bound(ps)|
  {
    hide Spelling, QuoteIdent, Placeholder, Typical;
    var last := ps[|ps| - 1];
    if last.Bind? {
      TypicalPlaceholder(offset + |Bound(ps)|, last.arg);
    }
  }

  /** No bound value reaches the text: only its type does. */
  lemma {:induction false} ValuesNeverPrinted(ps: seq<Piece>, offset: int)
    ensures Spelled(WithoutValues(ps), offset) == Spelled(ps, offset) && |Bound(WithoutValues(ps))| == |Bound(ps)|
    decreases |ps|
  {
    hide Spelled, Bound, WithoutValue;
    if ps == [] {
      NoValues();
    } else {
      ValuesNeverPrinted(ps[..|ps| - 1], offset);
      LastWithoutValue(ps);
      LastSpelled(ps, WithoutValues(ps), offset);
    }
  }

  lemma NoValues()
    ensures WithoutValues([]) == []
  {
  }
}
