/** The renderer itself: a text buffer and an argument list that every write appends to. */
module Rendering {
  import opened Wrappers
  import opened SqlTrees

  /** `before` with what was printed after it; after a refusal the buffer is of no use. */
  ghost predicate Appended(after: seq<Piece>, before: seq<Piece>, printed: Translation<seq<Piece>>, ok: bool) {
    ok == printed.Done? && (ok ==> after == before + printed.result)
  }

  class Renderer {
    var sb: string
    var args: seq<Arg>
    const offset: int
    ghost var pieces: seq<Piece>

    /** The buffer spells the pieces, and the arguments are those they bind. */
    ghost predicate Valid()
      reads this
    {
      sb == Spelled(pieces, offset) && args == Bound(pieces)
    }

    constructor (offset: int)
      ensures Valid() && this.offset == offset && pieces == []
    {
      this.offset := offset;
      sb, args, pieces := "", [], [];
    }

    method Str(w: Keyword)
      requires Valid()
      modifies this
      ensures Valid() && pieces == old(pieces) + [Word(w)]
    {
      hide Spelling;
      sb := sb + Spelling(w);
      pieces := pieces + [Word(w)];
      assert pieces[..|pieces| - 1] == old(pieces);
    }

    method Ident(name: string)
      requires Valid()
      modifies this
      ensures Valid() && pieces == old(pieces) + [Name(name)]
    {
      hide QuoteIdent;
      sb := sb + QuoteIdent(name);
      pieces := pieces + [Name(name)];
      assert pieces[..|pieces| - 1] == old(pieces);
    }

    /** Appends a value and writes the placeholder that its place in the list gives it. */
    method BindArg(v: Arg)
      requires Valid()
      modifies this
      ensures Valid() && pieces == old(pieces) + [Bind(v)] && args == old(args) + [v]
    {
      hide Placeholder;
      args := args + [v];
      sb := sb + Placeholder(offset + |args|, v);
      pieces := pieces + [Bind(v)];
      assert pieces[..|pieces| - 1] == old(pieces);
    }

    method WriteColumn(qualifier: string, name: string)
      requires Valid()
      modifies this
      ensures Valid() && Appended(pieces, old(pieces), Pieces(Column(qualifier, name)), true)
    {
      if qualifier != "" {
        Ident(qualifier);
        Str(Dot);
      }
      Ident(name);
    }

    /** One expression node; a refusal below it is reported at once. */
    method Write(e: Expr) returns (ok: bool)
      requires Valid()
      modifies this
      ensures Valid() && Appended(pieces, old(pieces), Pieces(e), ok)
      decreases e, 1
    {
      hide Spelled, Bound, Infix, Postfix, Wrapped, CastPieces, ListPieces, SelectPieces, WhenPieces, OptionPieces;
      match e
      case Column(qualifier, name) =>
        WriteColumn(qualifier, name);
        ok := true;
      case Lit(v) =>
        if v.None? {
          Str(NullWord);
        } else {
          BindArg(v.value);
        }
        ok := true;
      case BoolConst(b) =>
        Str(if b then TrueWord else FalseWord);
        ok := true;
      case Compare(op, l, r) =>
        if op.OtherComparison? {
          return false;
        }
        ok := WriteBinary(CompareWord(op), l, r, e);
      case Arith(op, l, r) =>
        if op.OtherArithmetic? {
          return false;
        }
        ok := WriteBinary(ArithWord(op), l, r, e);
      case Concat(l, r) =>
        ok := WriteBinary(ConcatWord, l, r, e);
      case Logic(xs, and) =>
        ok := WriteParenthesised(xs, if and then AndWord else OrWord);
      case Not(x) =>
        ok := WriteNot(x, e);
      case IsNull(x, negate) =>
        ok := WritePostfix(x, if negate then IsNotNullWord else IsNullWord, e);
      case TruthTest(x, want) =>
        if want.OtherTruth? {
          return false;
        }
        var word := if want.IsTrue? then IsTrueWord else if want.IsFalse? then IsFalseWord else IsNullWord;
        ok := WritePostfix(x, word, e);
      case Like(receiver, pattern) =>
        ok := WriteLike(receiver, pattern, e);
      case NotDistinct(l, r) =>
        ok := WriteBinary(NotDistinctWord, l, r, e);
      case InList(x, vs) =>
        ok := WriteIn(x, vs, e);
      case Case(whens, otherwise) =>
        ok := WriteCase(whens, otherwise, e);
      case Call(f, args) =>
        ok := WriteCall(f, args);
      case Cast(x, target) =>
        ok := WriteCast(x, target, e);
      case Subquery(kind, select, from, correlate, where) =>
        ok := WriteSubquery(kind, select, from, correlate, where, e);
      case Foreign =>
        ok := false;
    }

    method WriteBinary(w: Keyword, l: Expr, r: Expr, ghost parent: Expr) returns (ok: bool)
      requires Valid() && l < parent && r < parent
      modifies this
      ensures Valid() && ok == (Pieces(l).Done? && Pieces(r).Done?)
      ensures ok ==> pieces == old(pieces) + Infix(Pieces(l).result, w, Pieces(r).result)
      decreases parent, 0
    {
      hide Spelled, Bound, Pieces;
      Str(Open);
      ok := Write(l);
      if !ok {
        return;
      }
      Str(w);
      ok := Write(r);
      if ok {
        Str(Close);
      }
    }

    /** `(x<test>)`, for the IS [NOT] NULL, TRUE and FALSE family. */
    method WritePostfix(x: Expr, test: Keyword, ghost parent: Expr) returns (ok: bool)
      requires Valid() && x < parent
      modifies this
      ensures Valid() && ok == Pieces(x).Done?
      ensures ok ==> pieces == old(pieces) + Postfix(Pieces(x).result, test)
      decreases parent, 0
    {
      hide Spelled, Bound, Pieces;
      Str(Open);
      ok := Write(x);
      if ok {
        Str(test);
        Str(Close);
      }
    }

    method WriteNot(x: Expr, ghost parent: Expr) returns (ok: bool)
      requires Valid() && x < parent
      modifies this
      ensures Valid() && ok == Pieces(x).Done?
      ensures ok ==> pieces == old(pieces) + Wrapped([Word(NotWord)] + Pieces(x).result)
      decreases parent, 0
    {
      hide Spelled, Bound, Pieces;
      Str(Open);
      Str(NotWord);
      ok := Write(x);
      if ok {
        Str(Close);
      }
    }

    /** The escape character is bound, so that no server setting can change its meaning. */
    method WriteLike(receiver: Expr, pattern: Expr, ghost parent: Expr) returns (ok: bool)
      requires Valid() && receiver < parent && pattern < parent
      modifies this
      ensures Valid() && ok == (Pieces(receiver).Done? && Pieces(pattern).Done?)
      ensures ok ==>
        (pieces == old(pieces) +
         Infix(Pieces(receiver).result, LikeWord, Pieces(pattern).result + [Word(EscapeWord), Bind(ESCAPE)]))
      decreases parent, 0
    {
      hide Spelled, Bound, Pieces;
      Str(Open);
      ok := Write(receiver);
      if !ok {
        return;
      }
      Str(LikeWord);
      ok := Write(pattern);
      if ok {
        Str(EscapeWord);
        BindArg(ESCAPE);
        Str(Close);
      }
    }

    /** Each expression in turn, with the separator between them. */
    method WriteList(xs: seq<Expr>, separator: Keyword) returns (ok: bool)
      requires Valid()
      modifies this
      ensures Valid() && Appended(pieces, old(pieces), ListPieces(xs, separator, 0), ok)
      decreases xs, 0
    {
      hide Spelled, Bound, Pieces;
      ghost var all := ListPieces(xs, separator, 0);
      for i := 0 to |xs|
        invariant Valid()
        invariant var rest := ListPieces(xs, separator, i);
          all.Done? == rest.Done? && (all.Done? ==> old(pieces) + all.result == pieces + rest.result)
      {
        if i > 0 {
          Str(separator);
        }
        ok := Write(xs[i]);
        if !ok {
          return;
        }
      }
      ok := true;
    }

    method WriteParenthesised(xs: seq<Expr>, separator: Keyword) returns (ok: bool)
      requires Valid()
      modifies this
      ensures Valid() && ok == ListPieces(xs, separator, 0).Done?
      ensures ok ==> pieces == old(pieces) + Wrapped(ListPieces(xs, separator, 0).result)
      decreases xs, 1
    {
      hide Spelled, Bound, ListPieces;
      Str(Open);
      ok := WriteList(xs, separator);
      if ok {
        Str(Close);
      }
    }

    method WriteIn(x: Expr, vs: seq<Expr>, ghost parent: Expr) returns (ok: bool)
      requires Valid() && parent == InList(x, vs)
      modifies this
      ensures Valid() && ok == (Pieces(x).Done? && ListPieces(vs, Comma, 0).Done?)
      ensures ok ==>
        pieces == old(pieces) + Infix(Pieces(x).result, InWord, Wrapped(ListPieces(vs, Comma, 0).result))
      decreases parent, 0
    {
      hide Spelled, Bound, Pieces, ListPieces;
      Str(Open);
      ok := Write(x);
      if !ok {
        return;
      }
      Str(InWord);
      ok := WriteParenthesised(vs, Comma);
      if ok {
        Str(Close);
      }
    }

    method WriteCase(whens: seq<When>, otherwise: Option<Expr>, ghost parent: Expr) returns (ok: bool)
      requires Valid() && parent == Case(whens, otherwise)
      modifies this
      ensures Valid() && Appended(pieces, old(pieces), Pieces(parent), ok)
      decreases parent, 0
    {
      hide Spelled, Bound, WhenPieces, OptionPieces;
      Str(Open);
      Str(CaseWord);
      ok := WriteWhens(whens);
      if !ok {
        return;
      }
      ok := WriteOption(otherwise, ElseWord);
      if ok {
        Str(EndWord);
        Str(Close);
      }
    }

    method WriteWhens(whens: seq<When>) returns (ok: bool)
      requires Valid()
      modifies this
      ensures Valid() && Appended(pieces, old(pieces), WhenPieces(whens, 0), ok)
      decreases whens, 0
    {
      hide Spelled, Bound, ArmPieces;
      ghost var all := WhenPieces(whens, 0);
      for i := 0 to |whens|
        invariant Valid()
        invariant var rest := WhenPieces(whens, i);
          all.Done? == rest.Done? && (all.Done? ==> old(pieces) + all.result == pieces + rest.result)
      {
        ok := WriteArm(whens[i]);
        if !ok {
          return;
        }
      }
      ok := true;
    }

    method WriteArm(arm: When) returns (ok: bool)
      requires Valid()
      modifies this
      ensures Valid() && Appended(pieces, old(pieces), ArmPieces(arm), ok)
      decreases arm, 0
    {
      hide Spelled, Bound, Pieces;
      Str(WhenWord);
      ok := Write(arm.cond);
      if !ok {
        return;
      }
      Str(ThenWord);
      ok := Write(arm.result);
    }

    /** An optional expression after its keyword; neither when it is nil. */
    method WriteOption(x: Option<Expr>, before: Keyword) returns (ok: bool)
      requires Valid()
      modifies this
      ensures Valid() && Appended(pieces, old(pieces), OptionPieces(x, before), ok)
      decreases x, 0
    {
      hide Spelled, Bound, Pieces;
      ok := true;
      if x.Some? {
        Str(before);
        ok := Write(x.value);
      }
    }

    /** `concat` is spelled with `||`, which propagates NULL where the function would not. */
    method WriteCall(f: Function, xs: seq<Expr>) returns (ok: bool)
      requires Valid()
      modifies this
      ensures Valid() && Appended(pieces, old(pieces), Pieces(Call(f, xs)), ok)
      decreases xs, 2
    {
      hide Spelled, Bound, ListPieces;
      if f.ConcatAll? {
        ok := WriteParenthesised(xs, ConcatWord);
        return;
      }
      if f.OtherFunction? {
        return false;
      }
      Str(FunctionWord(f));
      ok := WriteParenthesised(xs, Comma);
    }

    method WriteCast(x: Expr, target: CastType, ghost parent: Expr) returns (ok: bool)
      requires Valid() && x < parent
      modifies this
      ensures Valid() && ok == (!target.OtherType? && Pieces(x).Done?)
      ensures ok ==> pieces == old(pieces) + CastPieces(Pieces(x).result, target)
      decreases parent, 0
    {
      hide Spelled, Bound, Pieces;
      if target.OtherType? {
        return false;
      }
      Str(CastWord);
      Str(Open);
      ok := Write(x);
      if ok {
        Str(AsWord);
        Str(if target.Text? then TextWord else DoubleWord);
        Str(Close);
      }
    }

    method WriteFrom(from: seq<FromItem>)
      requires Valid()
      modifies this
      ensures Valid() && pieces == old(pieces) + FromPieces(from, 0)
    {
      hide Spelled, Bound;
      for i := 0 to |from|
        invariant Valid() && old(pieces) + FromPieces(from, 0) == pieces + FromPieces(from, i)
      {
        if i > 0 {
          Str(Comma);
        }
        Ident(from[i].table);
        Str(AsWord);
        Ident(from[i].alias);
      }
    }

    method WriteProjection(kind: SubqueryKind, select: Expr, ghost parent: Expr) returns (ok: bool)
      requires Valid() && parent.Subquery? && parent.kind == kind && parent.select == select
      modifies this
      ensures Valid() && Appended(pieces, old(pieces), ProjectionPieces(parent), ok)
      decreases parent, 0, 0
    {
      hide Spelled, Bound, Pieces;
      ok := true;
      if kind.Scalar? {
        ok := Write(select);
      } else {
        Str(if kind.Exists? then OneWord else CountWord);
      }
    }

    /** What stands between the subquery's inner parentheses. */
    method WriteSelect(kind: SubqueryKind, select: Expr, from: seq<FromItem>, correlate: Expr, where: Option<Expr>,
        ghost parent: Expr) returns (ok: bool)
      requires Valid() && parent == Subquery(kind, select, from, correlate, where)
      modifies this
      ensures Valid() && Appended(pieces, old(pieces), SelectPieces(parent), ok)
      decreases parent, 0, 1
    {
      hide Spelled, Bound, Pieces, OptionPieces, FromPieces, ProjectionPieces;
      if kind.OtherKind? {
        return false;
      }
      Str(SelectWord);
      ok := WriteProjection(kind, select, parent);
      if !ok {
        return;
      }
      Str(FromWord);
      WriteFrom(from);
      Str(WhereWord);
      ok := Write(correlate);
      if !ok {
        return;
      }
      ok := WriteOption(where, AndWord);
    }

    method WriteSubquery(kind: SubqueryKind, select: Expr, from: seq<FromItem>, correlate: Expr, where: Option<Expr>,
        ghost parent: Expr) returns (ok: bool)
      requires Valid() && parent == Subquery(kind, select, from, correlate, where)
      modifies this
      ensures Valid() && Appended(pieces, old(pieces), Pieces(parent), ok)
      decreases parent, 0, 2
    {
      hide Spelled, Bound, SelectPieces;
      Str(Open);
      if kind.Exists? {
        Str(ExistsWord);
        Str(Open);
      }
      ok := WriteSelect(kind, select, from, correlate, where, parent);
      if !ok {
        return;
      }
      Str(Close);
      if kind.Exists? {
        Str(Close);
      }
    }
  }

  method Render(e: Expr, offset: int) returns (r: Translation<(string, seq<Arg>)>)
    ensures r == Rendered(e, offset)
  {
    var renderer := new Renderer(offset);
    var ok := renderer.Write(e);
    if !ok {
      return Refused;
    }
    assert [] + Pieces(e).result == Pieces(e).result;
    return Done((renderer.sb, renderer.args));
  }
}
