/** The printed characters determine the pieces, and numbering the parameters follows one rule. */
module RenderLexing {
  import opened Wrappers
  import opened Texts
  import opened SqlTrees

  // ----- identifiers -----

  /** The name up to its closing quote, and what follows. */
  function Unquoted(s: string): (r: (string, string))
    ensures |r.1| <= |s|
    decreases |s|
  {
    if s == [] then ([], [])
    else if s[0] != '"' then var rest := Unquoted(s[1..]); ([s[0]] + rest.0, rest.1)
    else if |s| > 1 && s[1] == '"' then var rest := Unquoted(s[2..]); (['"'] + rest.0, rest.1)
    else ([], s[1..])
  }

  /** A quoted identifier unquotes to its name, whatever characters the name holds. */
  lemma {:induction false} QuotedUnquotes(name: string, rest: string)
    requires rest == [] || rest[0] != '"'
    ensures Unquoted(Doubled(name) + (['"'] + rest)) == (name, rest)
    decreases |name|
  {
    var closing := ['"'] + rest;
    if name == [] {
      assert [] + closing == closing;
      assert closing[1..] == rest;
    } else {
      var tail := Doubled(name[1..]) + closing;
      QuotedUnquotes(name[1..], rest);
      assert name == [name[0]] + name[1..];
      if name[0] == '"' {
        var s := ['"', '"'] + tail;
        assert Doubled(name) + closing == s;
        assert s[2..] == tail;
      } else {
        var s := [name[0]] + tail;
        assert Doubled(name) + closing == s;
        assert s[1..] == tail;
      }
    }
  }

  // ----- keywords -----

  /** Keywords the renderer has a spelling for. */
  predicate Printable(w: Keyword) {
    match w
    case CompareWord(op) => !op.OtherComparison?
    case ArithWord(op) => !op.OtherArithmetic?
    case FunctionWord(f) => !f.ConcatAll? && !f.OtherFunction?
    case _ => true
  }

  function CharAt(s: string, i: nat): char {
    if i < |s| then s[i] else ' '
  }

  /** The keyword that begins with these characters, decided by the first that tell it apart. */
  function KeywordAt(s: string): Keyword {
    match CharAt(s, 0)
    case '(' => Open
    case ')' => Close
    case '.' => Dot
    case ',' => Comma
    case '1' => OneWord
    case 'N' => if CharAt(s, 1) == 'U' then NullWord else NotWord
    case 'T' => TrueWord
    case 'F' => FalseWord
    case 'C' => if CharAt(s, 3) == 'E' then CaseWord else CastWord
    case 'E' => ExistsWord
    case 'S' => SelectWord
    case 'c' => if CharAt(s, 1) == 'h' then FunctionWord(CharLength) else CountWord
    case 'r' => FunctionWord(Replace)
    case 'n' => FunctionWord(NullIf)
    case 't' => TextWord
    case 'd' => DoubleWord
    case _ => SpacedKeywordAt(s)
  }

  /** The same among the keywords that begin with a space. */
  function SpacedKeywordAt(s: string): Keyword {
    match CharAt(s, 1)
    case '=' => CompareWord(Eq)
    case '<' =>
      CompareWord(if CharAt(s, 2) == '>' then Ne else if CharAt(s, 2) == '=' then Le else Lt)
    case '>' => CompareWord(if CharAt(s, 2) == '=' then Ge else Gt)
    case '+' => ArithWord(Add)
    case '-' => ArithWord(Sub)
    case '*' => ArithWord(Mult)
    case '/' => ArithWord(Div)
    case '%' => ArithWord(Mod)
    case '|' => ConcatWord
    case 'A' => if CharAt(s, 2) == 'N' then AndWord else AsWord
    case 'O' => OrWord
    case 'L' => LikeWord
    case 'T' => ThenWord
    case 'F' => FromWord
    case 'W' => if CharAt(s, 4) == 'N' then WhenWord else WhereWord
    case 'E' => if CharAt(s, 2) == 'S' then EscapeWord else if CharAt(s, 2) == 'L' then ElseWord else EndWord
    case _ => if CharAt(s, 2) == 'N' then InWord else TestKeywordAt(s)
  }

  /** The same among those that begin with ` IS `. */
  function TestKeywordAt(s: string): Keyword {
    match CharAt(s, 4)
    case 'T' => IsTrueWord
    case 'F' => IsFalseWord
    case _ =>
      if CharAt(s, 5) == 'U' then IsNullWord else if CharAt(s, 8) == 'N' then IsNotNullWord else NotDistinctWord
  }

  lemma CharsOf(spelling: string, rest: string)
    ensures forall i | 0 <= i < |spelling| :: CharAt(spelling + rest, i) == spelling[i]
  {
  }

  predicate IsTest(w: Keyword) {
    w in {IsNullWord, IsNotNullWord, IsTrueWord, IsFalseWord, NotDistinctWord}
  }

  lemma TestRead(w: Keyword, s: string)
    requires IsTest(w) && forall i | 0 <= i < |Spelling(w)| :: CharAt(s, i) == Spelling(w)[i]
    ensures KeywordAt(s) == w
  {
    assert Spelling(w)[0] == ' ' && Spelling(w)[1] == 'I' && Spelling(w)[2] == 'S';
    if w.IsTrueWord? || w.IsFalseWord? || w.IsNullWord? {
      assert w.IsTrueWord? ==> Spelling(w)[4] == 'T';
      assert w.IsFalseWord? ==> Spelling(w)[4] == 'F';
      assert w.IsNullWord? ==> Spelling(w)[4] == 'N' && Spelling(w)[5] == 'U';
    } else {
      assert Spelling(w)[4] == 'N' && Spelling(w)[5] == 'O';
      assert Spelling(w)[8] == if w.IsNotNullWord? then 'N' else 'D';
    }
  }

  predicate IsSpaced(w: Keyword) {
    w.CompareWord? || w.ArithWord? ||
    w in {ConcatWord, AndWord, OrWord, LikeWord, EscapeWord, InWord, WhenWord, ThenWord, ElseWord, EndWord, AsWord,
      FromWord, WhereWord}
  }

  lemma SpacedRead(w: Keyword, s: string)
    requires IsSpaced(w) && Printable(w) && forall i | 0 <= i < |Spelling(w)| :: CharAt(s, i) == Spelling(w)[i]
    ensures KeywordAt(s) == w
  {
    var text := Spelling(w);
    assert text[0] == ' ';
    match w
    case CompareWord(op) =>
      var symbol := ComparisonSymbol(op);
      assert text[1] == symbol[0] && text[2] == if |symbol| == 2 then symbol[1] else ' ';
    case ArithWord(op) => assert text[1] == ArithmeticSymbol(op)[0];
    case ConcatWord => assert text[1] == '|';
    case AndWord => assert text[1] == 'A' && text[2] == 'N';
    case OrWord => assert text[1] == 'O';
    case LikeWord => assert text[1] == 'L';
    case EscapeWord => assert text[1] == 'E' && text[2] == 'S';
    case InWord => assert text[1] == 'I' && text[2] == 'N';
    case WhenWord => assert text[1] == 'W' && text[4] == 'N';
    case ThenWord => assert text[1] == 'T';
    case ElseWord => assert text[1] == 'E' && text[2] == 'L';
    case EndWord => assert text[1] == 'E' && text[2] == 'N';
    case AsWord => assert text[1] == 'A' && text[2] == 'S';
    case FromWord => assert text[1] == 'F';
    case WhereWord => assert text[1] == 'W' && text[4] == 'R';
  }

  lemma BareRead(w: Keyword, s: string)
    requires !IsSpaced(w) && !IsTest(w) && Printable(w)
    requires forall i | 0 <= i < |Spelling(w)| :: CharAt(s, i) == Spelling(w)[i]
    ensures KeywordAt(s) == w
  {
    hide SpacedKeywordAt;
    var text := Spelling(w);
    if w.FunctionWord? {
      assert text[0] == (if w.f.CharLength? then 'c' else if w.f.Replace? then 'r' else 'n') && text[1] != 'o';
      assert w.f.CharLength? ==> text[1] == 'h';
    } else if w.CountWord? {
      assert text[0] == 'c' && text[1] == 'o';
    } else if w.CaseWord? || w.CastWord? {
      assert text[0] == 'C' && text[3] == if w.CaseWord? then 'E' else 'T';
    } else if w.NullWord? || w.NotWord? {
      assert text[0] == 'N' && text[1] == if w.NullWord? then 'U' else 'O';
    } else {
      assert text[0] == FirstOf(w);
    }
  }

  /** The first character of the keywords that it decides alone. */
  function FirstOf(w: Keyword): char {
    match w
    case Open => '('
    case Close => ')'
    case Dot => '.'
    case Comma => ','
    case OneWord => '1'
    case TrueWord => 'T'
    case FalseWord => 'F'
    case ExistsWord => 'E'
    case SelectWord => 'S'
    case TextWord => 't'
    case _ => 'd'
  }

  /** No keyword's spelling begins another's, so the characters decide it. */
  lemma KeywordRead(w: Keyword, rest: string)
    requires Printable(w)
    ensures KeywordAt(Spelling(w) + rest) == w
  {
    hide KeywordAt, Spelling;
    CharsOf(Spelling(w), rest);
    if IsTest(w) {
      TestRead(w, Spelling(w) + rest);
    } else if IsSpaced(w) {
      SpacedRead(w, Spelling(w) + rest);
    } else {
      BareRead(w, Spelling(w) + rest);
    }
  }

  lemma KeywordStarts(w: Keyword)
    requires Printable(w)
    ensures Spelling(w) != [] && Spelling(w)[0] !in ['"', '$', ':']
    ensures w != OneWord ==> !IsDigit(Spelling(w)[0])
  {
  }

  // ----- the reader's own SQL -----

  /** The whole word a reader of SQL knows under each keyword, spaces included; none for an unknown operator. */
  function SqlWord(w: Keyword): string {
    match w
    case Open => "("
    case Close => ")"
    case Dot => "."
    case Comma => ", "
    case NullWord => "NULL"
    case TrueWord => "TRUE"
    case FalseWord => "FALSE"
    case CompareWord(op) => SqlComparison(op)
    case ArithWord(op) => SqlArithmetic(op)
    case ConcatWord => " || "
    case AndWord => " AND "
    case OrWord => " OR "
    case NotWord => "NOT "
    case IsNullWord => " IS NULL"
    case IsNotNullWord => " IS NOT NULL"
    case IsTrueWord => " IS TRUE"
    case IsFalseWord => " IS FALSE"
    case LikeWord => " LIKE "
    case EscapeWord => " ESCAPE "
    case NotDistinctWord => " IS NOT DISTINCT FROM "
    case InWord => " IN "
    case CaseWord => "CASE"
    case WhenWord => " WHEN "
    case ThenWord => " THEN "
    case ElseWord => " ELSE "
    case EndWord => " END"
    case FunctionWord(CharLength) => "char_length"
    case FunctionWord(Replace) => "replace"
    case FunctionWord(NullIf) => "nullif"
    case FunctionWord(_) => ""
    case CastWord => "CAST"
    case AsWord => " AS "
    case TextWord => "text"
    case DoubleWord => "double precision"
    case ExistsWord => "EXISTS "
    case SelectWord => "SELECT "
    case OneWord => "1"
    case CountWord => "count(*)"
    case FromWord => " FROM "
    case WhereWord => " WHERE "
  }

  function SqlComparison(op: Comparison): string {
    match op
    case Eq => " = "
    case Ne => " <> "
    case Lt => " < "
    case Le => " <= "
    case Gt => " > "
    case Ge => " >= "
    case OtherComparison(_) => ""
  }

  function SqlArithmetic(op: Arithmetic): string {
    match op
    case Add => " + "
    case Sub => " - "
    case Mult => " * "
    case Div => " / "
    case Mod => " % "
    case OtherArithmetic(_) => ""
  }

  /** The renderer spells every keyword as the reader knows it. */
  lemma SpellsSql(w: Keyword)
    requires Printable(w)
    ensures Spelling(w) == SqlWord(w)
  {
    match w
    case CompareWord(op) => ComparisonSpelled(op);
    case ArithWord(op) => ArithmeticSpelled(op);
    case _ =>
  }

  lemma ComparisonSpelled(op: Comparison)
    requires !op.OtherComparison?
    ensures Spelling(CompareWord(op)) == SqlComparison(op)
  {
  }

  lemma ArithmeticSpelled(op: Arithmetic)
    requires !op.OtherArithmetic?
    ensures Spelling(ArithWord(op)) == SqlArithmetic(op)
  {
  }

  datatype SqlType = Boolean | DoublePrecision | BigInt | Timestamptz | TextType | Untyped

  /** The PostgreSQL type of a bound value; a value of no known Go type has none. */
  function TypeOf(v: Arg): SqlType {
    match v
    case BoolArg(_) => Boolean
    case FloatArg(_) => DoublePrecision
    case IntArg(_) => BigInt
    case TimeArg(_) => Timestamptz
    case TextArg(_) => TextType
    case OtherArg(_) => Untyped
  }

  function TypeName(t: SqlType): string {
    match t
    case Boolean => "boolean"
    case DoublePrecision => "double precision"
    case BigInt => "bigint"
    case Timestamptz => "timestamptz"
    case TextType => "text"
    case Untyped => ""
  }

  /** The cast that follows a parameter: its type by name, and how many characters it takes. */
  function ReadType(s: string): (r: (SqlType, nat))
    ensures r.1 <= |s|
  {
    if !("::" <= s) then (Untyped, 0)
    else
      var name := s[2..];
      if TypeName(Boolean) <= name then (Boolean, 2 + |TypeName(Boolean)|)
      else if TypeName(DoublePrecision) <= name then (DoublePrecision, 2 + |TypeName(DoublePrecision)|)
      else if TypeName(BigInt) <= name then (BigInt, 2 + |TypeName(BigInt)|)
      else if TypeName(Timestamptz) <= name then (Timestamptz, 2 + |TypeName(Timestamptz)|)
      else if TypeName(TextType) <= name then (TextType, 2 + |TypeName(TextType)|)
      else (Untyped, 0)
  }

  /** A parameter states the type of its own value. */
  lemma StatesType(v: Arg)
    ensures TypeSuffix(v) == if TypeOf(v).Untyped? then "" else "::" + TypeName(TypeOf(v))
  {
  }

  lemma TypeReads(t: SqlType, rest: string)
    requires !t.Untyped?
    ensures var name := TypeName(t);
      ReadType("::" + name + rest) == (t, 2 + |name|)
  {
    var name := TypeName(t);
    var s := "::" + name + rest;
    assert s[2..] == name + rest;
    NamesDiffer(t, rest);
  }

  /** No type's name begins another's. */
  lemma NamesDiffer(t: SqlType, rest: string)
    requires !t.Untyped?
    ensures forall u: SqlType | !u.Untyped? :: TypeName(u) <= TypeName(t) + rest <==> u == t
  {
    var s := TypeName(t) + rest;
    forall u: SqlType | !u.Untyped? && u != t ensures !(TypeName(u) <= s) {
      NameDiffers(t, u, rest);
    }
  }

  lemma NameDiffers(t: SqlType, u: SqlType, rest: string)
    requires !t.Untyped? && !u.Untyped? && t != u
    ensures !(TypeName(u) <= TypeName(t) + rest)
  {
    var a, b := TypeName(t), TypeName(u);
    var s := a + rest;
    assert s[0] == a[0] && s[1] == a[1];
    assert b[0] != s[0] || b[1] != s[1];
  }

  /** What is read after a parameter's number is the type of its value, and exactly what was written. */
  lemma SuffixReads(v: Arg, rest: string)
    requires rest == [] || rest[0] != ':'
    ensures ReadType(TypeSuffix(v) + rest) == (TypeOf(v), |TypeSuffix(v)|)
  {
    hide ReadType, TypeSuffix;
    StatesType(v);
    if TypeOf(v).Untyped? {
      assert [] + rest == rest;
      NoType(rest);
    } else {
      TypeReads(TypeOf(v), rest);
    }
  }

  lemma NoType(rest: string)
    requires rest == [] || rest[0] != ':'
    ensures ReadType(rest) == (Untyped, 0)
  {
  }

  // ----- the text as pieces -----

  function TextOf(p: Piece, number: int): string {
    match p
    case Word(w) => Spelling(w)
    case Name(name) => QuoteIdent(name)
    case Bind(v) => Placeholder(number, v)
  }

  /** The integer that begins a string and how many characters spell it. */
  function ReadNumber(s: string): (r: (int, nat))
    ensures r.1 <= |s|
  {
    if s != [] && s[0] == '-' then
      var digits := DigitSpan(s[1..]);
      (0 - NatValue(s[1..][..digits]) as int, 1 + digits)
    else
      (NatValue(s[..DigitSpan(s)]), DigitSpan(s))
  }

  /** The first piece that a text and its arguments spell, and the text after it. */
  function FirstPiece(s: string, args: seq<Arg>, offset: int): (r: Option<(Piece, string)>)
    requires s != []
    ensures r.Some? ==> |r.value.1| < |s|
  {
    if s[0] == '"' then
      var name := Unquoted(s[1..]);
      Some((Name(name.0), name.1))
    else if s[0] == '$' then
      var (number, length) := ReadNumber(s[1..]);
      var k := number - offset - 1;
      var (stated, width) := ReadType(s[1 + length..]);
      if !(0 <= k < |args|) || stated != TypeOf(args[k]) then None
      else Some((Bind(args[k]), s[1 + length + width..]))
    else
      var w := KeywordAt(s);
      if SqlWord(w) == [] || !(SqlWord(w) <= s) then None else Some((Word(w), s[|SqlWord(w)|..]))
  }

  /** The pieces that a text and its arguments spell, read from the front. */
  function Decode(s: string, args: seq<Arg>, offset: int): (ps: seq<Piece>)
    decreases |s|
  {
    if s == [] then []
    else
      var first := FirstPiece(s, args, offset);
      if first.None? then [] else [first.value.0] + Decode(first.value.1, args, offset)
  }

  /** A keyword that can stand right after an identifier or a parameter. */
  predicate Separates(p: Piece) {
    p.Word? && p.w != OneWord
  }

  predicate PrintablePiece(p: Piece) {
    p.Word? ==> Printable(p.w)
  }

  /** Pieces whose spellings do not run into each other. */
  predicate Lexical(ps: seq<Piece>) {
    ps == [] ||
    (PrintablePiece(ps[0]) && (ps[0].Word? || |ps| == 1 || Separates(ps[1])) && Lexical(ps[1..]))
  }

  lemma {:induction false} BoundAppend(a: seq<Piece>, b: seq<Piece>)
    ensures Bound(a + b) == Bound(a) + Bound(b)
    decreases |b|
  {
    if b == [] {
      assert a + b == a;
    } else {
      var front := b[..|b| - 1];
      assert (a + b)[..|a + b| - 1] == a + front;
      BoundAppend(a, front);
    }
  }

  lemma {:induction false} SpelledAppend(a: seq<Piece>, b: seq<Piece>, offset: int)
    ensures Spelled(a + b, offset) == Spelled(a, offset) + Spelled(b, offset + |Bound(a)|)
    decreases |b|
  {
    hide Spelling, QuoteIdent, Placeholder;
    if b == [] {
      assert a + b == a;
    } else {
      var front := b[..|b| - 1];
      assert (a + b)[..|a + b| - 1] == a + front;
      SpelledAppend(a, front, offset);
      BoundAppend(a, b);
    }
  }

  lemma SpelledFirst(p: Piece, rest: seq<Piece>, offset: int)
    ensures Spelled([p] + rest, offset) == TextOf(p, offset + 1) + Spelled(rest, offset + if p.Bind? then 1 else 0)
    ensures Bound([p] + rest) == (if p.Bind? then [p.arg] else []) + Bound(rest)
  {
    hide Spelling, QuoteIdent, Placeholder;
    SpelledAppend([p], rest, offset);
    BoundAppend([p], rest);
    assert [p][..0] == [];
  }

  /** What follows an identifier or a parameter starts a keyword. */
  lemma RestStarts(p: Piece, rest: seq<Piece>, offset: int)
    requires Lexical([p] + rest) && !p.Word?
    ensures var s := Spelled(rest, offset); s == [] || (s[0] != '"' && s[0] != ':' && !IsDigit(s[0]))
    ensures Lexical(rest)
  {
    hide Spelling, QuoteIdent, Placeholder;
    assert ([p] + rest)[1..] == rest;
    if rest != [] {
      assert rest == [rest[0]] + rest[1..];
      SpelledFirst(rest[0], rest[1..], offset);
      KeywordStarts(rest[0].w);
    }
  }

  lemma NameDecodes(name: string, rest: string, args: seq<Arg>, offset: int)
    requires rest == [] || rest[0] != '"'
    ensures FirstPiece(QuoteIdent(name) + rest, args, offset) == Some((Name(name), rest))
  {
    var s := QuoteIdent(name) + rest;
    assert s[1..] == Doubled(name) + (['"'] + rest);
    QuotedUnquotes(name, rest);
  }

  lemma WordDecodes(w: Keyword, rest: string, args: seq<Arg>, offset: int)
    requires Printable(w)
    ensures Spelling(w) != [] && FirstPiece(Spelling(w) + rest, args, offset) == Some((Word(w), rest))
  {
    hide Spelling, SqlWord, KeywordAt, Printable;
    SpellsSql(w);
    KeywordStarts(w);
    KeywordRead(w, rest);
    var s := Spelling(w) + rest;
    assert s[0] == Spelling(w)[0] && s[|Spelling(w)|..] == rest;
  }

  /** A run of digits that spells a natural number, and what follows it. */
  lemma RunReads(n: nat, tail: string)
    requires tail == [] || !IsDigit(tail[0])
    ensures var digits := NatText(n); var s := digits + tail;
      digits != [] && digits[0] != '-' && s[0] == digits[0] && DigitSpan(s) == |digits| &&
      s[..|digits|] == digits && NatValue(s[..|digits|]) == n
  {
    hide NatText, NatValue, DigitSpan;
    DigitSpanOf(NatText(n), tail);
  }

  lemma NegativeReads(n: nat, tail: string)
    requires n > 0 && (tail == [] || !IsDigit(tail[0]))
    ensures ReadNumber(['-'] + (NatText(n) + tail)) == (0 - n, 1 + |NatText(n)|)
  {
    hide NatText, NatValue, DigitSpan, IsDigit;
    RunReads(n, tail);
    var s := ['-'] + (NatText(n) + tail);
    assert s[1..] == NatText(n) + tail;
  }

  lemma NumberReads(n: int, tail: string)
    requires tail == [] || !IsDigit(tail[0])
    ensures ReadNumber(IntText(n) + tail) == (n, |IntText(n)|)
  {
    hide NatText, NatValue, DigitSpan;
    hide IsDigit;
    if n < 0 {
      NegativeReads(-n, tail);
      assert IntText(n) + tail == ['-'] + (NatText(-n) + tail);
    } else {
      RunReads(n, tail);
      assert IntText(n) == NatText(n);
    }
  }

  lemma BindDecodes(v: Arg, number: int, rest: string, args: seq<Arg>, offset: int)
    requires rest == [] || (rest[0] != ':' && !IsDigit(rest[0]))
    requires 0 <= number - offset - 1 < |args| && args[number - offset - 1] == v
    ensures FirstPiece(Placeholder(number, v) + rest, args, offset) == Some((Bind(v), rest))
  {
    hide IntText, ReadNumber, ReadType, TypeSuffix, Placeholder, KeywordAt, SqlWord, Unquoted;
    SuffixStarts(v, rest);
    PlaceholderLies(number, v, rest);
    NumberReads(number, TypeSuffix(v) + rest);
    SuffixReads(v, rest);
  }

  lemma SuffixStarts(v: Arg, rest: string)
    requires rest == [] || !IsDigit(rest[0])
    ensures var tail := TypeSuffix(v) + rest; tail == [] || !IsDigit(tail[0])
  {
  }

  lemma PlaceholderLies(number: int, v: Arg, rest: string)
    ensures var text, suffix := IntText(number), TypeSuffix(v);
      var s := Placeholder(number, v) + rest;
      s != [] && s[0] == '$' && s[1..] == text + (suffix + rest) && s[1 + |text|..] == suffix + rest &&
      |s| >= 1 + |text| + |suffix| && s[1 + |text| + |suffix|..] == rest
  {
    hide IntText, TypeSuffix;
  }

  lemma FirstDecodes(p: Piece, number: int, rest: string, args: seq<Arg>, offset: int)
    requires PrintablePiece(p)
    requires !p.Word? ==> rest == [] || (rest[0] != '"' && rest[0] != ':' && !IsDigit(rest[0]))
    requires p.Bind? ==> 0 <= number - offset - 1 < |args| && args[number - offset - 1] == p.arg
    ensures Decode(TextOf(p, number) + rest, args, offset) == [p] + Decode(rest, args, offset)
  {
    hide FirstPiece, Placeholder, Spelling;
    match p
    case Word(w) => WordDecodes(w, rest, args, offset);
    case Name(name) => NameDecodes(name, rest, args, offset);
    case Bind(v) => BindDecodes(v, number, rest, args, offset);
  }

  /** The text and the arguments decode to the pieces they were printed from. */
  lemma {:induction false} Decodes(ps: seq<Piece>, before: seq<Arg>, offset: int)
    requires Lexical(ps)
    ensures Decode(Spelled(ps, offset + |before|), before + Bound(ps), offset) == ps
    decreases |ps|
  {
    hide Decode, TextOf, Spelled, Bound, PrintablePiece, Separates, IsDigit;
    if ps == [] {
      NothingDecodes(before, offset);
    } else {
      var p, rest := ps[0], ps[1..];
      assert ps == [p] + rest;
      SpelledFirst(p, rest, offset + |before|);
      var own := if p.Bind? then [p.arg] else [];
      Decodes(rest, before + own, offset);
      if !p.Word? {
        RestStarts(p, rest, offset + |before + own|);
      }
      ArgumentLies(before, own, Bound(rest));
      FirstDecodes(p, offset + |before| + 1, Spelled(rest, offset + |before + own|), before + Bound(ps), offset);
    }
  }

  lemma ArgumentLies(before: seq<Arg>, own: seq<Arg>, rest: seq<Arg>)
    ensures before + own + rest == before + (own + rest)
    ensures own != [] ==> (before + (own + rest))[|before|] == own[0]
  {
  }

  lemma NothingDecodes(before: seq<Arg>, offset: int)
    ensures Decode(Spelled([], offset + |before|), before + Bound([]), offset) == []
  {
  }
}
