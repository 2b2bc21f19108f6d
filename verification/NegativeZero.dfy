/** The generator's pass over encoded JSON that keeps the sign of a negative zero. */
module NegativeZero {
  import opened Wrappers
  import opened Texts

  predicate IsNumberByte(c: char) {
    IsDigit(c) || c == '.' || c == 'e' || c == 'E' || c == '+' || c == '-'
  }

  /** `-0` with no number byte after it. */
  predicate IsMinusZero(s: string) {
    |s| >= 2 && s[0] == '-' && s[1] == '0' && (|s| == 2 || !IsNumberByte(s[2]))
  }

  /** The rest of the output from a position inside or outside a string. */
  function Rewritten(s: string, inString: bool): (out: string)
    ensures (out == [] <==> s == []) && (s != [] ==> out[0] == s[0])
    decreases |s|
  {
    if s == [] then []
    else if inString then
      if s[0] == '\\' && |s| > 1 then s[..2] + Rewritten(s[2..], true)
      else [s[0]] + Rewritten(s[1..], s[0] != '"')
    else if s[0] == '"' then [s[0]] + Rewritten(s[1..], true)
    else if IsMinusZero(s) then ['-', '0', '.', '0'] + Rewritten(s[2..], false)
    else [s[0]] + Rewritten(s[1..], false)
  }

  /** What one turn of the loop appends and where it leaves the scan. */
  lemma Step(s: string, i: nat, inString: bool)
    requires i < |s|
    ensures Rewritten(s[i..], inString) ==
      if inString && s[i] == '\\' && i + 1 < |s| then [s[i], s[i + 1]] + Rewritten(s[i + 2..], true)
      else if inString then [s[i]] + Rewritten(s[i + 1..], s[i] != '"')
      else if s[i] == '"' then [s[i]] + Rewritten(s[i + 1..], true)
      else if s[i] == '-' && i + 1 < |s| && s[i + 1] == '0' && (i + 2 == |s| || !IsNumberByte(s[i + 2])) then
        ['-', '0', '.', '0'] + Rewritten(s[i + 2..], false)
      else [s[i]] + Rewritten(s[i + 1..], false)
  {
    var rest := s[i..];
    assert rest[1..] == s[i + 1..];
    if i + 1 < |s| {
      assert rest[2..] == s[i + 2..] && rest[..2] == [s[i], s[i + 1]];
    }
  }

  /** The same for a character on its own outside strings. */
  lemma PlainStep(c: char, rest: string)
    requires c != '"' && !IsMinusZero([c] + rest)
    ensures Rewritten([c] + rest, false) == [c] + Rewritten(rest, false)
  {
    assert ([c] + rest)[1..] == rest;
  }

  lemma Appended(out: string, piece: string, rest: string)
    ensures out + (piece + rest) == out + piece + rest
  {
  }

  method KeepNegativeZero(input: string) returns (out: string)
    ensures out == Rewritten(input, false)
  {
    hide Rewritten, IsNumberByte;
    out := [];
    var inString := false;
    var i := 0;
    while i < |input|
      invariant i <= |input|
      invariant Rewritten(input, false) == out + Rewritten(input[i..], inString)
    {
      var c := input[i];
      Step(input, i, inString);
      if inString && c == '\\' && i + 1 < |input| {
        Appended(out, [c, input[i + 1]], Rewritten(input[i + 2..], true));
        out := out + [c, input[i + 1]];
        i := i + 2;
        continue;
      }
      if inString {
        if c == '"' {
          inString := false;
        }
      } else if c == '"' {
        inString := true;
      } else if c == '-' && i + 1 < |input| && input[i + 1] == '0' &&
        (i + 2 == |input| || !IsNumberByte(input[i + 2])) {
        Appended(out, ['-', '0', '.', '0'], Rewritten(input[i + 2..], false));
        out := out + ['-', '0', '.', '0'];
        i := i + 2;
        continue;
      }
      Appended(out, [c], Rewritten(input[i + 1..], inString));
      out := out + [c];
      i := i + 1;
    }
    assert input[i..] == [] && Rewritten([], inString) == [];
  }

  // ----- idempotence -----

  lemma NoZeroAppears(s: string, inString: bool)
    requires s != [] && !inString && !IsMinusZero(s) && s[0] != '"'
    ensures !IsMinusZero([s[0]] + Rewritten(s[1..], false))
  {
    var rest := Rewritten(s[1..], false);
    if |s| > 2 && s[0] == '-' && s[1] == '0' {
      assert rest == [s[1]] + Rewritten(s[1..][1..], false);
      assert s[1..][1..] == s[2..];
    }
  }

  /** A second pass changes nothing, on any bytes and from either state. */
  lemma {:induction false} Idempotent(s: string, inString: bool)
    ensures Rewritten(Rewritten(s, inString), inString) == Rewritten(s, inString)
    decreases |s|
  {
    var out := Rewritten(s, inString);
    if s == [] {
    } else if inString && s[0] == '\\' && |s| > 1 {
      Idempotent(s[2..], true);
      assert out[2..] == Rewritten(s[2..], true) && out[..2] == s[..2];
    } else if inString || s[0] == '"' {
      var next := if inString then s[0] != '"' else true;
      Idempotent(s[1..], next);
      assert out[1..] == Rewritten(s[1..], next);
    } else if IsMinusZero(s) {
      Idempotent(s[2..], false);
      PlainPrefix(['-', '0', '.', '0'], Rewritten(s[2..], false));
    } else {
      Idempotent(s[1..], false);
      NoZeroAppears(s, inString);
      assert out[1..] == Rewritten(s[1..], false);
    }
  }

  predicate EndsMinusZero(s: string) {
    |s| >= 2 && s[|s| - 2] == '-' && s[|s| - 1] == '0'
  }

  lemma PlainPrefix(zero: string, rest: string)
    requires zero == ['-', '0', '.', '0']
    ensures Rewritten(zero + rest, false) == zero + Rewritten(rest, false)
  {
    hide Rewritten;
    assert zero + rest == ['-'] + (['0'] + (['.'] + (['0'] + rest)));
    PlainStep('0', rest);
    PlainStep('.', ['0'] + rest);
    PlainStep('0', ['.'] + (['0'] + rest));
    PlainStep('-', ['0'] + (['.'] + (['0'] + rest)));
  }

  // ----- what changes -----

  predicate IsRun(s: string) {
    forall i | 0 <= i < |s| :: IsNumberByte(s[i])
  }

  /** A whole run of number bytes gains `.0` exactly when it ends in `-0`. */
  lemma {:induction false} RunRewritten(run: string, rest: string)
    requires IsRun(run) && (rest == [] || !IsNumberByte(rest[0]))
    ensures Rewritten(run + rest, false) ==
      run + (if EndsMinusZero(run) then ['.', '0'] else []) + Rewritten(rest, false)
    decreases |run|
  {
    hide Rewritten;
    var s := run + rest;
    if run == [] {
      assert s == rest;
    } else {
      var next := run[1..];
      assert s == [run[0]] + (next + rest) && run == [run[0]] + next;
      if IsMinusZero(s) {
        assert |run| == 2 && s == ['-', '0'] + rest;
        MinusZeroStep(rest);
      } else {
        PlainStep(run[0], next + rest);
        RunRewritten(next, rest);
        assert EndsMinusZero(run) <==> EndsMinusZero(next);
      }
    }
  }

  lemma MinusZeroStep(rest: string)
    requires rest == [] || !IsNumberByte(rest[0])
    ensures Rewritten(['-', '0'] + rest, false) == ['-', '0', '.', '0'] + Rewritten(rest, false)
  {
    assert (['-', '0'] + rest)[2..] == rest;
  }

  /** The characters between a JSON string's quotes: escapes come in pairs, and no quote stands alone. */
  predicate IsStringBody(s: string)
    decreases |s|
  {
    s == [] ||
    (if s[0] == '\\' then |s| > 1 && IsStringBody(s[2..]) else s[0] != '"' && IsStringBody(s[1..]))
  }

  lemma {:induction false} StringUntouched(body: string, rest: string)
    requires IsStringBody(body)
    ensures Rewritten(body + ['"'] + rest, true) == body + ['"'] + Rewritten(rest, false)
    decreases |body|
  {
    hide Rewritten;
    if body == [] {
      StringStep('"', rest);
      assert [] + ['"'] + rest == ['"'] + rest;
    } else if body[0] == '\\' {
      var after := body[2..] + ['"'] + rest;
      EscapeStep(body[..2], after);
      assert body == body[..2] + body[2..];
      assert body + ['"'] + rest == body[..2] + after;
      StringUntouched(body[2..], rest);
    } else {
      var after := body[1..] + ['"'] + rest;
      StringStep(body[0], after);
      StringUntouched(body[1..], rest);
      assert body == [body[0]] + body[1..];
      assert body + ['"'] + rest == [body[0]] + after;
    }
  }

  lemma StringStep(c: char, after: string)
    requires c != '\\'
    ensures Rewritten([c] + after, true) == [c] + Rewritten(after, c != '"')
  {
    assert ([c] + after)[1..] == after;
  }

  lemma EscapeStep(escape: string, after: string)
    requires |escape| == 2 && escape[0] == '\\'
    ensures Rewritten(escape + after, true) == escape + Rewritten(after, true)
  {
    assert (escape + after)[2..] == after && (escape + after)[..2] == escape;
  }

  // ----- JSON -----

  /** A number of section 6 of RFC 8259. */
  datatype Number = Number(neg: bool, whole: string, fraction: Option<string>, exponent: Option<Exponent>) {
    predicate Valid() {
      whole != [] && AllDigits(whole) && (whole[0] == '0' ==> |whole| == 1) &&
      (fraction.Some? ==> fraction.value != [] && AllDigits(fraction.value)) &&
      (exponent.Some? ==> exponent.value.Valid())
    }

    function Text(): string {
      (if neg then ['-'] else []) + whole +
      (if fraction.Some? then ['.'] + fraction.value else []) +
      (if exponent.Some? then exponent.value.Text() else [])
    }
  }

  datatype Exponent = Exponent(mark: char, sign: Option<char>, digits: string) {
    predicate Valid() {
      (mark == 'e' || mark == 'E') && (sign.Some? ==> sign.value == '+' || sign.value == '-') &&
      digits != [] && AllDigits(digits)
    }

    function Text(): string {
      [mark] + (if sign.Some? then [sign.value] else []) + digits
    }

    predicate MinusZero() {
      sign == Some('-') && digits == ['0']
    }
  }

  const MINUS_ZERO := Number(true, ['0'], None, None)

  lemma TextIsRun(n: Number)
    requires n.Valid()
    ensures IsRun(n.Text())
  {
  }

  /** Where a digit run follows a character that is no minus, its last two characters are no `-0`. */
  lemma DigitsEnd(front: string, digits: string)
    requires digits != [] && AllDigits(digits)
    ensures EndsMinusZero(front + digits) <==> front != [] && front[|front| - 1] == '-' && digits == ['0']
  {
    var s := front + digits;
    if |digits| == 1 {
      assert |s| >= 2 ==> s[|s| - 2] == front[|front| - 1];
    } else {
      assert s[|s| - 2] == digits[|digits| - 2];
    }
  }

  /** A JSON number ends in `-0` when it is `-0`, and also when its exponent is. */
  lemma NumberEnds(n: Number)
    requires n.Valid()
    ensures EndsMinusZero(n.Text()) <==> n == MINUS_ZERO || (n.exponent.Some? && n.exponent.value.MinusZero())
  {
    hide EndsMinusZero, AllDigits;
    var sign := if n.neg then ['-'] else [];
    var fraction := if n.fraction.Some? then ['.'] + n.fraction.value else [];
    if n.exponent.Some? {
      var e := n.exponent.value;
      var front := sign + n.whole + fraction + ([e.mark] + (if e.sign.Some? then [e.sign.value] else []));
      assert n.Text() == front + e.digits;
      DigitsEnd(front, e.digits);
    } else if n.fraction.Some? {
      assert n.Text() == sign + n.whole + ['.'] + n.fraction.value;
      DigitsEnd(sign + n.whole + ['.'], n.fraction.value);
    } else {
      assert n.Text() == sign + n.whole;
      DigitsEnd(sign, n.whole);
    }
  }

  /** JSON text token by token; a mark is any other character, literal names and white space included. */
  datatype Token = Quoted(body: string) | Numeral(n: Number) | Mark(c: char) {
    predicate Valid() {
      match this
      case Quoted(body) => IsStringBody(body)
      case Numeral(n) => n.Valid()
      case Mark(c) => c != '"' && c != '-'
    }

    function Text(): string {
      match this
      case Quoted(body) => ['"'] + body + ['"']
      case Numeral(n) => n.Text()
      case Mark(c) => [c]
    }
  }

  function Concat(tokens: seq<Token>): string {
    if tokens == [] then [] else tokens[0].Text() + Concat(tokens[1..])
  }

  /** Valid tokens, in which nothing that continues a number stands right after one. */
  predicate IsJson(tokens: seq<Token>) {
    tokens == [] ||
    (tokens[0].Valid() && IsJson(tokens[1..]) &&
     (tokens[0].Numeral? ==> Concat(tokens[1..]) == [] || !IsNumberByte(Concat(tokens[1..])[0])))
  }

  predicate HasMinusZeroExponent(t: Token) {
    t.Numeral? && t.n.exponent.Some? && t.n.exponent.value.MinusZero()
  }

  predicate NoMinusZeroExponent(tokens: seq<Token>) {
    forall i | 0 <= i < |tokens| :: !HasMinusZeroExponent(tokens[i])
  }

  function MinusZeroExponents(tokens: seq<Token>): nat {
    if tokens == [] then 0 else (if HasMinusZeroExponent(tokens[0]) then 1 else 0) + MinusZeroExponents(tokens[1..])
  }

  /** The token kept negative: `-0` becomes `-0.0`. */
  function Kept(t: Token): Token {
    if t == Numeral(MINUS_ZERO) then Numeral(MINUS_ZERO.(fraction := Some(['0']))) else t
  }

  function AllKept(tokens: seq<Token>): seq<Token> {
    if tokens == [] then [] else [Kept(tokens[0])] + AllKept(tokens[1..])
  }

  lemma TokenRewritten(t: Token, rest: string)
    requires t.Valid() && (t.Numeral? ==> rest == [] || !IsNumberByte(rest[0]))
    ensures Rewritten(t.Text() + rest, false) ==
      t.Text() + (if t.Numeral? && EndsMinusZero(t.Text()) then ['.', '0'] else []) + Rewritten(rest, false)
  {
    hide Rewritten;
    if t.Numeral? {
      hide *;
      TextIsRun(t.n);
      RunRewritten(t.Text(), rest);
    } else if t.Quoted? {
      QuotedUntouched(t.body, rest);
    } else {
      PlainStep(t.c, rest);
    }
  }

  lemma QuotedUntouched(body: string, rest: string)
    requires IsStringBody(body)
    ensures Rewritten(['"'] + body + ['"'] + rest, false) == ['"'] + body + ['"'] + Rewritten(rest, false)
  {
    var s := ['"'] + body + ['"'] + rest;
    assert s[1..] == body + ['"'] + rest;
    StringUntouched(body, rest);
  }

  lemma KeptText(t: Token)
    requires t.Valid()
    ensures t == Numeral(MINUS_ZERO) ==> Kept(t).Text() == t.Text() + ['.', '0']
    ensures Kept(t).Valid()
  {
    if t == Numeral(MINUS_ZERO) {
      assert t.Text() == ['-', '0'] && Kept(t).Text() == ['-'] + ['0'] + (['.'] + ['0']);
    }
  }

  /** What the pass makes of one token: what keeping it negative makes, unless its exponent is `-0`. */
  lemma TokenKept(t: Token, rest: string)
    requires t.Valid() && (t.Numeral? ==> rest == [] || !IsNumberByte(rest[0]))
    ensures Rewritten(t.Text() + rest, false) ==
      Kept(t).Text() + (if HasMinusZeroExponent(t) then ['.', '0'] else []) + Rewritten(rest, false)
  {
    hide Rewritten, Number.Text, Number.Valid, EndsMinusZero, IsNumberByte;
    TokenRewritten(t, rest);
    KeptText(t);
    if t.Numeral? {
      NumberEnds(t.n);
      assert HasMinusZeroExponent(t) ==> t != Numeral(MINUS_ZERO);
    }
  }

  lemma {:induction false} CountIsZero(tokens: seq<Token>)
    ensures MinusZeroExponents(tokens) == 0 <==> NoMinusZeroExponent(tokens)
    decreases |tokens|
  {
    hide HasMinusZeroExponent;
    if tokens != [] {
      CountIsZero(tokens[1..]);
      assert forall i | 1 <= i < |tokens| :: tokens[i] == tokens[1..][i - 1];
    }
  }

  /** Each `-0` exponent makes the output two characters longer than it should be. */
  lemma {:induction false} OutputLength(tokens: seq<Token>)
    requires IsJson(tokens)
    ensures |Rewritten(Concat(tokens), false)| == |Concat(AllKept(tokens))| + 2 * MinusZeroExponents(tokens)
    ensures MinusZeroExponents(tokens) == 0 ==> Rewritten(Concat(tokens), false) == Concat(AllKept(tokens))
    decreases |tokens|
  {
    hide Rewritten, Kept, Token.Text, Token.Valid, Number.Valid, Exponent.Valid, IsNumberByte, HasMinusZeroExponent;
    if tokens == [] {
      NothingRewritten();
    } else {
      var t, rest := tokens[0], tokens[1..];
      OutputLength(rest);
      TokenKept(t, Concat(rest));
      assert AllKept(tokens)[1..] == AllKept(rest);
    }
  }

  lemma NothingRewritten()
    ensures Rewritten([], false) == []
  {
  }

  /**
    On JSON text the pass rewrites the number tokens `-0`, and nothing else, exactly when no exponent is
    `-0`.
   */
  lemma KeepsJson(tokens: seq<Token>)
    requires IsJson(tokens)
    ensures Rewritten(Concat(tokens), false) == Concat(AllKept(tokens)) <==> NoMinusZeroExponent(tokens)
  {
    hide Rewritten, IsJson, HasMinusZeroExponent;
    OutputLength(tokens);
    CountIsZero(tokens);
  }

  // ----- what becomes of a `-0` exponent -----

  lemma ExponentHasNoPoint(e: Exponent)
    requires e.Valid()
    ensures '.' !in e.Text()
  {
  }

  lemma FrontHasNoMark(n: Number)
    requires n.Valid()
    ensures var front := n.(exponent := None).Text(); 'e' !in front && 'E' !in front
  {
  }

  /** In a number nothing after the exponent's mark is a point. */
  lemma PointBeforeMark(n: Number, i: nat, j: nat)
    requires n.Valid() && i < j < |n.Text()| && (n.Text()[i] == 'e' || n.Text()[i] == 'E')
    ensures n.Text()[j] != '.'
  {
    hide Number.Valid, Exponent.Valid;
    var front := n.(exponent := None).Text();
    FrontHasNoMark(n);
    TextSplits(n);
    assert forall k | 0 <= k < |front| :: n.Text()[k] == front[k] && front[k] in front;
    if n.exponent.Some? {
      ExponentIsValid(n);
      ExponentHasNoPoint(n.exponent.value);
      assert n.Text()[j] == n.exponent.value.Text()[j - |front|];
    }
  }

  lemma ExponentIsValid(n: Number)
    requires n.Valid() && n.exponent.Some?
    ensures n.exponent.value.Valid()
  {
  }

  lemma TextSplits(n: Number)
    ensures n.Text() == n.(exponent := None).Text() + if n.exponent.Some? then n.exponent.value.Text() else []
  {
  }

  /** A number with a `-0` exponent becomes the text of no number at all. */
  lemma MinusZeroExponentBreaks(n: Number, other: Number)
    requires n.Valid() && HasMinusZeroExponent(Numeral(n)) && other.Valid()
    ensures Rewritten(n.Text(), false) == n.Text() + ['.', '0']
    ensures Rewritten(n.Text(), false) != other.Text()
  {
    hide Rewritten, Number.Valid, Exponent.Valid;
    TextIsRun(n);
    RunRewritten(n.Text(), []);
    assert n.Text() + [] == n.Text();
    NothingRewritten();
    NumberEnds(n);
    MarkLies(n);
    if n.Text() + ['.', '0'] == other.Text() {
      PointBeforeMark(other, |n.(exponent := None).Text()|, |n.Text()|);
    }
  }

  lemma MarkLies(n: Number)
    requires n.Valid() && n.exponent.Some?
    ensures var i := |n.(exponent := None).Text()|;
      i < |n.Text()| && (n.Text()[i] == 'e' || n.Text()[i] == 'E')
  {
    TextSplits(n);
  }

  /** `1e-0` is such a number: its text is rewritten to `1e-0.0`, which no number has. */
  lemma OneToTheMinusZero(other: Number)
    requires other.Valid()
    ensures var n := Number(false, ['1'], None, Some(Exponent('e', Some('-'), ['0'])));
      n.Valid() && n.Text() == "1e-0"
    ensures Rewritten("1e-0", false) == "1e-0.0" && "1e-0.0" != other.Text()
  {
    hide Rewritten;
    var n := Number(false, ['1'], None, Some(Exponent('e', Some('-'), ['0'])));
    assert n.Valid() && HasMinusZeroExponent(Numeral(n)) && n.Text() == "1e-0";
    MinusZeroExponentBreaks(n, other);
    assert "1e-0" + ['.', '0'] == "1e-0.0";
  }
}
