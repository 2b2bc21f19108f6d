/** Comparing `string(x)` with a literal as a numeric comparison against the one double so spelled. */
module NumberStrings {
  import opened Wrappers
  import opened Texts
  import D = Doubles
  import opened DoubleText
  import opened Cel
  import opened DoubleReading
  import opened ThreeValued

  // ----- the second printer -----

  /** The lowering's own layout of sign, digits and exponent. */
  function FormatCel(neg: bool, d: Decimal): string
    requires d.digits != []
  {
    var sign := if neg then "-" else "";
    if d.exponent < -4 || d.exponent >= 6 then ExponentForm(sign, d)
    else if d.exponent < 0 then sign + "0." + Zeros(-d.exponent - 1) + d.digits
    else
      var integerDigits := d.exponent + 1;
      if |d.digits| <= integerDigits then sign + d.digits + Zeros(integerDigits - |d.digits|)
      else sign + d.digits[..integerDigits] + "." + d.digits[integerDigits..]
  }

  /** A zero is printed through the same layout, its one digit being 0. */
  function FormatCelDouble(x: D.Double, host: Host): string {
    match x
    case NaN => "NaN"
    case Inf(neg) => if neg then "-Inf" else "+Inf"
    case Fin(neg, mag) =>
      var shortest := if mag == 0.0 then Decimal("0", 0) else host.shortest(x);
      if shortest.digits == [] then "" else FormatCel(neg, shortest)
  }

  /** The two printers agree on every double. */
  lemma PrintersAgree(x: D.Double, host: Host)
    ensures FormatCelDouble(x, host) == FormatDouble(x, host)
  {
    hide ExponentForm;
    if x.Fin? && x.mag == 0.0 {
      var sign := if x.neg then "-" else "";
      assert sign + "0" + Zeros(0) == sign + "0";
    }
  }

  /**
    What is taken of the engine, over the doubles IEEE 754 represents: their shortest digits read back to
    them, a zero keeps its sign, and the non-finite names are no number literals.
   */
  ghost predicate RoundTrips(host: Host, doubles: iset<D.Double>) {
    (forall x <- doubles :: NonZero(x) ==> Canonical(host.shortest(x))) &&
    (forall x <- doubles, s: string ::
      NonZero(x) && ReadDecimal(s) == Some((x.neg, host.shortest(x))) ==> host.number(s) == x) &&
    (forall s: string, neg: bool :: ReadDecimal(s) == Some((neg, ZERO)) ==> host.number(s) == D.Fin(neg, 0.0)) &&
    host.number("NaN").NaN? && host.number("+Inf").NaN? && host.number("-Inf").NaN?
  }

  predicate NonZero(x: D.Double) {
    x.Fin? && x.mag > 0.0
  }

  // ----- the inverse -----

  predicate IsBlank(c: char) {
    c == ' ' || '\t' <= c <= '\r' || c == '\U{a0}' || c == '\U{feff}' || c == '\U{2028}' || c == '\U{2029}'
  }

  /** The double CEL spells `text`, if any. */
  function ParseCelDouble(text: string, host: Host): Option<D.Double> {
    if (exists i | 0 <= i < |text| :: !IsBlank(text[i])) && FormatCelDouble(host.number(text), host) == text
    then Some(host.number(text)) else None
  }

  lemma PrintedIsRead(x: D.Double, host: Host, doubles: iset<D.Double>)
    requires RoundTrips(host, doubles) && x.Fin? && x in doubles
    ensures host.number(FormatDouble(x, host)) == x && IsDoubleText(FormatDouble(x, host))
  {
    hide IsDoubleText, ReadDecimal, FormatGo;
    if x.mag > 0.0 {
      ReadsBack(x.neg, host.shortest(x));
      assert host.shortest(x).digits != [];
    } else {
      ZeroReads(x.neg);
    }
  }

  lemma ZeroReads(neg: bool)
    ensures ReadDecimal(if neg then "-0" else "0") == Some((neg, ZERO))
  {
    LayoutReads(neg, ['0'], [], [], 0);
    assert SignText(neg) + (['0'] + PointText([]) + []) == if neg then "-0" else "0";
    assert Normal(['0'] + [], 0) == ZERO;
  }

  /** CEL's `double(string(x))` is `x`, for every finite double and with the sign of its zero. */
  lemma DoubleOfString(x: D.Double, host: Host, doubles: iset<D.Double>)
    requires RoundTrips(host, doubles) && x.Fin? && x in doubles
    ensures var text := ConvertToString(Num(x), false, host);
      text.Ok? && ConvertToDouble(text.value, host) == Ok(Num(x))
  {
    hide FormatDouble, RoundTrips, IsDoubleText;
    PrintedIsRead(x, host, doubles);
  }

  lemma TextShows(x: D.Double, host: Host, doubles: iset<D.Double>)
    requires RoundTrips(host, doubles) && x in doubles
    ensures exists i | 0 <= i < |FormatDouble(x, host)| :: !IsBlank(FormatDouble(x, host)[i])
  {
    hide RoundTrips, FormatDouble, IsDoubleText, IsBlank;
    if x.Fin? {
      PrintedIsRead(x, host, doubles);
      NumeralShows(FormatDouble(x, host));
    } else {
      NameShows(x, host);
    }
  }

  lemma NameShows(x: D.Double, host: Host)
    requires !x.Fin?
    ensures exists i | 0 <= i < |FormatDouble(x, host)| :: !IsBlank(FormatDouble(x, host)[i])
  {
    assert FormatDouble(x, host)[1] == 'a' || FormatDouble(x, host)[1] == 'I';
  }

  lemma NumeralShows(s: string)
    requires IsDoubleText(s)
    ensures exists i | 0 <= i < |s| :: !IsBlank(s[i])
  {
    var body := Unsigned(s);
    var (i, a, b) := DecimalCuts(body);
    var at := if i > 0 then 0 else a;
    var digits := if i > 0 then body[..i] else body[a..b];
    assert IsDigit(digits[0]) && body[at] == digits[0];
    assert exists j :: 0 <= j < |s| && s[j] == body[at];
  }

  /** The inverse finds exactly the finite double that CEL spells that way. */
  lemma InverseIsExact(x: D.Double, text: string, host: Host, doubles: iset<D.Double>)
    requires RoundTrips(host, doubles) && x.Fin? && x in doubles
    ensures FormatDouble(x, host) == text <==> ParseCelDouble(text, host) == Some(x)
  {
    hide FormatDouble, IsDoubleText, IsBlank, FormatCelDouble;
    PrintersAgree(host.number(text), host);
    if FormatDouble(x, host) == text {
      PrintedIsRead(x, host, doubles);
      TextShows(x, host, doubles);
    }
  }

  // ----- the comparison -----

  /** `x = target`, `x <> target`, or a constant for every present row. */
  datatype NumberComparison = Against(target: D.Double) | Constant

  datatype StringComparison = StringComparison(equal: bool, comparison: NumberComparison, negated: bool)

  function BuildNumberStringComparison(equal: bool, literal: string, negated: bool, host: Host):
    Translation<StringComparison>
  {
    var target := ParseCelDouble(literal, host);
    if target.Some? && !NonZero(target.value) then Refused
    else Done(StringComparison(equal, if target.Some? then Against(target.value) else Constant, negated))
  }

  function Holds(c: StringComparison, column: Option<D.Double>): Tri {
    if column.None? then Unknown
    else
      var same := c.comparison.Against? && D.Same(column.value, c.comparison.target);
      WithPolarity(OfTruth(same == c.equal), c.negated)
  }

  /** CEL's comparison of `string(x)` with the literal: an error where the column is missing. */
  function StringAnswer(equal: bool, literal: string, negated: bool, column: Option<D.Double>, host: Host): Tri {
    if column.None? then Unknown
    else WithPolarity(TriOf(CompareValues(if equal then Eq else Ne,
      ConvertToString(Num(column.value), false, host).value, Str(literal))), negated)
  }

  lemma SameIsEqual(x: D.Double, target: D.Double)
    requires NonZero(target)
    ensures D.Same(x, target) <==> x == target
  {
  }

  /** An infinite column's spelling, which no number literal reads back to. */
  lemma InfinityIsUnread(neg: bool, host: Host, doubles: iset<D.Double>)
    requires RoundTrips(host, doubles)
    ensures ParseCelDouble(FormatDouble(D.Inf(neg), host), host).None?
  {
    var text := FormatDouble(D.Inf(neg), host);
    assert host.number(text).NaN?;
    assert text[1] == 'I' && "NaN"[1] == 'a';
  }

  /**
    The numeric comparison answers `string(x) == literal` on every row, with one exact exception: an
    infinite column compared with its own spelling, which is answered as different.
   */
  lemma NumberStringCorrect(equal: bool, literal: string, negated: bool, column: Option<D.Double>, host: Host,
      doubles: iset<D.Double>)
    requires RoundTrips(host, doubles) && (column.Some? ==> column.value in doubles)
    requires BuildNumberStringComparison(equal, literal, negated, host).Done?
    ensures var c := BuildNumberStringComparison(equal, literal, negated, host).result;
      Holds(c, column) == StringAnswer(equal, literal, negated, column, host) <==>
      !(column.Some? && column.value.Inf? && FormatDouble(column.value, host) == literal)
  {
    hide FormatDouble, ParseCelDouble, RoundTrips;
    if column.Some? {
      ColumnDecides(column.value, literal, host, doubles);
    }
  }

  lemma ColumnDecides(x: D.Double, literal: string, host: Host, doubles: iset<D.Double>)
    requires RoundTrips(host, doubles) && x in doubles
    requires ParseCelDouble(literal, host).None? || NonZero(ParseCelDouble(literal, host).value)
    ensures var target := ParseCelDouble(literal, host);
      var same := target.Some? && D.Same(x, target.value);
      same == (FormatDouble(x, host) == literal) <==> !(x.Inf? && FormatDouble(x, host) == literal)
  {
    hide FormatDouble, ParseCelDouble, RoundTrips;
    var target := ParseCelDouble(literal, host);
    if target.Some? {
      SameIsEqual(x, target.value);
    }
    if x.Fin? {
      InverseIsExact(x, literal, host, doubles);
    } else if x.Inf? {
      InfinityIsUnread(x.neg, host, doubles);
    } else {
      NaNIsRead(literal, host, doubles);
    }
  }

  lemma NaNIsRead(literal: string, host: Host, doubles: iset<D.Double>)
    requires RoundTrips(host, doubles)
    ensures FormatDouble(D.NaN, host) == literal ==> ParseCelDouble(literal, host) == Some(D.NaN)
  {
    assert FormatDouble(D.NaN, host)[1] == 'a' && !IsBlank('a');
  }

  /** The lowering refuses exactly the spellings of zero, whose sign a column loses, and of NaN. */
  lemma RefusesZeroAndNaN(equal: bool, literal: string, negated: bool, host: Host, doubles: iset<D.Double>)
    requires RoundTrips(host, doubles)
    ensures BuildNumberStringComparison(equal, literal, negated, host).Refused? <==> literal in ["0", "-0", "NaN"]
  {
    hide RoundTrips, ParseCelDouble;
    ZeroParsed(false, host, doubles);
    ZeroParsed(true, host, doubles);
    NaNParsed(host, doubles);
    if literal !in ["0", "-0", "NaN"] {
      OthersParsed(literal, host, doubles);
    }
  }

  lemma ZeroParsed(neg: bool, host: Host, doubles: iset<D.Double>)
    requires RoundTrips(host, doubles)
    ensures ParseCelDouble(if neg then "-0" else "0", host) == Some(D.Fin(neg, 0.0))
  {
    hide ReadDecimal, FormatCelDouble;
    var text := if neg then "-0" else "0";
    ZeroReads(neg);
    ZeroPrinted(host);
    assert text[|text| - 1] == '0' && !IsBlank('0');
  }

  lemma NaNParsed(host: Host, doubles: iset<D.Double>)
    requires RoundTrips(host, doubles)
    ensures ParseCelDouble("NaN", host) == Some(D.NaN)
  {
    hide ReadDecimal;
    assert "NaN"[0] == 'N' && !IsBlank('N');
  }

  lemma OthersParsed(literal: string, host: Host, doubles: iset<D.Double>)
    requires RoundTrips(host, doubles) && literal !in ["0", "-0", "NaN"]
    ensures var target := ParseCelDouble(literal, host); target.Some? ==> NonZero(target.value)
  {
    hide ReadDecimal, FormatCel, IsBlank;
    var x := host.number(literal);
    if x.IsZero() {
      ZeroPrinted(host);
    } else if x.Inf? {
      InfinityIsUnread(x.neg, host, doubles);
      PrintersAgree(x, host);
    }
  }

  lemma ZeroPrinted(host: Host)
    ensures FormatCelDouble(D.Fin(false, 0.0), host) == "0" && FormatCelDouble(D.Fin(true, 0.0), host) == "-0"
  {
  }

  /**
    `string(R.x) == "+Inf"` drops the row whose column is infinite, where CEL is true, and
    `string(R.x) != "+Inf"` keeps it, where CEL is false.
   */
  lemma InfiniteColumnMisread(equal: bool, host: Host, doubles: iset<D.Double>)
    requires RoundTrips(host, doubles)
    ensures var c, column := BuildNumberStringComparison(equal, "+Inf", false, host), Some(D.Inf(false));
      c.Done? && Holds(c.result, column) == OfTruth(!equal) &&
      StringAnswer(equal, "+Inf", false, column, host) == OfTruth(equal)
  {
    hide FormatDouble, ParseCelDouble, RoundTrips;
    assert FormatDouble(D.Inf(false), host) == "+Inf" by { SpellsInfinity(host); }
    InfinityIsUnread(false, host, doubles);
  }

  lemma SpellsInfinity(host: Host)
    ensures FormatDouble(D.Inf(false), host) == "+Inf"
  {
  }
}
