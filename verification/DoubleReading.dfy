/** Reading a decimal spelling back: the digits, exponent and sign that CEL's `string()` printed. */
module DoubleReading {
  import opened Wrappers
  import opened Texts
  import opened DoubleText
  import opened Cel

  /** Digits as a shortest spelling has them: at least one, with no zero at either end. */
  predicate Canonical(d: Decimal) {
    d.digits != [] && AllDigits(d.digits) && d.digits[0] != '0' && d.digits[|d.digits| - 1] != '0'
  }

  /** The spelling of zero, which has no digits of its own. */
  const ZERO := Decimal([], 0)

  function WithoutTrailingZeros(m: string): string {
    if m != [] && m[|m| - 1] == '0' then WithoutTrailingZeros(m[..|m| - 1]) else m
  }

  /** The digits `m`, the first of them worth `10^exponent`, without the zeros at either end. */
  function Normal(m: string, exponent: int): Decimal {
    if m == [] then ZERO
    else if m[0] == '0' then Normal(m[1..], exponent - 1)
    else Decimal(WithoutTrailingZeros(m), exponent)
  }

  function IntValue(s: string): int
    requires IsIntText(s)
  {
    if s[0] == '-' then 0 - NatValue(Unsigned(s)) as int else NatValue(Unsigned(s))
  }

  function ExponentValue(tail: string): int
    requires IsExponentText(tail)
  {
    if tail == [] then 0 else IntValue(tail[1..])
  }

  function ReadUnsigned(body: string): Option<Decimal> {
    var (i, a, b) := DecimalCuts(body);
    if i + (b - a) == 0 || !IsExponentText(body[b..]) then None
    else Some(Normal(body[..i] + body[a..b], i - 1 + ExponentValue(body[b..])))
  }

  /** The decimal a number literal spells, of those `double()` accepts. */
  function ReadDecimal(s: string): (r: Option<(bool, Decimal)>)
    ensures r.Some? <==> IsDoubleText(s)
  {
    var d := ReadUnsigned(Unsigned(s));
    if d.None? then None else Some((s != [] && s[0] == '-', d.value))
  }

  // ----- what a layout reads as -----

  /** An exponent as the printers write it. */
  function ExponentText(exponent: int): string {
    ['e', if exponent < 0 then '-' else '+'] + PadTwo(if exponent < 0 then -exponent else exponent)
  }

  function SignText(neg: bool): string {
    if neg then ['-'] else []
  }

  function PointText(fraction: string): string {
    if fraction == [] then [] else ['.'] + fraction
  }

  lemma ExponentReads(exponent: int)
    ensures var text := ExponentText(exponent)[1..];
      IsIntText(text) && IntValue(text) == exponent
    ensures IsExponentText(ExponentText(exponent)) && ExponentValue(ExponentText(exponent)) == exponent
  {
    var text := ExponentText(exponent)[1..];
    assert text[1..] == PadTwo(if exponent < 0 then -exponent else exponent);
  }

  lemma SignReads(neg: bool, body: string)
    requires body != [] && IsDigit(body[0])
    ensures var s := SignText(neg) + body;
      Unsigned(s) == body && (s[0] == '-' <==> neg)
  {
    var s := SignText(neg) + body;
    if neg {
      assert s[1..] == body;
    } else {
      assert s == body;
    }
  }

  lemma TailStarts(tail: string)
    requires IsExponentText(tail)
    ensures tail == [] || !StartsNumber(tail[0])
  {
  }

  lemma BodyReads(whole: string, point: string, fraction: string, tail: string)
    requires whole != [] && AllDigits(whole) && AllDigits(fraction) && IsExponentText(tail)
    requires point == ['.'] || (point == [] && fraction == [])
    ensures ReadUnsigned(whole + point + fraction + tail) ==
      Some(Normal(whole + fraction, |whole| - 1 + ExponentValue(tail)))
  {
    hide Normal, DecimalCuts, IsExponentText, ExponentValue, AllDigits;
    TailStarts(tail);
    DecimalCutsOf(whole, point, fraction, tail);
  }

  lemma LayoutReads(neg: bool, whole: string, fraction: string, tail: string, exponent: int)
    requires whole != [] && AllDigits(whole) && AllDigits(fraction)
    requires if tail == [] then exponent == 0 else tail == ExponentText(exponent)
    ensures ReadDecimal(SignText(neg) + (whole + PointText(fraction) + tail)) ==
      Some((neg, Normal(whole + fraction, |whole| - 1 + exponent)))
  {
    hide *;
    var point := if fraction == [] then [] else ['.'];
    TailReads(tail, exponent);
    LaidOut(whole, point, fraction, tail);
    BodyReads(whole, point, fraction, tail);
    SignedReads(neg, whole + point + fraction + tail);
  }

  lemma TailReads(tail: string, exponent: int)
    requires if tail == [] then exponent == 0 else tail == ExponentText(exponent)
    ensures IsExponentText(tail) && ExponentValue(tail) == exponent
  {
    ExponentReads(exponent);
  }

  lemma LaidOut(whole: string, point: string, fraction: string, tail: string)
    requires whole != [] && AllDigits(whole) && point == if fraction == [] then [] else ['.']
    ensures var body := whole + point + fraction + tail;
      whole + PointText(fraction) + tail == body && body != [] && IsDigit(body[0])
  {
    var body := whole + point + fraction + tail;
    assert body[0] == whole[0];
  }

  lemma SignedReads(neg: bool, body: string)
    requires body != [] && IsDigit(body[0]) && ReadUnsigned(body).Some?
    ensures ReadDecimal(SignText(neg) + body) == Some((neg, ReadUnsigned(body).value))
  {
    hide ReadUnsigned, IsDoubleText, SignText, Unsigned;
    SignReads(neg, body);
  }

  // ----- the layouts read back -----

  lemma {:induction false} NormalLeading(n: nat, m: string, exponent: int)
    ensures Normal(Zeros(n) + m, exponent) == Normal(m, exponent - n)
    decreases n
  {
    if n == 0 {
      assert Zeros(0) + m == m;
    } else {
      assert (Zeros(n) + m)[1..] == Zeros(n - 1) + m;
      NormalLeading(n - 1, m, exponent - 1);
    }
  }

  lemma {:induction false} TrailingDropped(m: string, n: nat)
    requires m != [] && m[|m| - 1] != '0'
    ensures WithoutTrailingZeros(m + Zeros(n)) == m
    decreases n
  {
    if n == 0 {
      assert m + Zeros(0) == m;
    } else {
      assert (m + Zeros(n))[..|m| + n - 1] == m + Zeros(n - 1);
      TrailingDropped(m, n - 1);
    }
  }

  lemma CanonicalNormal(d: Decimal, n: nat)
    requires Canonical(d)
    ensures Normal(d.digits + Zeros(n), d.exponent) == d
    ensures Normal(d.digits, d.exponent) == d
  {
    TrailingDropped(d.digits, n);
    TrailingDropped(d.digits, 0);
    assert d.digits + Zeros(0) == d.digits;
  }

  /** What Go's layout prints for a double reads back as its sign, digits and exponent. */
  lemma ReadsBack(neg: bool, d: Decimal)
    requires Canonical(d)
    ensures ReadDecimal(FormatGo(neg, d)) == Some((neg, d))
  {
    hide ReadDecimal, ExponentForm, Canonical, Zeros, IsDoubleText;
    CanonicalDigits(d);
    var pointAt := d.exponent + 1;
    if d.exponent < -4 || d.exponent >= 6 {
      ExponentReadsBack(neg, d);
    } else if pointAt <= 0 {
      SmallReadsBack(neg, d);
    } else if pointAt >= |d.digits| {
      WholeReadsBack(neg, d);
    } else {
      SplitReadsBack(neg, d);
    }
  }

  lemma ExponentReadsBack(neg: bool, d: Decimal)
    requires Canonical(d)
    ensures ReadDecimal(ExponentForm(SignText(neg), d)) == Some((neg, d))
  {
    hide ReadDecimal, Normal, PadTwo;
    var whole, fraction := d.digits[..1], d.digits[1..];
    assert whole + fraction == d.digits;
    DigitsOf(d, 1);
    LayoutReads(neg, whole, fraction, ExponentText(d.exponent), d.exponent);
    CanonicalNormal(d, 0);
    ExponentFormIs(neg, d);
  }

  lemma ExponentFormIs(neg: bool, d: Decimal)
    requires d.digits != []
    ensures ExponentForm(SignText(neg), d) ==
      SignText(neg) + (d.digits[..1] + PointText(d.digits[1..]) + ExponentText(d.exponent))
  {
    hide PadTwo, SignText;
    var first, point := d.digits[..1], PointText(d.digits[1..]);
    var mark := if d.exponent < 0 then "-" else "+";
    var magnitude := PadTwo(if d.exponent < 0 then -d.exponent else d.exponent);
    assert ExponentText(d.exponent) == "e" + mark + magnitude;
    assert ExponentForm(SignText(neg), d) == SignText(neg) + first + point + "e" + mark + magnitude;
  }

  lemma DigitsOf(d: Decimal, n: nat)
    requires AllDigits(d.digits) && n <= |d.digits|
    ensures AllDigits(d.digits[..n]) && AllDigits(d.digits[n..])
  {
  }

  lemma SmallReadsBack(neg: bool, d: Decimal)
    requires Canonical(d) && d.exponent < 0
    ensures ReadDecimal(SignText(neg) + "0." + Zeros(-d.exponent - 1) + d.digits) == Some((neg, d))
  {
    hide ReadDecimal, Normal, Canonical, IsDoubleText, SignText;
    CanonicalDigits(d);
    var n := -d.exponent - 1;
    var fraction := Zeros(n) + d.digits;
    LayoutReads(neg, ['0'], fraction, [], 0);
    assert ['0'] + fraction == Zeros(n + 1) + d.digits;
    NormalLeading(n + 1, d.digits, 0);
    CanonicalNormal(d, 0);
    var s := SignText(neg);
    assert s + (['0'] + PointText(fraction) + []) == s + "0." + Zeros(n) + d.digits;
  }

  lemma CanonicalDigits(d: Decimal)
    requires Canonical(d)
    ensures d.digits != [] && AllDigits(d.digits)
  {
  }

  lemma WholeReadsBack(neg: bool, d: Decimal)
    requires Canonical(d) && d.exponent + 1 >= |d.digits|
    ensures ReadDecimal(SignText(neg) + d.digits + Zeros(d.exponent + 1 - |d.digits|)) == Some((neg, d))
  {
    hide ReadDecimal, Normal, Canonical, IsDoubleText, SignText;
    CanonicalDigits(d);
    var zeros := Zeros(d.exponent + 1 - |d.digits|);
    LayoutReads(neg, d.digits + zeros, [], [], 0);
    CanonicalNormal(d, |zeros|);
    assert d.digits + zeros + [] == d.digits + zeros;
    assert SignText(neg) + (d.digits + zeros + PointText([]) + []) == SignText(neg) + d.digits + zeros;
  }

  lemma SplitReadsBack(neg: bool, d: Decimal)
    requires Canonical(d) && 0 < d.exponent + 1 < |d.digits|
    ensures var at := d.exponent + 1;
      ReadDecimal(SignText(neg) + d.digits[..at] + "." + d.digits[at..]) == Some((neg, d))
  {
    hide ReadDecimal, Normal, Canonical, IsDoubleText, SignText;
    CanonicalDigits(d);
    var at := d.exponent + 1;
    var whole, fraction := d.digits[..at], d.digits[at..];
    DigitsOf(d, at);
    LayoutReads(neg, whole, fraction, [], 0);
    CanonicalNormal(d, 0);
    assert whole + fraction == d.digits;
    assert SignText(neg) + (whole + PointText(fraction) + []) == SignText(neg) + whole + "." + fraction;
  }

  // ----- what the printed text determines -----

  /** Different doubles are spelled differently. */
  lemma SpellingsDiffer(neg: bool, d: Decimal, otherNeg: bool, other: Decimal)
    requires Canonical(d) && Canonical(other)
    requires FormatGo(neg, d) == FormatGo(otherNeg, other)
    ensures neg == otherNeg && d == other
  {
    ReadsBack(neg, d);
    ReadsBack(otherNeg, other);
  }
}
