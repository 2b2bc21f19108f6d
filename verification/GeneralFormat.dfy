/** The language of Go's %g spellings, and that CEL's `string()` prints the only one a double has. */
module GeneralFormat {
  import opened Wrappers
  import opened Texts
  import opened DoubleText
  import opened Cel
  import opened DoubleReading

  /** `whole[.fraction]`, or one digit, a fraction and a signed power of ten. */
  datatype Layout =
    | Positional(whole: string, fraction: string)
    | Scientific(lead: char, fraction: string, below: bool, power: string)

  function Point(fraction: string): string {
    if fraction == [] then [] else "." + fraction
  }

  function Written(neg: bool, l: Layout): string {
    (if neg then "-" else "") +
    match l
    case Positional(whole, fraction) => whole + Point(fraction)
    case Scientific(lead, fraction, below, power) =>
      [lead] + Point(fraction) + ['e', if below then '-' else '+'] + power
  }

  predicate NoTrailingZero(fraction: string) {
    fraction != [] ==> fraction[|fraction| - 1] != '0'
  }

  /** No digit is superfluous: a whole part or a power begins with 0 only where it must. */
  predicate Plain(l: Layout) {
    AllDigits(l.fraction) && NoTrailingZero(l.fraction) &&
    match l
    case Positional(whole, _) => whole != [] && AllDigits(whole) && (whole[0] == '0' ==> |whole| == 1)
    case Scientific(lead, _, _, power) =>
      IsDigit(lead) && lead != '0' && AllDigits(power) && |power| >= 2 && (|power| > 2 ==> power[0] != '0')
  }

  /** Whether %g writes a power of ten: the shortest form does below 10^-4 and from 10^6. */
  predicate TakesPower(exponent: int) {
    exponent < -4 || exponent >= 6
  }

  /** A text spells a decimal of that exponent as %g does. */
  predicate IsLayoutOf(text: string, neg: bool, l: Layout, exponent: int) {
    Plain(l) && text == Written(neg, l) && (l.Scientific? <==> TakesPower(exponent))
  }

  ghost predicate GeneralText(text: string, exponent: int) {
    exists neg, l :: IsLayoutOf(text, neg, l, exponent)
  }

  // ----- numerals -----

  lemma LastDigit(s: string)
    requires s != [] && AllDigits(s)
    ensures AllDigits(s[..|s| - 1]) && NatValue(s) == 10 * NatValue(s[..|s| - 1]) + DigitValue(s[|s| - 1])
    ensures 0 <= DigitValue(s[|s| - 1]) <= 9
  {
  }

  lemma SameDigit(a: char, b: char)
    requires IsDigit(a) && IsDigit(b) && DigitValue(a) == DigitValue(b)
    ensures a == b
  {
  }

  /** Digits of one length are told apart by their value. */
  lemma {:induction false} SameLength(a: string, b: string)
    requires AllDigits(a) && AllDigits(b) && |a| == |b| && NatValue(a) == NatValue(b)
    ensures a == b
    decreases |a|
  {
    if a != [] {
      LastDigit(a);
      LastDigit(b);
      SameLength(a[..|a| - 1], b[..|b| - 1]);
      SameDigit(a[|a| - 1], b[|b| - 1]);
      assert a == a[..|a| - 1] + [a[|a| - 1]] && b == b[..|b| - 1] + [b[|b| - 1]];
    }
  }

  /** Three digits without a leading zero make a hundred, and two do not. */
  lemma {:induction false} LongIsLarge(s: string)
    requires AllDigits(s) && s != [] && s[0] != '0'
    ensures NatValue(s) >= 1
    ensures |s| >= 2 ==> NatValue(s) >= 10
    ensures |s| >= 3 ==> NatValue(s) >= 100
    decreases |s|
  {
    LastDigit(s);
    if |s| > 1 {
      LongIsLarge(s[..|s| - 1]);
    } else {
      assert s[..0] == [];
    }
  }

  lemma TwoIsSmall(s: string)
    requires AllDigits(s) && |s| == 2
    ensures NatValue(s) < 100
  {
    LastDigit(s);
    LastDigit(s[..1]);
    assert s[..1][..0] == [];
  }

  predicate IsPower(s: string) {
    AllDigits(s) && |s| >= 2 && (|s| > 2 ==> s[0] != '0')
  }

  /** Numerals of at least two digits, zero-led only to make two, are told apart by their value. */
  lemma PowersDiffer(a: string, b: string)
    requires IsPower(a) && IsPower(b) && NatValue(a) == NatValue(b)
    ensures a == b
  {
    if |a| > 2 && |b| > 2 {
      NumeralsDiffer(a, b);
    } else if |a| > 2 {
      LongIsLarge(a);
      TwoIsSmall(b);
    } else if |b| > 2 {
      LongIsLarge(b);
      TwoIsSmall(a);
    } else {
      SameLength(a, b);
    }
  }

  lemma {:induction false} NumeralsDiffer(a: string, b: string)
    requires AllDigits(a) && AllDigits(b) && a != [] && b != [] && a[0] != '0' && b[0] != '0'
    requires NatValue(a) == NatValue(b)
    ensures a == b
    decreases |a|
  {
    LastDigit(a);
    LastDigit(b);
    LongIsLarge(a);
    LongIsLarge(b);
    if |a| == 1 || |b| == 1 {
      OneIsSmall(if |a| == 1 then a else b);
      SameLength(a, b);
    } else {
      NumeralsDiffer(a[..|a| - 1], b[..|b| - 1]);
      SameLength(a, b);
    }
  }

  lemma OneIsSmall(s: string)
    requires AllDigits(s) && |s| == 1
    ensures NatValue(s) < 10
  {
    LastDigit(s);
    assert s[..0] == [];
  }

  /** The printer pads a power to two digits and no further. */
  lemma PaddedIsPower(n: nat)
    ensures IsPower(PadTwo(n)) && NatValue(PadTwo(n)) == n
  {
  }

  // ----- what a layout reads as -----

  /** The digits a layout lists. */
  function Listed(l: Layout): string {
    match l
    case Positional(whole, fraction) => whole + fraction
    case Scientific(lead, fraction, _, _) => [lead] + fraction
  }

  function Place(l: Layout): int
    requires Plain(l)
  {
    match l
    case Positional(whole, _) => |whole| - 1
    case Scientific(_, _, _, _) => Power(l)
  }

  function Power(l: Layout): int
    requires l.Scientific? && AllDigits(l.power)
  {
    if l.below then 0 - NatValue(l.power) as int else NatValue(l.power)
  }

  lemma PowerReads(below: bool, power: string)
    requires AllDigits(power) && power != []
    ensures var tail := ['e', if below then '-' else '+'] + power;
      IsExponentText(tail) &&
      ExponentValue(tail) == if below then 0 - NatValue(power) as int else NatValue(power)
  {
    var tail := ['e', if below then '-' else '+'] + power;
    assert tail[1..] == [if below then '-' else '+'] + power;
    assert tail[1..][1..] == power;
  }

  /** A layout's parts as the reader cuts them: the point, and the tail of a power. */
  function PointPart(l: Layout): string {
    if l.fraction == [] then [] else ['.']
  }

  function WholePart(l: Layout): string {
    match l
    case Positional(whole, _) => whole
    case Scientific(lead, _, _, _) => [lead]
  }

  function TailPart(l: Layout): string {
    match l
    case Positional(_, _) => []
    case Scientific(_, _, below, power) => ['e', if below then '-' else '+'] + power
  }

  lemma PartsWritten(neg: bool, l: Layout)
    ensures Written(neg, l) ==
      SignText(neg) + (WholePart(l) + PointPart(l) + l.fraction + TailPart(l))
  {
    var whole, point, tail := WholePart(l), PointPart(l), TailPart(l);
    assert point + l.fraction == Point(l.fraction);
    assert whole + point + l.fraction + tail == whole + (point + l.fraction) + tail;
    match l
    case Positional(_, fraction) =>
      assert whole + Point(fraction) + [] == whole + Point(fraction);
    case Scientific(lead, fraction, below, power) =>
      assert [lead] + Point(fraction) + ['e', if below then '-' else '+'] + power == whole + Point(fraction) + tail;
  }

  lemma PartsArePlain(l: Layout)
    requires Plain(l)
    ensures WholePart(l) != [] && AllDigits(WholePart(l)) && AllDigits(l.fraction)
    ensures IsExponentText(TailPart(l)) && |WholePart(l)| - 1 + ExponentValue(TailPart(l)) == Place(l)
    ensures WholePart(l) + l.fraction == Listed(l)
  {
    hide NatValue;
    match l
    case Positional(_, _) =>
      NoTail();
    case Scientific(_, _, below, power) =>
      PowerReads(below, power);
  }

  /** A plain layout reads as its sign, and the digits it lists at their place. */
  lemma ReadsAs(neg: bool, l: Layout)
    requires Plain(l)
    ensures ReadDecimal(Written(neg, l)) == Some((neg, Normal(Listed(l), Place(l))))
  {
    hide *;
    hide Plain, Normal, Listed, Place, PointPart;
    PartsArePlain(l);
    PointIs(l);
    BodyReads(WholePart(l), PointPart(l), l.fraction, TailPart(l));
    BodyStarts(WholePart(l), PointPart(l) + l.fraction + TailPart(l));
    assert WholePart(l) + (PointPart(l) + l.fraction + TailPart(l)) ==
      WholePart(l) + PointPart(l) + l.fraction + TailPart(l);
    SignedReads(neg, WholePart(l) + PointPart(l) + l.fraction + TailPart(l));
    PartsWritten(neg, l);
  }

  lemma PointIs(l: Layout)
    ensures PointPart(l) == ['.'] || (PointPart(l) == [] && l.fraction == [])
  {
  }

  lemma BodyStarts(whole: string, rest: string)
    requires whole != [] && AllDigits(whole)
    ensures whole + rest != [] && IsDigit((whole + rest)[0])
  {
  }

  lemma NoTail()
    ensures IsExponentText([]) && ExponentValue([]) == 0
  {
  }

  // ----- one layout a decimal -----

  lemma {:induction false} ZerosDropped(m: string)
    ensures var kept := WithoutTrailingZeros(m);
      |kept| <= |m| && m == kept + Zeros(|m| - |kept|)
    ensures m != [] && m[|m| - 1] != '0' ==> WithoutTrailingZeros(m) == m
    decreases |m|
  {
    if m != [] && m[|m| - 1] == '0' {
      ZerosDropped(m[..|m| - 1]);
      var kept := WithoutTrailingZeros(m);
      assert m == m[..|m| - 1] + ['0'];
      assert Zeros(|m| - |kept|) == Zeros(|m| - 1 - |kept|) + ['0'];
    } else {
      assert m == m + Zeros(0);
    }
  }

  /** Dropping the zeros at either end forgets only how many there were. */
  lemma {:induction false} NormalKeeps(m: string, exponent: int)
    requires Normal(m, exponent).digits != []
    ensures var d := Normal(m, exponent);
      d.exponent <= exponent && |m| >= exponent - d.exponent + |d.digits| &&
      m == Zeros(exponent - d.exponent) + d.digits + Zeros(|m| - |d.digits| - (exponent - d.exponent))
    ensures m[0] != '0' ==> Normal(m, exponent).exponent == exponent
    ensures m[0] == '0' ==> Normal(m, exponent).exponent < exponent
    ensures m[|m| - 1] != '0' ==> |m| == exponent - Normal(m, exponent).exponent + |Normal(m, exponent).digits|
    decreases |m|
  {
    var d := Normal(m, exponent);
    if m[0] == '0' {
      NormalKeeps(m[1..], exponent - 1);
      assert m == ['0'] + m[1..];
      assert Zeros(exponent - d.exponent) == ['0'] + Zeros(exponent - 1 - d.exponent);
    } else {
      ZerosDropped(m);
      assert Zeros(0) + d.digits == d.digits;
    }
  }

  lemma ScientificOnce(l: Layout, other: Layout, d: Decimal)
    requires Plain(l) && Plain(other) && l.Scientific? && other.Scientific?
    requires d.digits != [] && d.exponent != 0
    requires Normal(Listed(l), Place(l)) == d && Normal(Listed(other), Place(other)) == d
    ensures l == other
  {
    hide Normal, NatValue, AllDigits;
    ListedOnce(l, d);
    ListedOnce(other, d);
    assert l.fraction == Listed(l)[1..] && other.fraction == Listed(other)[1..];
    assert l.lead == Listed(l)[0] && other.lead == Listed(other)[0];
    PowersDiffer(l.power, other.power);
  }

  lemma ListedOnce(l: Layout, d: Decimal)
    requires Plain(l) && l.Scientific? && d.digits != [] && Normal(Listed(l), Place(l)) == d
    ensures Listed(l) == d.digits && Place(l) == d.exponent
  {
    hide Normal, NatValue, AllDigits;
    NormalKeeps(Listed(l), Place(l));
    assert Zeros(0) + d.digits + Zeros(0) == d.digits;
  }

  /** The digits a positional layout lists are the decimal's, with the zeros its place asks for. */
  lemma PositionalOnce(l: Layout, d: Decimal)
    requires Plain(l) && l.Positional? && d.digits != [] && Normal(Listed(l), Place(l)) == d
    ensures d.exponent < 0 ==> |l.whole| == 1 && Listed(l) == Zeros(-d.exponent) + d.digits
    ensures d.exponent >= 0 ==> |l.whole| == d.exponent + 1
    ensures d.exponent >= 0 && |d.digits| <= d.exponent + 1 ==>
      Listed(l) == d.digits + Zeros(d.exponent + 1 - |d.digits|)
    ensures d.exponent >= 0 && |d.digits| > d.exponent + 1 ==> Listed(l) == d.digits
  {
    hide Normal, NatValue, AllDigits;
    var m := Listed(l);
    NormalKeeps(m, Place(l));
    assert l.fraction != [] ==> m[|m| - 1] == l.fraction[|l.fraction| - 1];
    assert d.digits + Zeros(0) == d.digits;
    assert Zeros(0) + d.digits == d.digits;
    if d.exponent < 0 {
      assert m[0] == '0' && |l.whole| == 1;
      assert l.fraction != [];
      assert Zeros(-d.exponent) + d.digits + Zeros(0) == Zeros(-d.exponent) + d.digits;
    }
  }

  /** A decimal has one plain layout of either kind. */
  lemma LayoutOnce(l: Layout, other: Layout, d: Decimal)
    requires Plain(l) && Plain(other) && (l.Scientific? <==> other.Scientific?)
    requires d.digits != [] && (l.Scientific? ==> d.exponent != 0)
    requires Normal(Listed(l), Place(l)) == d && Normal(Listed(other), Place(other)) == d
    ensures l == other
  {
    hide Normal, NatValue, AllDigits, NoTrailingZero;
    if l.Scientific? {
      ScientificOnce(l, other, d);
    } else {
      PositionalOnce(l, d);
      PositionalOnce(other, d);
      var at := |l.whole|;
      assert l.whole == Listed(l)[..at] && l.fraction == Listed(l)[at..];
      assert other.whole == Listed(other)[..at] && other.fraction == Listed(other)[at..];
    }
  }

  // ----- the printer's layout -----

  function LayoutFor(d: Decimal): Layout
    requires d.digits != []
  {
    var digits, e := d.digits, d.exponent;
    if TakesPower(e) then Scientific(digits[0], digits[1..], e < 0, PadTwo(if e < 0 then -e else e))
    else if e < 0 then Positional(['0'], Zeros(-e - 1) + digits)
    else if e + 1 >= |digits| then Positional(digits + Zeros(e + 1 - |digits|), [])
    else Positional(digits[..e + 1], digits[e + 1..])
  }

  lemma PrintsLayout(neg: bool, d: Decimal)
    requires d.digits != []
    ensures FormatGo(neg, d) == Written(neg, LayoutFor(d))
  {
    if TakesPower(d.exponent) {
      PrintsPower(neg, d);
    } else {
      PrintsPositional(neg, d);
    }
  }

  lemma PrintsPower(neg: bool, d: Decimal)
    requires d.digits != [] && TakesPower(d.exponent)
    ensures FormatGo(neg, d) == Written(neg, LayoutFor(d))
  {
    hide PadTwo, Zeros;
    assert d.digits[..1] == [d.digits[0]];
  }

  lemma PrintsPositional(neg: bool, d: Decimal)
    requires d.digits != [] && !TakesPower(d.exponent)
    ensures FormatGo(neg, d) == Written(neg, LayoutFor(d))
  {
    hide PadTwo, Zeros, ExponentForm;
    var sign := if neg then "-" else "";
    if d.exponent < 0 {
      assert sign + "0." + Zeros(-d.exponent - 1) + d.digits ==
        sign + ("0" + ("." + (Zeros(-d.exponent - 1) + d.digits)));
    } else if d.exponent + 1 >= |d.digits| {
      var zeros := Zeros(d.exponent + 1 - |d.digits|);
      assert sign + d.digits + zeros == sign + (d.digits + zeros + []);
    } else {
      var at := d.exponent + 1;
      assert sign + d.digits[..at] + "." + d.digits[at..] == sign + (d.digits[..at] + ("." + d.digits[at..]));
    }
  }

  lemma LayoutIsPlain(d: Decimal)
    requires Canonical(d)
    ensures Plain(LayoutFor(d)) && Listed(LayoutFor(d)) != []
  {
    hide PadTwo;
    PaddedIsPower(if d.exponent < 0 then -d.exponent else d.exponent);
  }

  /**
   * CEL's text of a double is in the language, and is the language's only text
   * that reads back to that sign and that decimal.
   */
  lemma OnlyGeneralText(neg: bool, d: Decimal, text: string)
    requires Canonical(d)
    ensures text == FormatGo(neg, d) <==>
      GeneralText(text, d.exponent) && ReadDecimal(text) == Some((neg, d))
  {
    hide FormatGo, ReadDecimal, Plain, LayoutFor, Written, Canonical, IsDoubleText;
    GeneralShape(neg, d);
    ReadsBack(neg, d);
    if GeneralText(text, d.exponent) && ReadDecimal(text) == Some((neg, d)) {
      var sign, l :| IsLayoutOf(text, sign, l, d.exponent);
      OneText(neg, d, sign, l);
    }
  }

  lemma GeneralShape(neg: bool, d: Decimal)
    requires Canonical(d)
    ensures GeneralText(FormatGo(neg, d), d.exponent)
  {
    hide FormatGo, Plain, Written, Canonical;
    CanonicalDigits(d);
    PrintsLayout(neg, d);
    LayoutIsPlain(d);
    assert IsLayoutOf(FormatGo(neg, d), neg, LayoutFor(d), d.exponent);
  }

  lemma OneText(neg: bool, d: Decimal, sign: bool, l: Layout)
    requires Canonical(d) && IsLayoutOf(Written(sign, l), sign, l, d.exponent)
    requires ReadDecimal(Written(sign, l)) == Some((neg, d))
    ensures Written(sign, l) == FormatGo(neg, d)
  {
    hide FormatGo, ReadDecimal, Plain, LayoutFor, Written, Canonical, IsDoubleText, Normal;
    CanonicalDigits(d);
    ReadsAs(sign, l);
    ReadsBack(neg, d);
    PrintsLayout(neg, d);
    LayoutIsPlain(d);
    ReadsAs(neg, LayoutFor(d));
    KindOfLayout(d);
    LayoutOnce(l, LayoutFor(d), d);
  }

  lemma KindOfLayout(d: Decimal)
    requires d.digits != []
    ensures LayoutFor(d).Scientific? <==> TakesPower(d.exponent)
  {
  }
}
