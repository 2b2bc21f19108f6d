/** CEL's equality, order and conversions against what values mean, independently of how they are carried. */
module ValueLaws {
  import opened Wrappers
  import opened Doubles
  import opened DoubleLaws
  import opened Texts
  import opened DoubleText
  import opened Durations
  import opened Cel
  import opened IntLaws
  import opened ListLaws
  import opened DoubleReading
  import opened GeneralFormat

  // ----- equality -----

  /** What a value is to CEL, whichever way an int is carried and in whatever order a map lists its keys. */
  datatype Meaning =
    | Nothing
    | Truth(b: bool)
    | Number(side: int, at: real)
    | NoNumber
    | Text(s: string)
    | Elements(items: seq<Meaning>)
    | Attributes(entries: map<string, Meaning>)
    | Span(nanos: int)
    | Segments(segments: seq<string>)

  function MeaningOf(v: Value): Meaning
    decreases v
  {
    match v
    case Null => Nothing
    case Bool(b) => Truth(b)
    case Num(d) => if d.NaN? then NoNumber else Number(Side(d), if d.Fin? then d.Real() else 0.0)
    case BigInt(i) => Number(0, i as real)
    case Str(s) => Text(s)
    case List(items) => Elements(seq(|items|, i requires 0 <= i < |items| => MeaningOf(items[i])))
    case Map(_, entries) => Attributes(map k | k in entries :: MeaningOf(entries[k]))
    case Duration(nanos) => Span(nanos)
    case Hierarchy(segments) => Segments(segments)
  }

  /** Values are equal exactly when they mean the same and no NaN is nested in either. */
  lemma {:induction false} EqualIsMeaning(a: Value, b: Value)
    ensures ValuesEqual(a, b) <==> NaNFree(a) && NaNFree(b) && MeaningOf(a) == MeaningOf(b)
    decreases a
  {
    if a.Numeric() && b.Numeric() {
      NumbersMean(a, b);
    } else if a.List? && b.List? {
      forall i | 0 <= i < |a.items| && i < |b.items|
        ensures ValuesEqual(a.items[i], b.items[i]) <==>
          NaNFree(a.items[i]) && NaNFree(b.items[i]) && MeaningOf(a.items[i]) == MeaningOf(b.items[i])
      {
        EqualIsMeaning(a.items[i], b.items[i]);
      }
      ElementsMean(a.items, b.items);
    } else if a.Map? && b.Map? {
      forall k | k in a.entries.Keys && k in b.entries.Keys
        ensures ValuesEqual(a.entries[k], b.entries[k]) <==>
          NaNFree(a.entries[k]) && NaNFree(b.entries[k]) && MeaningOf(a.entries[k]) == MeaningOf(b.entries[k])
      {
        EqualIsMeaning(a.entries[k], b.entries[k]);
      }
      AttributesMean(a, b);
    } else if a.Hierarchy? && b.Hierarchy? {
      assert ValuesEqual(a, b) <==> a.segments == b.segments;
    }
  }

  lemma NumbersMean(a: Value, b: Value)
    requires a.Numeric() && b.Numeric()
    ensures ValuesEqual(a, b) <==> NaNFree(a) && NaNFree(b) && MeaningOf(a) == MeaningOf(b)
  {
    LessIsBefore(a.AsDouble(), b.AsDouble());
    LessIsBefore(b.AsDouble(), a.AsDouble());
  }

  lemma ElementsMean(a: seq<Value>, b: seq<Value>)
    ensures MeaningOf(List(a)) == MeaningOf(List(b)) <==>
      |a| == |b| && forall i | 0 <= i < |a| :: MeaningOf(a[i]) == MeaningOf(b[i])
  {
    var x, y := MeaningOf(List(a)).items, MeaningOf(List(b)).items;
    assert |x| == |a| && |y| == |b|;
    if x == y {
      forall i | 0 <= i < |a| ensures MeaningOf(a[i]) == MeaningOf(b[i]) {
        assert x[i] == y[i];
      }
    }
  }

  lemma AttributesMean(a: Value, b: Value)
    requires a.Map? && b.Map?
    ensures MeaningOf(a) == MeaningOf(b) <==>
      a.entries.Keys == b.entries.Keys &&
      forall k | k in a.entries.Keys :: MeaningOf(a.entries[k]) == MeaningOf(b.entries[k])
  {
    var x, y := MeaningOf(a).entries, MeaningOf(b).entries;
    assert x.Keys == a.entries.Keys && y.Keys == b.entries.Keys;
    if x == y {
      forall k | k in a.entries.Keys ensures MeaningOf(a.entries[k]) == MeaningOf(b.entries[k]) {
        assert x[k] == y[k];
      }
    }
  }

  // ----- order -----

  predicate DiffersAt(s: string, t: string, n: nat) {
    n <= |s| && n < |t| && s[..n] == t[..n] && (n == |s| || s[n] < t[n])
  }

  /** A string precedes another where it ends first, or has the smaller code point at their first difference. */
  ghost predicate TextBefore(s: string, t: string) {
    exists n: nat :: DiffersAt(s, t, n)
  }

  lemma DiffersLater(s: string, t: string, n: nat)
    requires s != [] && t != [] && s[0] == t[0]
    ensures DiffersAt(s, t, n + 1) <==> DiffersAt(s[1..], t[1..], n)
  {
    if n + 1 <= |s| && n + 1 <= |t| {
      assert s[..n + 1] == [s[0]] + s[1..][..n] && t[..n + 1] == [t[0]] + t[1..][..n];
    }
  }

  lemma TextBeforeStep(s: string, t: string)
    requires s != [] && t != []
    ensures TextBefore(s, t) <==> s[0] < t[0] || (s[0] == t[0] && TextBefore(s[1..], t[1..]))
  {
    if TextBefore(s, t) {
      var n: nat :| DiffersAt(s, t, n);
      if n > 0 {
        assert s[..n][0] == t[..n][0];
        DiffersLater(s, t, n - 1);
      }
    }
    if s[0] == t[0] && TextBefore(s[1..], t[1..]) {
      var n: nat :| DiffersAt(s[1..], t[1..], n);
      DiffersLater(s, t, n);
    }
    if s[0] < t[0] {
      assert DiffersAt(s, t, 0);
    }
  }

  lemma {:induction false} LexOrderIsBefore(s: string, t: string)
    ensures LexOrder(s, t) < 0 <==> TextBefore(s, t)
    ensures LexOrder(s, t) > 0 <==> TextBefore(t, s)
    ensures LexOrder(s, t) == 0 <==> s == t
    decreases |s|
  {
    if s == [] || t == [] {
      assert s == [] && t != [] ==> DiffersAt(s, t, 0);
      assert t == [] && s != [] ==> DiffersAt(t, s, 0);
    } else {
      TextBeforeStep(s, t);
      TextBeforeStep(t, s);
      LexOrderIsBefore(s[1..], t[1..]);
      assert s == [s[0]] + s[1..] && t == [t[0]] + t[1..];
    }
  }

  /** The types CEL orders; numbers of either carrier are one of them. */
  predicate Ordered(a: Value, b: Value) {
    (a.Str? && b.Str?) || (a.Bool? && b.Bool?) || (a.Numeric() && b.Numeric()) || (a.Duration? && b.Duration?)
  }

  function AsNumber(v: Value): Double
    requires v.Numeric()
  {
    if v.Num? then v.n else FromReal(v.i as real)
  }

  ghost predicate Precedes(a: Value, b: Value) {
    match (a, b)
    case (Str(s), Str(t)) => TextBefore(s, t)
    case (Bool(x), Bool(y)) => !x && y
    case (Duration(x), Duration(y)) => x < y
    case _ =>
      a.Numeric() && b.Numeric() && !AsNumber(a).NaN? && !AsNumber(b).NaN? && Before(AsNumber(a), AsNumber(b))
  }

  ghost predicate Meets(c: Comparison, a: Value, b: Value) {
    match c
    case Eq => ValuesEqual(a, b)
    case Ne => !ValuesEqual(a, b)
    case Lt => Precedes(a, b)
    case Le => !Precedes(b, a)
    case Gt => Precedes(b, a)
    case Ge => !Precedes(a, b)
  }

  /** Every comparison: by order within a type, false beside NaN, and an error between types. */
  lemma ComparesByOrder(c: Comparison, a: Value, b: Value)
    ensures CompareValues(c, a, b) ==
      if c == Eq || c == Ne then OfBool(Meets(c, a, b))
      else if a == Num(NaN) || b == Num(NaN) then OfBool(false)
      else if Ordered(a, b) then OfBool(Meets(c, a, b))
      else Err
  {
    hide ValuesEqual, LexOrder, TextBefore;
    if a.Str? && b.Str? {
      LexOrderIsBefore(a.s, b.s);
    } else if a.Numeric() && b.Numeric() {
      LessIsBefore(a.AsDouble(), b.AsDouble());
      LessIsBefore(b.AsDouble(), a.AsDouble());
    }
  }

  // ----- numerals -----

  const DIGITS := "0123456789"

  /** Where a character stands among the ten digits, which is what it is worth. */
  function Worth(c: char, digits: string): Option<nat> {
    if digits == [] then None
    else if digits[0] == c then Some(0)
    else
      var rest := Worth(c, digits[1..]);
      if rest.None? then None else Some(rest.value + 1)
  }

  lemma {:induction false} WorthFrom(c: char, n: nat)
    requires n <= 10
    ensures Worth(c, DIGITS[n..]) ==
      if IsDigit(c) && DigitValue(c) >= n then Some(DigitValue(c) - n) else None
    decreases 10 - n
  {
    if n < 10 {
      WorthFrom(c, n + 1);
      assert DIGITS[n..][1..] == DIGITS[n + 1..];
      assert DIGITS[n] as int == '0' as int + n;
    }
  }

  lemma DigitWorth(c: char)
    ensures Worth(c, DIGITS) == if IsDigit(c) then Some(DigitValue(c)) else None
  {
    WorthFrom(c, 0);
    assert DIGITS[0..] == DIGITS;
  }

  /** Reads digits from the left, each making what stands before it worth ten times as much. */
  function Reading(s: string, before: nat): Option<nat> {
    if s == [] then Some(before)
    else
      var worth := Worth(s[0], DIGITS);
      if worth.None? then None else Reading(s[1..], 10 * before + worth.value)
  }

  lemma {:induction false} ReadingOn(s: string, c: char, before: nat)
    ensures Reading(s + [c], before) ==
      if Reading(s, before).None? || Worth(c, DIGITS).None? then None
      else Some(10 * Reading(s, before).value + Worth(c, DIGITS).value)
    decreases |s|
  {
    hide Worth;
    if s == [] {
      assert [c][1..] == [];
    } else {
      assert (s + [c])[1..] == s[1..] + [c];
      if Worth(s[0], DIGITS).Some? {
        ReadingOn(s[1..], c, 10 * before + Worth(s[0], DIGITS).value);
      }
    }
  }

  lemma {:induction false} ReadingIsValue(s: string)
    ensures Reading(s, 0).Some? <==> AllDigits(s)
    ensures AllDigits(s) ==> Reading(s, 0) == Some(NatValue(s))
    decreases |s|
  {
    hide Worth;
    if s != [] {
      var front, last := s[..|s| - 1], s[|s| - 1];
      assert s == front + [last];
      ReadingIsValue(front);
      ReadingOn(front, last, 0);
      DigitWorth(last);
    }
  }

  /** The int a string spells: an optional sign and at least one digit. */
  function IntSpelled(s: string): Option<int> {
    if s == [] then None
    else if s[0] == '-' then
      if |s| > 1 && Reading(s[1..], 0).Some? then Some(0 - Reading(s[1..], 0).value) else None
    else if s[0] == '+' then
      if |s| > 1 && Reading(s[1..], 0).Some? then Some(Reading(s[1..], 0).value) else None
    else if Reading(s, 0).Some? then Some(Reading(s, 0).value)
    else None
  }

  /** No sign but a minus before a number below zero, and no zero in front of other digits. */
  predicate PlainInt(s: string) {
    s != [] &&
    var digits := if s[0] == '-' then s[1..] else s;
    s[0] != '+' && digits != [] && (digits[0] == '0' ==> |digits| == 1 && s[0] != '-')
  }

  /** `int()` of a string: the int it spells where int64 holds it, and an error everywhere else. */
  lemma IntOfText(s: string)
    ensures var i := IntSpelled(s);
      if i.Some? && InInt64(i.value) then
        ConvertToInt(Str(s)).Ok? && ToBigInt(ConvertToInt(Str(s)).value) == i
      else ConvertToInt(Str(s)) == Err
  {
    hide Reading, NatValue, CelInt, ToBigInt;
    ReadingIsValue(s);
    if s != [] {
      ReadingIsValue(s[1..]);
      assert s[0] == '-' || s[0] == '+' ==> !IsDigit(s[0]);
    }
    if IntSpelled(s).Some? {
      CarriedExactly(IntSpelled(s).value);
    }
  }

  /** An int's text spells it, and is the only plain text that does. */
  lemma OnlyIntText(i: int, s: string)
    ensures s == IntText(i) <==> PlainInt(s) && IntSpelled(s) == Some(i)
  {
    hide Reading, NatValue, NatText;
    IntTextSpells(i);
    if PlainInt(s) && IntSpelled(s) == Some(i) {
      var t := IntText(i);
      var digits, own := if s[0] == '-' then s[1..] else s, if t[0] == '-' then t[1..] else t;
      ReadingIsValue(digits);
      ReadingIsValue(own);
      SignedNumeralValue(s, digits);
      SignedNumeralValue(t, own);
      SameNumeral(digits, own);
      assert s[0] == '-' ==> s == ['-'] + digits;
      assert t[0] == '-' ==> t == ['-'] + own;
    }
  }

  /** A plain int with a minus is below zero. */
  lemma SignedNumeralValue(s: string, digits: string)
    requires PlainInt(s) && IntSpelled(s).Some? && digits == if s[0] == '-' then s[1..] else s
    ensures NoLeadingZero(digits) && (s[0] == '-' <==> IntSpelled(s).value < 0)
    ensures IntSpelled(s).value == if s[0] == '-' then 0 - NatValue(digits) as int else NatValue(digits)
  {
    hide Reading, NatValue;
    ReadingIsValue(digits);
    if s[0] == '-' {
      LongIsLarge(digits);
    }
  }

  lemma IntTextSpells(i: int)
    ensures PlainInt(IntText(i)) && IntSpelled(IntText(i)) == Some(i)
  {
    hide Reading, NatValue, NatText;
    var digits := NatText(if i < 0 then -i else i);
    ReadingIsValue(digits);
    var t := IntText(i);
    if i < 0 {
      assert t[1..] == digits;
    }
    ZeroNumeral(digits);
  }

  lemma ZeroNumeral(digits: string)
    requires digits != [] && AllDigits(digits) && digits == NatText(NatValue(digits))
    ensures digits[0] == '0' ==> |digits| == 1 && NatValue(digits) == 0
  {
  }

  predicate NoLeadingZero(s: string) {
    s != [] && AllDigits(s) && (s[0] == '0' ==> |s| == 1)
  }

  lemma ZeroAlone(s: string)
    requires NoLeadingZero(s)
    ensures NatValue(s) == 0 <==> s == "0"
    ensures s[0] == '0' ==> s == "0"
  {
    if s[0] != '0' {
      LongIsLarge(s);
    } else {
      assert s[..0] == [];
    }
  }

  lemma SameNumeral(a: string, b: string)
    requires NoLeadingZero(a) && NoLeadingZero(b) && NatValue(a) == NatValue(b)
    ensures a == b
  {
    if a[0] != '0' && b[0] != '0' {
      NumeralsDiffer(a, b);
    } else {
      ZeroAlone(a);
      ZeroAlone(b);
      SameLength(a, b);
    }
  }

  // ----- doubles as text -----

  datatype DecimalParts = DecimalParts(sign: string, whole: string, point: string, fraction: string, power: string)

  /** An optional sign, digits before or after an optional point, and an optional power of ten. */
  predicate IsDecimalText(s: string, parts: DecimalParts) {
    s == parts.sign + parts.whole + parts.point + parts.fraction + parts.power &&
    parts.sign in ["", "+", "-"] && AllDigits(parts.whole) && AllDigits(parts.fraction) &&
    (parts.point == "." || (parts.point == "" && parts.fraction == "")) && parts.whole + parts.fraction != "" &&
    (parts.power == "" ||
     (parts.power[0] in "eE" && IntSpelled(parts.power[1..]).Some?))
  }

  /** The strings `double()` reads are the decimal texts. */
  lemma DoubleTexts(s: string)
    ensures IsDoubleText(s) <==> exists parts :: IsDecimalText(s, parts)
  {
    hide DecimalCuts, IsExponentText;
    if IsDoubleText(s) {
      var parts := PartsOf(s);
    }
    if parts :| IsDecimalText(s, parts) {
      PartsRead(s, parts);
    }
  }

  lemma IntTexts(s: string)
    ensures IsIntText(s) <==> IntSpelled(s).Some?
  {
    ReadingIsValue(s);
    if s != [] {
      ReadingIsValue(s[1..]);
      assert s[0] == '-' || s[0] == '+' ==> !IsDigit(s[0]);
    }
  }

  lemma PartsOf(s: string) returns (parts: DecimalParts)
    requires IsDoubleText(s)
    ensures IsDecimalText(s, parts)
  {
    hide DecimalCuts, IsIntText, AllDigits, IntSpelled, Unsigned, IsExponentText;
    var body := Unsigned(s);
    var (i, a, b) := DecimalCuts(body);
    var sign := SignOf(s);
    var point := PointOf(body);
    parts := DecimalParts(sign, body[..i], point, body[a..b], body[b..]);
    PowerOf(body[b..]);
    Recut(sign, body, i, a, b);
  }

  lemma PowerOf(tail: string)
    requires IsExponentText(tail)
    ensures tail == "" || (tail[0] in "eE" && IntSpelled(tail[1..]).Some?)
  {
    hide IsIntText, IntSpelled;
    if tail != [] {
      IntTexts(tail[1..]);
    }
  }

  lemma SignOf(s: string) returns (sign: string)
    ensures s == sign + Unsigned(s) && sign in ["", "+", "-"]
  {
    sign := if s != [] && (s[0] == '+' || s[0] == '-') then [s[0]] else [];
  }

  lemma PointOf(body: string) returns (point: string)
    ensures var (i, a, b) := DecimalCuts(body);
      point == body[i..a] && (point == "." || (point == "" && a == b))
  {
    var (i, a, b) := DecimalCuts(body);
    point := body[i..a];
  }

  lemma Recut(sign: string, body: string, i: nat, a: nat, b: nat)
    requires i <= a <= b <= |body|
    ensures sign + body == sign + body[..i] + body[i..a] + body[a..b] + body[b..]
  {
    assert body == body[..i] + body[i..a] + body[a..b] + body[b..];
  }

  lemma PartsRead(s: string, parts: DecimalParts)
    requires IsDecimalText(s, parts)
    ensures IsDoubleText(s)
  {
    hide DecimalCuts, IsIntText, AllDigits, IntSpelled, Unsigned;
    var body := parts.whole + parts.point + parts.fraction + parts.power;
    assert s == parts.sign + body;
    BodyUnsigned(parts, body);
    if parts.power != [] {
      IntTexts(parts.power[1..]);
    }
    DecimalCutsOf(parts.whole, parts.point, parts.fraction, parts.power);
  }

  lemma BodyUnsigned(parts: DecimalParts, body: string)
    requires IsDecimalText(parts.sign + body, parts)
    requires body == parts.whole + parts.point + parts.fraction + parts.power
    ensures Unsigned(parts.sign + body) == body
  {
    hide IntSpelled;
    assert body[0] != '+' && body[0] != '-';
  }

  /** `string()` of a double: the two infinities, NaN and the two zeros by name, and else the one %g text. */
  lemma DoubleSpelled(d: Double, host: Host)
    requires d.Fin? && !d.IsZero() ==> Canonical(host.shortest(d))
    ensures d.Fin? && !d.IsZero() ==>
      GeneralText(FormatDouble(d, host), host.shortest(d).exponent) &&
      ReadDecimal(FormatDouble(d, host)) == Some((d.neg, host.shortest(d)))
    ensures FormatDouble(NaN, host) == "NaN"
    ensures FormatDouble(Inf(false), host) == "+Inf" && FormatDouble(Inf(true), host) == "-Inf"
    ensures FormatDouble(FromReal(0.0), host) == "0" && FormatDouble(Negate(FromReal(0.0)), host) == "-0"
  {
    hide GeneralText, ReadDecimal, FormatGo;
    if d.Fin? && !d.IsZero() {
      OnlyGeneralText(d.neg, host.shortest(d), FormatDouble(d, host));
    }
  }
}
