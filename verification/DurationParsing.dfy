/** The duration parser's loops, and the language and the sums it accepts. */
module DurationParsing {
  import opened Wrappers
  import opened Texts
  import opened Durations

  // ----- the loops -----

  /** A longer run of digits spells at least ten times the number. */
  lemma {:induction false} LongerIsLarger(s: string, i: nat, n: nat)
    requires i <= n <= |s| && AllDigits(s[..n])
    ensures AllDigits(s[..i]) && NatValue(s[..i]) <= NatValue(s[..n])
    ensures i < n ==> 10 * NatValue(s[..i]) <= NatValue(s[..n])
    decreases n
  {
    assert forall k | 0 <= k < i :: s[..i][k] == s[..n][k];
    if i < n {
      assert s[..n][..n - 1] == s[..n - 1];
      assert forall k | 0 <= k < n - 1 :: s[..n - 1][k] == s[..n][k];
      LongerIsLarger(s, i, n - 1);
    }
  }

  lemma PrefixDigits(s: string, i: nat)
    requires i <= DigitSpan(s)
    ensures AllDigits(s[..i])
    ensures i < DigitSpan(s) ==> IsDigit(s[i])
  {
    var digits := s[..DigitSpan(s)];
    assert forall k | 0 <= k < DigitSpan(s) :: digits[k] == s[k];
  }

  lemma NextDigit(s: string, i: nat)
    requires i < |s| && i <= DigitSpan(s) && IsDigit(s[i])
    ensures i + 1 <= DigitSpan(s) && AllDigits(s[..i]) && AllDigits(s[..i + 1])
    ensures NatValue(s[..i + 1]) == 10 * NatValue(s[..i]) + DigitValue(s[i])
  {
    PrefixDigits(s, i);
    PrefixDigits(s, i + 1);
    assert s[..i + 1][..i] == s[..i];
  }

  /** The leading digits and their value; none when it passes int64's magnitude. */
  method ScanWhole(s: string) returns (whole: Option<nat>, i: nat)
    ensures i <= DigitSpan(s)
    ensures NatValue(s[..DigitSpan(s)]) > TWO_TO_63 ==> whole.None?
    ensures NatValue(s[..DigitSpan(s)]) <= TWO_TO_63 ==> whole == Some(NatValue(s[..i])) && i == DigitSpan(s)
  {
    var value := 0;
    i := 0;
    while i < |s| && IsDigit(s[i])
      invariant i <= DigitSpan(s) && AllDigits(s[..i]) && value == NatValue(s[..i]) <= TWO_TO_63
    {
      NextDigit(s, i);
      LongerIsLarger(s, i, DigitSpan(s));
      LongerIsLarger(s, i + 1, DigitSpan(s));
      if value > TWO_TO_63 / 10 {
        return None, i;
      }
      value := value * 10 + DigitValue(s[i]);
      if value > TWO_TO_63 {
        return None, i;
      }
      i := i + 1;
    }
    PrefixDigits(s, i);
    whole := Some(value);
  }

  /** The leading digits as a fraction, as far as its value and its scale fit. */
  method ScanFraction(s: string) returns (fraction: nat, kept: nat, j: nat)
    ensures j == DigitSpan(s) && (fraction, kept) == FractionPrefix(s[..j], 0, 0)
  {
    var overflow := false;
    ghost var digits := s[..DigitSpan(s)];
    fraction, kept, j := 0, 0, 0;
    assert digits[0..] == digits;
    while j < |s| && IsDigit(s[j])
      invariant j <= DigitSpan(s)
      invariant FractionPrefix(digits, 0, 0) ==
        if overflow then (fraction, kept) else FractionPrefix(digits[j..], fraction, kept)
    {
      NextDigit(s, j);
      assert digits[j..][0] == s[j] && digits[j..][1..] == digits[j + 1..];
      if !overflow {
        if fraction > INT64_MAX / 10 {
          overflow := true;
        } else {
          var next := fraction * 10 + DigitValue(s[j]);
          if next > TWO_TO_63 {
            overflow := true;
          } else {
            fraction := next;
            kept := kept + 1;
          }
        }
      }
      j := j + 1;
    }
    PrefixDigits(s, j);
  }

  method ScanUnit(s: string) returns (k: nat)
    ensures k == UnitSpan(s)
  {
    k := 0;
    while k < |s| && !StartsNumber(s[k])
      invariant k <= UnitSpan(s)
    {
      k := k + 1;
    }
  }

  method Scale(whole: nat, fraction: nat, kept: nat, unit: nat, step: FractionStep) returns (r: Option<nat>)
    requires unit > 0
    ensures r == TermNanos(whole, (fraction, kept), unit, step)
  {
    if whole > TWO_TO_63 / unit {
      return None;
    }
    var value := whole * unit;
    if fraction > 0 {
      value := value + step(fraction, kept, unit);
      if value > TWO_TO_63 {
        return None;
      }
    }
    return Some(value);
  }

  method ReadTerm(s: string, step: FractionStep) returns (r: Parsed<(nat, string)>)
    requires s != []
    ensures r == NextTerm(s, step)
  {
    hide UnitNanos, IsInherited, NatValue, TermNanos, DigitSpan, UnitSpan;
    if !StartsNumber(s[0]) {
      return Rejected;
    }
    var whole, i := ScanWhole(s);
    if whole.None? {
      return Rejected;
    }
    var fraction, kept, j := 0, 0, 0;
    var a := i;
    if i < |s| && s[i] == '.' {
      a := i + 1;
      fraction, kept, j := ScanFraction(s[a..]);
      assert s[a..][..j] == s[a..a + j];
    }
    if i + j == 0 {
      return Rejected;
    }
    var b := a + j;
    var k := ScanUnit(s[b..]);
    var unit := UnitNanos(s[b..b + k]);
    if k == 0 || (unit.None? && !IsInherited(s[b..b + k])) {
      return Rejected;
    }
    if unit.None? {
      return Raised;
    }
    var value := Scale(whole.value, fraction, kept, unit.value, step);
    return if value.None? then Rejected else Read((value.value, s[b + k..]));
  }

  method ReadTerms(body: string, step: FractionStep) returns (r: Parsed<nat>)
    ensures r == ParseTerms(body, 0, step)
  {
    hide NextTerm;
    var s := body;
    var total: nat := 0;
    while s != []
      invariant ParseTerms(body, 0, step) == ParseTerms(s, total, step)
      decreases |s|
    {
      var term := ReadTerm(s, step);
      if !term.Read? {
        return term.PropagateFailure();
      }
      total := total + term.value.0;
      if total > TWO_TO_63 {
        return Rejected;
      }
      s := term.value.1;
    }
    return Read(total);
  }

  method ParseCelDuration(input: string, step: FractionStep) returns (r: Parsed<int>)
    ensures r == ParseDuration(input, step)
  {
    hide ParseTerms;
    var s := input;
    var negative := false;
    if s != [] && (s[0] == '-' || s[0] == '+') {
      negative := s[0] == '-';
      s := s[1..];
    }
    if s == "0" {
      return Read(0);
    }
    if s == "" {
      return Rejected;
    }
    var total :- ReadTerms(s, step);
    if negative {
      return Read(-total);
    }
    return if total > INT64_MAX then Rejected else Read(total);
  }
}
