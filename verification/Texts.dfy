/** Strings as sequences of Unicode code points: digits, decimal numerals, order and splitting. */
module Texts {
  import opened Wrappers

  predicate IsDigit(c: char) {
    '0' <= c <= '9'
  }

  predicate AllDigits(s: string) {
    forall i | 0 <= i < |s| :: IsDigit(s[i])
  }

  /** How many leading characters of `s` are digits. */
  function DigitSpan(s: string): (n: nat)
    ensures n <= |s| && AllDigits(s[..n])
    ensures n < |s| ==> !IsDigit(s[n])
  {
    if s == [] || !IsDigit(s[0]) then 0 else
      var n := 1 + DigitSpan(s[1..]);
      assert forall i | 0 <= i < n :: s[i] == if i == 0 then s[0] else s[1..][i - 1];
      n
  }

  lemma DigitSpanOf(digits: string, rest: string)
    requires AllDigits(digits)
    requires rest == [] || !IsDigit(rest[0])
    ensures DigitSpan(digits + rest) == |digits|
  {
    var s := digits + rest;
    var n := DigitSpan(s);
    assert forall i | 0 <= i < |digits| :: s[i] == digits[i];
    assert rest != [] ==> s[|digits|] == rest[0];
    assert forall i | 0 <= i < n :: IsDigit(s[..n][i]) && s[..n][i] == s[i];
  }

  predicate StartsNumber(c: char) {
    c == '.' || IsDigit(c)
  }

  /** Where the point, the fraction and what follows the leading decimal of `s` begin. */
  function DecimalCuts(s: string): (cuts: (nat, nat, nat))
    ensures cuts.0 <= cuts.1 <= cuts.2 <= |s|
    ensures AllDigits(s[..cuts.0]) && AllDigits(s[cuts.1..cuts.2])
  {
    var i := DigitSpan(s);
    var a := if i < |s| && s[i] == '.' then i + 1 else i;
    var b := if a > i then a + DigitSpan(s[a..]) else a;
    assert s[a..][..b - a] == s[a..b];
    (i, a, b)
  }

  ghost predicate Lies(s: string, at: nat, piece: string) {
    at + |piece| <= |s| && s[at..at + |piece|] == piece
  }

  lemma LiesBetween(before: string, piece: string, after: string, s: string)
    requires s == before + piece + after
    ensures Lies(s, |before|, piece) && s[|before| + |piece|..] == after
  {
  }

  /** A run of digits ends where something else follows it. */
  lemma RunCut(s: string, digits: string, rest: string)
    requires s == digits + rest && AllDigits(digits) && (rest == [] || !IsDigit(rest[0]))
    ensures DigitSpan(s) == |digits| && s[..|digits|] == digits && s[|digits|..] == rest
  {
    DigitSpanOf(digits, rest);
  }

  /** What follows the whole digits: the point or the tail, none of them a digit. */
  lemma AfterWhole(point: string, fraction: string, tail: string)
    requires point == ['.'] || (point == [] && fraction == [])
    requires tail == [] || !StartsNumber(tail[0])
    ensures var rest := point + (fraction + tail);
      (rest == [] || !IsDigit(rest[0])) && (point == ['.'] <==> rest != [] && rest[0] == '.') &&
      rest[|point|..] == fraction + tail
  {
    if point == [] {
      assert point + (fraction + tail) == tail;
    }
  }

  /** The cuts of a decimal, from the two runs of digits. */
  lemma CutsFromRuns(s: string, i: nat, pointed: bool, j: nat)
    requires i <= |s| && DigitSpan(s) == i && (pointed <==> i < |s| && s[i] == '.')
    requires var a := if pointed then i + 1 else i; if pointed then DigitSpan(s[a..]) == j else j == 0
    ensures var a := if pointed then i + 1 else i; DecimalCuts(s) == (i, a, a + j)
  {
    hide DigitSpan;
  }

  /** A decimal is cut into the pieces it was made of. */
  lemma DecimalCutsOf(whole: string, point: string, fraction: string, tail: string)
    requires AllDigits(whole) && AllDigits(fraction)
    requires point == ['.'] || (point == [] && fraction == [])
    requires tail == [] || !StartsNumber(tail[0])
    ensures var s := whole + point + fraction + tail;
      var a, b := |whole| + |point|, |whole| + |point| + |fraction|;
      DecimalCuts(s) == (|whole|, a, b) && s[..|whole|] == whole && s[a..b] == fraction && s[b..] == tail
  {
    hide DigitSpan, DecimalCuts, AllDigits, IsDigit;
    var rest := point + (fraction + tail);
    var s := whole + point + fraction + tail;
    assert s == whole + rest;
    AfterWhole(point, fraction, tail);
    RunCut(s, whole, rest);
    NoDigitStarts(tail);
    RunCut(fraction + tail, fraction, tail);
    PiecesOf(whole, point, fraction, tail, s);
    CutsFromRuns(s, |whole|, point == ['.'], |fraction|);
  }

  lemma NoDigitStarts(tail: string)
    requires tail == [] || !StartsNumber(tail[0])
    ensures tail == [] || !IsDigit(tail[0])
  {
  }

  lemma PiecesOf(whole: string, point: string, fraction: string, tail: string, s: string)
    requires s == whole + point + fraction + tail
    ensures var a, b := |whole| + |point|, |whole| + |point| + |fraction|;
      s[a..] == fraction + tail && s[a..b] == fraction && s[b..] == tail && s[|whole|..a] == point
  {
    LiesBetween(whole, point, fraction + tail, s);
    LiesBetween(whole + point, fraction, tail, s);
  }

  function DigitValue(c: char): (d: nat)
    requires IsDigit(c)
    ensures d <= 9
  {
    c as int - '0' as int
  }

  function DigitChar(d: nat): (c: char)
    requires d <= 9
    ensures IsDigit(c) && DigitValue(c) == d
  {
    ('0' as int + d) as char
  }

  /** The number a string of digits spells, most significant first; 0 for the empty string. */
  function NatValue(s: string): nat
    requires AllDigits(s)
  {
    if s == [] then 0 else 10 * NatValue(s[..|s| - 1]) + DigitValue(s[|s| - 1])
  }

  /** The decimal numeral of `n`, without leading zeros. */
  function NatText(n: nat): (s: string)
    ensures s != [] && AllDigits(s) && NatValue(s) == n
    ensures s[0] == '0' ==> n == 0
  {
    if n <= 9 then
      assert [DigitChar(n)][..0] == [];
      [DigitChar(n)]
    else
      var front := NatText(n / 10);
      var s := front + [DigitChar(n % 10)];
      assert s[..|s| - 1] == front;
      s
  }

  function IntText(i: int): string {
    if i < 0 then "-" + NatText(-i) else NatText(i)
  }

  /** Negative, zero or positive as `a` orders before, with or after `b`, code point by code point. */
  function LexOrder(a: string, b: string): int {
    if a == [] then (if b == [] then 0 else -1)
    else if b == [] then 1
    else if a[0] != b[0] then (if a[0] < b[0] then -1 else 1)
    else LexOrder(a[1..], b[1..])
  }

  /** Whether `t` occurs in `s` at position `i`. */
  predicate OccursAt(s: string, t: string, i: nat) {
    i + |t| <= |s| && s[i..i + |t|] == t
  }

  predicate Includes(s: string, t: string) {
    exists i | 0 <= i <= |s| :: OccursAt(s, t, i)
  }

  predicate StartsWith(s: string, t: string) {
    t <= s
  }

  predicate EndsWith(s: string, t: string) {
    |t| <= |s| && OccursAt(s, t, |s| - |t|)
  }

  lemma OccursShift(s: string, t: string, j: nat)
    requires s != [] && j > 0
    ensures OccursAt(s, t, j) <==> OccursAt(s[1..], t, j - 1)
  {
    if j + |t| <= |s| {
      var a, b := s[j..j + |t|], s[1..][j - 1..j - 1 + |t|];
      assert |a| == |b| && forall k | 0 <= k < |t| :: a[k] == s[j + k] && b[k] == s[j + k];
      assert a == b;
    }
  }

  /** The first position at or after which `t` occurs, counting from the start of `s`. */
  function IndexOf(s: string, t: string): (r: Option<nat>)
    ensures r.Some? ==> OccursAt(s, t, r.value) && forall j | 0 <= j < r.value :: !OccursAt(s, t, j)
    ensures r.None? ==> forall j: nat :: !OccursAt(s, t, j)
  {
    if |t| > |s| then None
    else if t <= s then Some(0)
    else
      var rest := IndexOf(s[1..], t);
      assert forall j: nat | 0 < j :: OccursAt(s, t, j) <==> OccursAt(s[1..], t, j - 1) by {
        forall j: nat | 0 < j ensures OccursAt(s, t, j) <==> OccursAt(s[1..], t, j - 1) {
          OccursShift(s, t, j);
        }
      }
      if rest.None? then None else Some(rest.value + 1)
  }

  /** JavaScript's `split` on a non-empty delimiter. */
  function Split(s: string, delimiter: string): (parts: seq<string>)
    requires delimiter != []
    ensures parts != []
    decreases |s|
  {
    var at := IndexOf(s, delimiter);
    if at.None? then [s] else [s[..at.value]] + Split(s[at.value + |delimiter|..], delimiter)
  }

  function Join(parts: seq<string>, delimiter: string): string {
    if parts == [] then ""
    else if |parts| == 1 then parts[0]
    else parts[0] + delimiter + Join(parts[1..], delimiter)
  }
}
