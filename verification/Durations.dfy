/** CEL's `duration(string)`: Go's time.ParseDuration over nanoseconds in int64. */
module Durations {
  import opened Wrappers
  import opened Texts

  const TWO_TO_63: nat := 0x8000_0000_0000_0000
  const INT64_MIN: int := -0x8000_0000_0000_0000
  const INT64_MAX: int := 0x7FFF_FFFF_FFFF_FFFF

  predicate InInt64(i: int) {
    INT64_MIN <= i <= INT64_MAX
  }

  /** The float64 product Go applies to a fraction: digits read, how many, and the unit. */
  type FractionStep = (nat, nat, nat) -> nat

  /** The units by name: `ns`, `us` and its two micro signs, `ms`, `s`, `m` and `h`. */
  function UnitNanos(unit: string): (nanos: Option<nat>)
    ensures nanos.Some? ==> nanos.value > 0
  {
    if |unit| == 1 then
      if unit[0] == 's' then Some(1_000_000_000)
      else if unit[0] == 'm' then Some(60_000_000_000)
      else if unit[0] == 'h' then Some(3_600_000_000_000)
      else None
    else if |unit| == 2 && unit[1] == 's' then
      if unit[0] == 'n' then Some(1)
      else if unit[0] == 'u' || unit[0] == '\U{b5}' || unit[0] == '\U{3bc}' then Some(1_000)
      else if unit[0] == 'm' then Some(1_000_000)
      else None
    else None
  }

  /** What every JavaScript object inherits; the lookup of a unit finds these names too. */
  const OBJECT_PROTOTYPE: seq<string> := ["constructor", "toString", "toLocaleString", "valueOf", "hasOwnProperty",
    "isPrototypeOf", "propertyIsEnumerable", "__proto__", "__defineGetter__", "__defineSetter__",
    "__lookupGetter__", "__lookupSetter__"]

  predicate IsInherited(unit: string) {
    unit in OBJECT_PROTOTYPE
  }

  /** What parsing yields: a value, CEL's error, or the exception of dividing by what is no bigint. */
  datatype Parsed<+T> = Read(value: T) | Rejected | Raised {
    predicate IsFailure() {
      !Read?
    }

    function PropagateFailure<U>(): Parsed<U>
      requires !Read?
    {
      if Rejected? then Rejected else Raised
    }

    function Extract(): T
      requires Read?
    {
      value
    }
  }

  /** How many leading characters of `s` belong to a unit: up to the next number. */
  function UnitSpan(s: string): (k: nat)
    ensures k <= |s|
    ensures forall i | 0 <= i < k :: !StartsNumber(s[i])
    ensures k < |s| ==> StartsNumber(s[k])
  {
    if s == [] || StartsNumber(s[0]) then 0 else 1 + UnitSpan(s[1..])
  }

  /** The fraction's digits as far as they fit: their value, and how many were kept. */
  function FractionPrefix(digits: string, fraction: nat, kept: nat): (nat, nat)
    requires AllDigits(digits)
    decreases |digits|
  {
    if digits == [] || fraction > INT64_MAX / 10 then (fraction, kept)
    else
      var next := fraction * 10 + DigitValue(digits[0]);
      if next > TWO_TO_63 then (fraction, kept)
      else FractionPrefix(digits[1..], next, kept + 1)
  }

  /** The nanoseconds of one term; an overflow of int64's magnitude is an error. */
  function TermNanos(whole: nat, fraction: (nat, nat), unit: nat, step: FractionStep): Option<nat>
    requires unit > 0
  {
    if whole > TWO_TO_63 / unit then None
    else
      var value := whole * unit + if fraction.0 > 0 then step(fraction.0, fraction.1, unit) else 0;
      if value > TWO_TO_63 then None else Some(value)
  }

  /** Where the point, the fraction, the unit and the rest of the first term begin. */
  function Cuts(s: string): (cuts: (nat, nat, nat, nat))
    ensures cuts.0 <= cuts.1 <= cuts.2 <= cuts.3 <= |s|
    ensures AllDigits(s[..cuts.0]) && AllDigits(s[cuts.1..cuts.2])
  {
    var (i, a, b) := DecimalCuts(s);
    (i, a, b, b + UnitSpan(s[b..]))
  }

  /** The first term of `s` in nanoseconds and what follows it. */
  function NextTerm(s: string, step: FractionStep): (r: Parsed<(nat, string)>)
    requires s != []
    ensures r.Read? ==> |r.value.1| < |s|
  {
    var (i, a, b, c) := Cuts(s);
    var unit := UnitNanos(s[b..c]);
    if !StartsNumber(s[0]) || NatValue(s[..i]) > TWO_TO_63 || i + (b - a) == 0 || c == b then Rejected
    else if unit.None? then (if IsInherited(s[b..c]) then Raised else Rejected)
    else
      var value := TermNanos(NatValue(s[..i]), FractionPrefix(s[a..b], 0, 0), unit.value, step);
      if value.None? then Rejected else Read((value.value, s[c..]))
  }

  /** The terms of `s` added to `total`. */
  function ParseTerms(s: string, total: nat, step: FractionStep): Parsed<nat>
    decreases |s|
  {
    if s == [] then Read(total)
    else
      var term :- NextTerm(s, step);
      if total + term.0 > TWO_TO_63 then Rejected else ParseTerms(term.1, total + term.0, step)
  }

  function ParseDuration(input: string, step: FractionStep): Parsed<int> {
    var signed := input != [] && (input[0] == '-' || input[0] == '+');
    var negative := signed && input[0] == '-';
    var s := if signed then input[1..] else input;
    if s == "0" then Read(0)
    else if s == "" then Rejected
    else
      var total :- ParseTerms(s, 0, step);
      if negative then Read(0 - total as int)
      else if total > INT64_MAX then Rejected
      else Read(total)
  }
}
