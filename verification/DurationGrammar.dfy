/** The language the duration parser accepts, and the sums it returns. */
module DurationGrammar {
  import opened Wrappers
  import opened Texts
  import opened Durations

  // ----- units -----

  const NANOSECOND: nat := 1
  const MICROSECOND: nat := 1000 * NANOSECOND
  const MILLISECOND: nat := 1000 * MICROSECOND
  const SECOND: nat := 1000 * MILLISECOND
  const MINUTE: nat := 60 * SECOND
  const HOUR: nat := 60 * MINUTE

  /** The eight units of the language, a microsecond under three names. */
  function UnitLength(unit: string): Option<nat> {
    if unit == "h" then Some(HOUR)
    else if unit == "m" then Some(MINUTE)
    else if unit == "s" then Some(SECOND)
    else if unit == "ms" then Some(MILLISECOND)
    else if unit == "us" || unit == "\U{b5}s" || unit == "\U{3bc}s" then Some(MICROSECOND)
    else if unit == "ns" then Some(NANOSECOND)
    else None
  }

  /** The parser's table holds those units at those lengths, and no other name. */
  lemma UnitsAgree(unit: string)
    ensures UnitNanos(unit) == UnitLength(unit)
  {
  }

  /** The names that an object without keys of its own still answers to. */
  const INHERITED: set<string> := {"constructor", "hasOwnProperty", "isPrototypeOf", "propertyIsEnumerable",
    "toLocaleString", "toString", "valueOf", "__proto__", "__defineGetter__", "__defineSetter__",
    "__lookupGetter__", "__lookupSetter__"}

  lemma InheritedAgree(unit: string)
    ensures IsInherited(unit) <==> unit in INHERITED
  {
  }

  // ----- terms -----

  /** `whole[.fraction]unit` */
  datatype Term = Term(whole: string, pointed: bool, fraction: string, unit: string)

  /** A decimal and a name after it, whatever the name. */
  predicate IsNamed(t: Term) {
    AllDigits(t.whole) && AllDigits(t.fraction) && (t.pointed || t.fraction == []) &&
    |t.whole| + |t.fraction| > 0 && t.unit != [] && forall i | 0 <= i < |t.unit| :: !StartsNumber(t.unit[i])
  }

  predicate IsTerm(t: Term) {
    IsNamed(t) && UnitLength(t.unit).Some?
  }

  /** A decimal whose unit the lookup finds on the object's prototype instead of in the table. */
  predicate IsTrap(t: Term) {
    IsNamed(t) && t.unit in INHERITED && NatValue(t.whole) <= TWO_TO_63
  }

  function Text(t: Term): string {
    t.whole + (if t.pointed then ['.'] + t.fraction else []) + t.unit
  }

  predicate AreTerms(terms: seq<Term>) {
    forall i | 0 <= i < |terms| :: IsTerm(terms[i])
  }

  function Spell(terms: seq<Term>): string {
    if terms == [] then [] else Text(terms[0]) + Spell(terms[1..])
  }

  /** The whole units and what float64 makes of the fraction; none once int64's magnitude is passed. */
  function Nanos(t: Term, step: FractionStep): Option<nat>
    requires IsTerm(t)
  {
    var unit, fraction := UnitLength(t.unit).value, FractionPrefix(t.fraction, 0, 0);
    var whole := NatValue(t.whole) * unit;
    var value := whole + if fraction.0 > 0 then step(fraction.0, fraction.1, unit) else 0;
    if NatValue(t.whole) > TWO_TO_63 || value > TWO_TO_63 then None else Some(value)
  }

  lemma NanosAreParsed(t: Term, step: FractionStep)
    requires IsTerm(t)
    ensures UnitNanos(t.unit).Some?
    ensures Nanos(t, step) ==
      if NatValue(t.whole) > TWO_TO_63 then None
      else TermNanos(NatValue(t.whole), FractionPrefix(t.fraction, 0, 0), UnitNanos(t.unit).value, step)
  {
    hide UnitNanos, UnitLength, NatValue, FractionPrefix, TermNanos;
    UnitsAgree(t.unit);
    TermIsSum(NatValue(t.whole), FractionPrefix(t.fraction, 0, 0), UnitNanos(t.unit).value, step);
  }

  /** The parser's test of the quotient is the test of the product. */
  lemma TermIsSum(whole: nat, fraction: (nat, nat), unit: nat, step: FractionStep)
    requires unit > 0
    ensures var value := whole * unit + if fraction.0 > 0 then step(fraction.0, fraction.1, unit) else 0;
      TermNanos(whole, fraction, unit, step) == if value > TWO_TO_63 then None else Some(value)
  {
    Scaled(whole, unit);
  }

  function Sum(terms: seq<Term>, step: FractionStep): Option<nat>
    requires AreTerms(terms)
  {
    if terms == [] then Some(0)
    else
      var first, rest := Nanos(terms[0], step), Sum(terms[1..], step);
      if first.None? || rest.None? then None else Some(first.value + rest.value)
  }

  // ----- one term -----

  lemma {:induction false} UnitSpanIs(s: string, k: nat)
    requires k <= |s| && (forall i | 0 <= i < k :: !StartsNumber(s[i])) && (k < |s| ==> StartsNumber(s[k]))
    ensures UnitSpan(s) == k
    decreases k
  {
    if k > 0 {
      UnitSpanIs(s[1..], k - 1);
    }
  }

  /** The parser cuts a spelled term into the pieces it was made of. */
  lemma TermIsCut(t: Term, rest: string)
    requires IsNamed(t) && (rest == [] || StartsNumber(rest[0]))
    ensures var s := Text(t) + rest;
      Cuts(s).3 == |Text(t)| && Cut(s) == t && s[|Text(t)|..] == rest
  {
    hide Text, DecimalCuts;
    var point := if t.pointed then ['.'] else [];
    TextIs(t, point);
    var front := t.whole + point + t.fraction;
    var s := front + t.unit + rest;
    DecimalCutsOf(t.whole, point, t.fraction, t.unit + rest);
    assert s == front + (t.unit + rest);
    LiesBetween(front, t.unit, rest, s);
    UnitLies(s, |front|, t.unit);
  }

  lemma UnitLies(s: string, b: nat, unit: string)
    requires Lies(s, b, unit) && forall i | 0 <= i < |unit| :: !StartsNumber(unit[i])
    requires var rest := s[b + |unit|..]; rest == [] || StartsNumber(rest[0])
    ensures UnitSpan(s[b..]) == |unit|
  {
    forall k | 0 <= k < |unit| ensures !StartsNumber(s[b..][k]) {
      assert s[b..][k] == s[b..b + |unit|][k];
    }
    UnitSpanIs(s[b..], |unit|);
  }

  lemma TermStarts(t: Term)
    requires IsNamed(t)
    ensures Text(t) != [] && StartsNumber(Text(t)[0])
  {
  }

  lemma NextIsFirst(t: Term, rest: string, step: FractionStep)
    requires IsTerm(t) && (rest == [] || StartsNumber(rest[0]))
    ensures var s := Text(t) + rest;
      s != [] &&
      NextTerm(s, step) == if Nanos(t, step).None? then Rejected else Read((Nanos(t, step).value, rest))
  {
    hide UnitNanos, UnitLength, NatValue, TermNanos, FractionPrefix, Text, IsInherited, Nanos;
    TermIsCut(t, rest);
    TermStarts(t);
    NanosAreParsed(t, step);
  }

  /** A trap raises, whatever follows it. */
  lemma NextIsTrap(t: Term, rest: string, step: FractionStep)
    requires IsTrap(t) && (rest == [] || StartsNumber(rest[0]))
    ensures Text(t) + rest != [] && NextTerm(Text(t) + rest, step) == Raised
  {
    hide UnitNanos, NatValue, TermNanos, FractionPrefix, Text, IsInherited;
    TermIsCut(t, rest);
    TermStarts(t);
    TrapHasNoUnit(t);
  }

  lemma TrapHasNoUnit(t: Term)
    requires IsTrap(t)
    ensures UnitNanos(t.unit).None? && IsInherited(t.unit)
  {
    InheritedAgree(t.unit);
  }

  function Cut(s: string): Term {
    var cuts := Cuts(s);
    Term(s[..cuts.0], cuts.1 > cuts.0, s[cuts.1..cuts.2], s[cuts.2..cuts.3])
  }

  lemma CutIsPrefix(s: string)
    ensures s == Text(Cut(s)) + s[Cuts(s).3..]
    ensures s[Cuts(s).3..] == [] || StartsNumber(s[Cuts(s).3])
    ensures AllDigits(Cut(s).whole) && AllDigits(Cut(s).fraction) && (Cut(s).pointed || Cut(s).fraction == [])
    ensures forall i | 0 <= i < |Cut(s).unit| :: !StartsNumber(Cut(s).unit[i])
  {
    var (i, a, b, c) := Cuts(s);
    UnitCut(s);
    assert a > i ==> s[i..a] == ['.'];
    assert s[..i] + s[i..a] + s[a..b] + s[b..c] == s[..c];
    TextIs(Cut(s), s[i..a]);
  }

  lemma UnitCut(s: string)
    ensures forall i | 0 <= i < |Cut(s).unit| :: !StartsNumber(Cut(s).unit[i])
  {
    hide DecimalCuts;
    var cuts := Cuts(s);
    assert forall k | 0 <= k < cuts.3 - cuts.2 :: s[cuts.2..cuts.3][k] == s[cuts.2..][k];
  }

  lemma TextIs(t: Term, point: string)
    requires point == (if t.pointed then ['.'] else []) && (t.pointed || t.fraction == [])
    ensures Text(t) == t.whole + point + t.fraction + t.unit
  {
    assert t.whole + (point + t.fraction) == t.whole + point + t.fraction;
  }

  /** A term the parser reads is one of the language, and another follows it or nothing does. */
  lemma FirstIsTerm(s: string, step: FractionStep) returns (t: Term)
    requires s != [] && !NextTerm(s, step).Rejected?
    ensures if NextTerm(s, step).Read? then IsTerm(t) else IsTrap(t)
    ensures var rest := s[Cuts(s).3..];
      s == Text(t) + rest && (rest == [] || StartsNumber(rest[0])) &&
      (NextTerm(s, step).Read? ==> NextTerm(s, step).value.1 == rest)
  {
    hide UnitNanos, UnitLength, NatValue, TermNanos, FractionPrefix, Text, IsInherited, INHERITED;
    t := Cut(s);
    CutIsPrefix(s);
    UnitsAgree(t.unit);
    InheritedAgree(t.unit);
  }

  // ----- whole strings -----

  lemma SpellStarts(terms: seq<Term>, tail: string)
    requires AreTerms(terms) && (tail == [] || StartsNumber(tail[0]))
    ensures Spell(terms) == [] <==> terms == []
    ensures Spell(terms) + tail == [] || StartsNumber((Spell(terms) + tail)[0])
  {
    hide UnitNanos;
    if terms != [] {
      TermStarts(terms[0]);
    } else {
      assert [] + tail == tail;
    }
  }

  /** Every spelling of terms is read to their sum, or rejected where int64's magnitude is passed. */
  lemma {:induction false} ParsesSpelling(terms: seq<Term>, tail: string, total: nat, step: FractionStep)
    requires AreTerms(terms) && total <= TWO_TO_63 && (tail == [] || StartsNumber(tail[0]))
    ensures ParseTerms(Spell(terms) + tail, total, step) ==
      var sum := Sum(terms, step);
      if sum.None? || total + sum.value > TWO_TO_63 then Rejected else ParseTerms(tail, total + sum.value, step)
    decreases |terms|
  {
    hide NextTerm, TermNanos, FractionPrefix, UnitNanos, NatValue, IsNamed, StartsNumber;
    if terms == [] {
      assert [] + tail == tail;
    } else {
      var others := Spell(terms[1..]) + tail;
      SpellStarts(terms[1..], tail);
      NextIsFirst(terms[0], others, step);
      assert Spell(terms) + tail == Text(terms[0]) + others;
      var first := Nanos(terms[0], step);
      if first.Some? && total + first.value <= TWO_TO_63 {
        ParsesSpelling(terms[1..], tail, total + first.value, step);
      }
    }
  }

  /** What is read is spelled by terms; what raises is terms that fit and then a trap. */
  lemma {:induction false} ParsedIsSpelling(s: string, total: nat, step: FractionStep)
    returns (terms: seq<Term>, tail: string)
    requires total <= TWO_TO_63 && !ParseTerms(s, total, step).Rejected?
    ensures AreTerms(terms) && s == Spell(terms) + tail
    ensures ParseTerms(s, total, step).Read? ==> tail == []
    ensures ParseTerms(s, total, step).Raised? ==>
      Sum(terms, step).Some? && total + Sum(terms, step).value <= TWO_TO_63 && StartsWithTrap(tail)
    decreases |s|
  {
    hide NextTerm, Cuts, IsTrap, IsTerm, Nanos, Text, Spell, Sum, StartsNumber;
    if s == [] {
      terms, tail := [], [];
      NoTerms(s, step);
    } else {
      var t := FirstIsTerm(s, step);
      var rest := s[Cuts(s).3..];
      if NextTerm(s, step).Raised? {
        terms, tail := [], s;
        NoTerms(s, step);
        TrapBegins(t, rest);
      } else {
        NextIsFirst(t, rest, step);
        var next := NextTerm(s, step).value;
        var others;
        others, tail := ParsedIsSpelling(next.1, total + next.0, step);
        terms := [t] + others;
        Prepended(t, others, tail, step);
      }
    }
  }

  lemma NoTerms(s: string, step: FractionStep)
    ensures Spell([]) + s == s && Sum([], step) == Some(0)
  {
    assert [] + s == s;
  }

  lemma Prepended(t: Term, others: seq<Term>, tail: string, step: FractionStep)
    requires IsTerm(t) && AreTerms(others)
    ensures AreTerms([t] + others) && Spell([t] + others) + tail == Text(t) + (Spell(others) + tail)
    ensures Nanos(t, step).Some? && Sum(others, step).Some? ==>
      Sum([t] + others, step) == Some(Nanos(t, step).value + Sum(others, step).value)
  {
    hide Nanos, Text, IsTerm;
    assert ([t] + others)[1..] == others;
    assert Text(t) + (Spell(others) + tail) == Text(t) + Spell(others) + tail;
  }

  /** Whether `s` is the trap and then a number, or nothing. */
  predicate IsTrapBefore(s: string, t: Term, rest: string) {
    IsTrap(t) && s == Text(t) + rest && (rest == [] || StartsNumber(rest[0]))
  }

  ghost predicate StartsWithTrap(s: string) {
    exists t, rest :: IsTrapBefore(s, t, rest)
  }

  lemma TrapBegins(t: Term, rest: string)
    requires IsTrap(t) && (rest == [] || StartsNumber(rest[0]))
    ensures StartsWithTrap(Text(t) + rest)
  {
    assert IsTrapBefore(Text(t) + rest, t, rest);
  }

  lemma TrapStarts(s: string, step: FractionStep)
    requires StartsWithTrap(s)
    ensures s != [] && StartsNumber(s[0]) && |s| >= 2 && NextTerm(s, step) == Raised
  {
    hide NextTerm, UnitNanos, IsInherited;
    var t, rest :| IsTrapBefore(s, t, rest);
    TermStarts(t);
    NextIsTrap(t, rest, step);
  }

  // ----- durations -----

  /** What follows the optional sign. */
  function Body(input: string): string {
    if input != [] && (input[0] == '-' || input[0] == '+') then input[1..] else input
  }

  function Signed(input: string, n: nat): int {
    if input != [] && input[0] == '-' then 0 - n as int else n
  }

  /** A duration's body: one or more terms, or a bare zero. */
  ghost predicate Spells(body: string, terms: seq<Term>) {
    AreTerms(terms) && if terms == [] then body == ['0'] else body == Spell(terms)
  }

  /** For every input spelled by terms, the parser returns their signed sum exactly when int64 holds it. */
  lemma SpelledDuration(input: string, terms: seq<Term>, step: FractionStep)
    requires Spells(Body(input), terms)
    ensures ParseDuration(input, step) ==
      var sum := Sum(terms, step);
      if sum.None? || !InInt64(Signed(input, sum.value)) then Rejected else Read(Signed(input, sum.value))
  {
    hide NextTerm, Nanos, IsNamed;
    SpellStarts(terms, []);
    ParsesSpelling(terms, [], 0, step);
    assert Spell(terms) + [] == Spell(terms);
    if terms != [] && Spell(terms) == "0" {
      NotBareZero(terms);
    }
  }

  lemma NotBareZero(terms: seq<Term>)
    requires AreTerms(terms) && terms != []
    ensures |Spell(terms)| >= 2
  {
  }

  /** Nothing else is accepted. */
  lemma AcceptedIsSpelled(input: string, step: FractionStep) returns (terms: seq<Term>)
    requires ParseDuration(input, step).Read?
    ensures Spells(Body(input), terms)
  {
    hide NextTerm;
    if Body(input) == "0" {
      terms := [];
    } else {
      var tail;
      terms, tail := ParsedIsSpelling(Body(input), 0, step);
      assert Spell(terms) + [] == Spell(terms);
    }
  }

  /** Whatever float64 does to a fraction, an accepted duration fits int64. */
  lemma AcceptedFits(input: string, step: FractionStep)
    requires ParseDuration(input, step).Read?
    ensures InInt64(ParseDuration(input, step).value)
  {
    hide NextTerm, Nanos;
    var terms := AcceptedIsSpelled(input, step);
    SpelledDuration(input, terms, step);
  }

  /** Terms whose sum fits, and then a decimal with an inherited name for its unit. */
  ghost predicate Trapped(body: string, step: FractionStep) {
    exists terms, tail :: TrappedAfter(body, terms, tail, step)
  }

  ghost predicate TrappedAfter(body: string, terms: seq<Term>, tail: string, step: FractionStep) {
    AreTerms(terms) && body == Spell(terms) + tail && Sum(terms, step).Some? &&
    Sum(terms, step).value <= TWO_TO_63 && StartsWithTrap(tail)
  }

  /** The parser raises an exception exactly where a term with an inherited unit name is reached. */
  lemma RaisesExactly(input: string, step: FractionStep)
    ensures ParseDuration(input, step).Raised? <==> Trapped(Body(input), step)
  {
    hide ParseDuration, Trapped, TrappedAfter;
    if ParseDuration(input, step).Raised? {
      RaisedIsTrapped(input, step);
    }
    if Trapped(Body(input), step) {
      TrappedRaises(input, step);
    }
  }

  lemma RaisedIsTrapped(input: string, step: FractionStep)
    requires ParseDuration(input, step).Raised?
    ensures Trapped(Body(input), step)
  {
    hide NextTerm, Nanos, IsTrap, IsTerm;
    var terms, tail := ParsedIsSpelling(Body(input), 0, step);
    assert TrappedAfter(Body(input), terms, tail, step);
  }

  lemma TrappedRaises(input: string, step: FractionStep)
    requires Trapped(Body(input), step)
    ensures ParseDuration(input, step).Raised?
  {
    hide ParseTerms, Trapped, TrappedAfter;
    TermsRaise(Body(input), step);
  }

  lemma TermsRaise(body: string, step: FractionStep)
    requires Trapped(body, step)
    ensures |body| >= 2 && ParseTerms(body, 0, step).Raised?
  {
    hide NextTerm, Nanos, IsTrap, IsTerm, StartsWithTrap, Sum, Spell, StartsNumber;
    var terms, tail :| TrappedAfter(body, terms, tail, step);
    TrapStarts(tail, step);
    ParsesSpelling(terms, tail, 0, step);
  }

  // ----- without fractions -----

  /** The exact sum of the whole numbers times their units. */
  function Exact(terms: seq<Term>): nat
    requires AreTerms(terms)
  {
    if terms == [] then 0
    else NatValue(terms[0].whole) * UnitLength(terms[0].unit).value + Exact(terms[1..])
  }

  lemma WholeNanos(t: Term, step: FractionStep)
    requires IsTerm(t) && t.fraction == []
    ensures var exact := NatValue(t.whole) * UnitLength(t.unit).value;
      Nanos(t, step) == if exact > TWO_TO_63 then None else Some(exact)
  {
    Scaled(NatValue(t.whole), UnitLength(t.unit).value);
  }

  lemma Scaled(whole: nat, unit: nat)
    requires unit > 0
    ensures whole > TWO_TO_63 / unit <==> whole * unit > TWO_TO_63
    ensures whole > TWO_TO_63 ==> whole * unit > TWO_TO_63
  {
    var quotient := TWO_TO_63 / unit;
    Divided(TWO_TO_63, unit);
    if whole > quotient {
      ProductGrows(quotient + 1, whole, unit);
    } else {
      ProductGrows(whole, quotient, unit);
    }
    ProductGrows(1, unit, whole);
  }

  lemma Divided(n: nat, unit: nat)
    requires unit > 0
    ensures n / unit * unit <= n < (n / unit + 1) * unit
  {
    assert n == unit * (n / unit) + n % unit;
  }

  lemma ProductGrows(a: nat, b: nat, factor: nat)
    requires a <= b
    ensures a * factor <= b * factor
  {
  }

  lemma {:induction false} WholeSum(terms: seq<Term>, step: FractionStep)
    requires AreTerms(terms) && forall i | 0 <= i < |terms| :: terms[i].fraction == []
    ensures if Sum(terms, step).Some? then Sum(terms, step) == Some(Exact(terms)) else Exact(terms) > TWO_TO_63
    decreases |terms|
  {
    hide Nanos, UnitLength, NatValue;
    if terms != [] {
      WholeNanos(terms[0], step);
      WholeSum(terms[1..], step);
      assert NatValue(terms[0].whole) * UnitLength(terms[0].unit).value >= 0;
    }
  }

  lemma PointIsSpelled(t: Term)
    ensures t.pointed ==> '.' in Text(t)
  {
    if t.pointed {
      assert Text(t)[|t.whole|] == '.';
    }
  }

  lemma {:induction false} PointFree(terms: seq<Term>)
    requires AreTerms(terms) && '.' !in Spell(terms)
    ensures forall i | 0 <= i < |terms| :: terms[i].fraction == []
    decreases |terms|
  {
    if terms != [] {
      var first := Text(terms[0]);
      assert forall c | c in first :: c in Spell(terms);
      assert forall c | c in Spell(terms[1..]) :: c in Spell(terms);
      PointIsSpelled(terms[0]);
      PointFree(terms[1..]);
    }
  }

  /**
    An input without a point is accepted exactly when it is spelled by terms whose exact signed sum is an
    int64, and that sum is the result; -2^63 is one.
   */
  lemma WholeDurations(input: string, step: FractionStep)
    requires '.' !in input
    ensures ParseDuration(input, step).Read? <==>
      exists terms :: Spells(Body(input), terms) && InInt64(Signed(input, Exact(terms)))
    ensures forall terms | Spells(Body(input), terms) && InInt64(Signed(input, Exact(terms))) ::
      ParseDuration(input, step) == Read(Signed(input, Exact(terms)))
  {
    if ParseDuration(input, step).Read? {
      var terms := AcceptedIsSpelled(input, step);
      WholeDuration(input, terms, step);
    }
    forall terms | Spells(Body(input), terms) && InInt64(Signed(input, Exact(terms)))
      ensures ParseDuration(input, step) == Read(Signed(input, Exact(terms)))
    {
      WholeDuration(input, terms, step);
    }
  }

  lemma WholeDuration(input: string, terms: seq<Term>, step: FractionStep)
    requires '.' !in input && Spells(Body(input), terms)
    ensures ParseDuration(input, step) ==
      if InInt64(Signed(input, Exact(terms))) then Read(Signed(input, Exact(terms))) else Rejected
  {
    hide ParseDuration, Sum, Exact;
    SpelledDuration(input, terms, step);
    assert forall c | c in Body(input) :: c in input;
    if terms != [] {
      PointFree(terms);
    }
    WholeSum(terms, step);
  }
}
