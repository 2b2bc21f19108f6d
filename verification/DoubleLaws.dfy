/** Doubles against the extended reals: their order, what each operation is exact to, and the signs. */
module DoubleLaws {
  import opened Doubles

  /** Where a double lies on the extended line: below, on or above the reals, and where on them. */
  function Side(d: Double): int
    requires !d.NaN?
  {
    match d
    case Inf(neg) => if neg then -1 else 1
    case Fin(_, _) => 0
  }

  predicate Before(a: Double, b: Double)
    requires !a.NaN? && !b.NaN?
  {
    Side(a) < Side(b) || (Side(a) == 0 && Side(b) == 0 && a.Real() < b.Real())
  }

  /** The order is that of the extended line, and NaN is outside it. */
  lemma LessIsBefore(a: Double, b: Double)
    ensures Less(a, b) <==> !a.NaN? && !b.NaN? && Before(a, b)
    ensures Same(a, b) <==> !a.NaN? && !b.NaN? && !Before(a, b) && !Before(b, a)
  {
  }

  /** A real is carried exactly, and its zero is the positive one. */
  lemma RealIsExact(r: real)
    ensures FromReal(r).Fin? && FromReal(r).Real() == r && (FromReal(r).neg <==> r < 0.0)
  {
  }

  /** Truncation drops the fraction toward zero. */
  lemma TruncatesTowardZero(d: Double)
    requires d.Fin?
    ensures var whole := d.Truncated() as real;
      if d.Real() < 0.0 then d.Real() <= whole < d.Real() + 1.0 && whole <= 0.0
      else d.Real() - 1.0 < whole <= d.Real() && whole >= 0.0
    ensures d.IsInteger() <==> d.Truncated() as real == d.Real()
  {
    assert (-d.mag.Floor) as real == 0.0 - d.mag.Floor as real;
  }

  predicate Denotes(d: Double, i: int) {
    d.Fin? && d.Real() == i as real
  }

  /** Whether the double is a whole number. */
  ghost predicate IsWhole(d: Double) {
    exists i :: Denotes(d, i)
  }

  lemma WholeNumbers(d: Double)
    ensures d.IsInteger() <==> IsWhole(d)
  {
    if d.Fin? {
      TruncatesTowardZero(d);
      var t := d.Truncated();
      assert d.IsInteger() ==> Denotes(d, t);
      if IsWhole(d) {
        var i :| Denotes(d, i);
        assert d.Real() < 0.0 ==> i <= t < i + 1;
        assert d.Real() >= 0.0 ==> i - 1 < t <= i;
      }
    }
  }

  /** The operands of an operation without a value: NaN, or infinities that meet. */
  predicate Cancels(a: Double, b: Double) {
    a.NaN? || b.NaN? || (a.Inf? && b.Inf? && a.neg != b.neg)
  }

  lemma SumIsExact(a: Double, b: Double)
    ensures Add(a, b).NaN? <==> Cancels(a, b)
    ensures !Cancels(a, b) && (a.Inf? || b.Inf?) ==> Add(a, b) == if a.Inf? then a else b
    ensures a.Fin? && b.Fin? ==> Add(a, b).Fin? && Add(a, b).Real() == a.Real() + b.Real()
    ensures a.Fin? && b.Fin? ==> (Add(a, b).neg <==> a.Real() + b.Real() < 0.0 || (a.neg && b.neg))
  {
  }

  lemma DifferenceIsExact(a: Double, b: Double)
    ensures Sub(a, b).NaN? <==> a.NaN? || b.NaN? || (a.Inf? && b.Inf? && a.neg == b.neg)
    ensures !Sub(a, b).NaN? && a.Inf? ==> Sub(a, b) == a
    ensures a.Fin? && b.Inf? ==> Sub(a, b) == Inf(!b.neg)
    ensures a.Fin? && b.Fin? ==> Sub(a, b).Fin? && Sub(a, b).Real() == a.Real() - b.Real()
    ensures a.Fin? && b.Fin? ==> (Sub(a, b).neg <==> a.Real() < b.Real() || (a.neg && !b.neg && a.Real() == b.Real()))
  {
  }

  predicate Negative(d: Double)
    requires !d.NaN?
  {
    match d
    case Inf(neg) => neg
    case Fin(neg, _) => neg
  }

  /** A product's sign is negative where one operand's is, zeros and infinities included. */
  lemma ProductIsExact(a: Double, b: Double)
    ensures Mul(a, b).NaN? <==> a.NaN? || b.NaN? || (a.Inf? && b.IsZero()) || (a.IsZero() && b.Inf?)
    ensures !Mul(a, b).NaN? ==> (Negative(Mul(a, b)) <==> Negative(a) != Negative(b))
    ensures !Mul(a, b).NaN? ==> (Mul(a, b).Inf? <==> a.Inf? || b.Inf?)
    ensures a.Fin? && b.Fin? ==> Mul(a, b).Real() == a.Real() * b.Real()
  {
    if a.Fin? && b.Fin? {
      SignedProduct(a.neg, a.mag, b.neg, b.mag);
    }
  }

  lemma SignedProduct(n: bool, x: real, m: bool, y: real)
    ensures (if n then 0.0 - x else x) * (if m then 0.0 - y else y) == if n != m then 0.0 - x * y else x * y
  {
    assert (0.0 - x) * y == 0.0 - x * y && x * (0.0 - y) == 0.0 - x * y && (0.0 - x) * (0.0 - y) == x * y;
  }

  /** A quotient multiplied back is the dividend; over a zero it is infinite, under an infinity zero. */
  lemma QuotientIsExact(a: Double, b: Double)
    ensures Div(a, b).NaN? <==> a.NaN? || b.NaN? || (a.Inf? && b.Inf?) || (a.IsZero() && b.IsZero())
    ensures !Div(a, b).NaN? ==> (Negative(Div(a, b)) <==> Negative(a) != Negative(b))
    ensures !Div(a, b).NaN? ==> (Div(a, b).Inf? <==> a.Inf? || b.IsZero())
    ensures a.Fin? && b.Inf? ==> Div(a, b).IsZero()
    ensures a.Fin? && b.Fin? && !b.IsZero() ==> Div(a, b).Real() * b.Real() == a.Real()
  {
    if a.Fin? && b.Fin? && !b.IsZero() {
      SignedProduct(a.neg != b.neg, a.mag / b.mag, b.neg, b.mag);
    }
  }

  /** The dividend is a whole number of divisors and a remainder nearer zero, of the dividend's sign. */
  ghost predicate IsRemainder(a: Double, b: Double, r: Double)
    requires a.Fin? && b.Fin? && r.Fin?
  {
    (exists q :: Leaves(a, b, q, r)) && r.mag < b.mag && r.neg == a.neg
  }

  predicate Leaves(a: Double, b: Double, q: int, r: Double)
    requires a.Fin? && b.Fin? && r.Fin?
  {
    a.Real() == q as real * b.Real() + r.Real()
  }

  lemma RemainderIsExact(a: Double, b: Double)
    ensures Mod(a, b).NaN? <==> !a.Fin? || b.NaN? || b.IsZero()
    ensures a.Fin? && b.Inf? ==> Mod(a, b) == a
    ensures a.Fin? && b.Fin? && !b.IsZero() ==> Mod(a, b).Fin? && IsRemainder(a, b, Mod(a, b))
  {
    if a.Fin? && b.Fin? && !b.IsZero() {
      var quotient := (a.mag / b.mag).Floor;
      BelowDivisor(a.mag, b.mag);
      SignedProduct(false, quotient as real, b.neg, b.mag);
      var q := if a.neg == b.neg then quotient else -quotient;
      assert (-quotient) as real == 0.0 - quotient as real;
      SignedProduct(a.neg != b.neg, quotient as real, b.neg, b.mag);
      assert Leaves(a, b, q, Mod(a, b));
    }
  }

  lemma BelowDivisor(x: Magnitude, y: Magnitude)
    requires y > 0.0
    ensures x == (x / y).Floor as real * y + Remainder(x, y) && Remainder(x, y) < y
  {
    var ratio, quotient := x / y, (x / y).Floor as real;
    assert ratio * y == x;
    PartOfDivisor(ratio, quotient, x, y);
  }

  lemma PartOfDivisor(ratio: real, quotient: real, x: real, y: real)
    requires ratio < quotient + 1.0 && y > 0.0 && x == ratio * y
    ensures x - quotient * y < y
  {
    var left := ratio - quotient;
    assert ratio == quotient + left;
    assert x == quotient * y + left * y;
    assert (1.0 - left) * y > 0.0;
    assert (1.0 - left) * y == y - left * y;
  }
}
