/**
  IEEE 754 doubles with the sign of zero, the infinities and NaN kept exact, and rounding left out:
  a finite double is a sign and a non-negative real magnitude.
*/
module Doubles {

  type Magnitude = r: real | r >= 0.0

  datatype Double = NaN | Inf(neg: bool) | Fin(neg: bool, mag: Magnitude) {
    /** The real number a finite double denotes; both zeros denote 0. */
    function Real(): (r: real)
      requires Fin?
    {
      if neg then 0.0 - mag else mag
    }

    predicate IsZero() {
      Fin? && mag == 0.0
    }

    /** JavaScript's Number.isInteger. */
    predicate IsInteger() {
      Fin? && mag == mag.Floor as real
    }

    function Truncated(): int
      requires Fin?
    {
      if neg then -mag.Floor else mag.Floor
    }
  }

  function FromReal(r: real): (d: Double) {
    if r < 0.0 then Fin(true, -r) else Fin(false, r)
  }

  function FromInt(i: int): Double {
    FromReal(i as real)
  }

  /** The order of the extended reals; NaN is unordered. */
  predicate Less(a: Double, b: Double) {
    match (a, b)
    case (NaN, _) => false
    case (_, NaN) => false
    case (Inf(n), Inf(m)) => n && !m
    case (Inf(n), Fin(_, _)) => n
    case (Fin(_, _), Inf(m)) => !m
    case (Fin(_, _), Fin(_, _)) => a.Real() < b.Real()
  }

  /** IEEE equality: both zeros are equal, and NaN equals nothing. */
  predicate Same(a: Double, b: Double) {
    match (a, b)
    case (NaN, _) => false
    case (_, NaN) => false
    case (Inf(n), Inf(m)) => n == m
    case (Fin(_, _), Fin(_, _)) => a.Real() == b.Real()
    case _ => false
  }

  function Negate(a: Double): Double {
    match a
    case NaN => NaN
    case Inf(n) => Inf(!n)
    case Fin(n, m) => Fin(!n, m)
  }

  /** A sum of two finite doubles; an exact zero is negative only when both operands are. */
  function AddFinite(a: Double, b: Double): Double
    requires a.Fin? && b.Fin?
  {
    var sum := a.Real() + b.Real();
    if sum == 0.0 then Fin(a.neg && b.neg, 0.0) else FromReal(sum)
  }

  function Add(a: Double, b: Double): Double {
    match (a, b)
    case (NaN, _) => NaN
    case (_, NaN) => NaN
    case (Inf(n), Inf(m)) => if n == m then a else NaN
    case (Inf(_), Fin(_, _)) => a
    case (Fin(_, _), Inf(_)) => b
    case (Fin(_, _), Fin(_, _)) => AddFinite(a, b)
  }

  function Sub(a: Double, b: Double): Double {
    Add(a, Negate(b))
  }

  function Mul(a: Double, b: Double): Double {
    match (a, b)
    case (NaN, _) => NaN
    case (_, NaN) => NaN
    case (Inf(n), Inf(m)) => Inf(n != m)
    case (Inf(n), Fin(m, y)) => if y == 0.0 then NaN else Inf(n != m)
    case (Fin(n, x), Inf(m)) => if x == 0.0 then NaN else Inf(n != m)
    case (Fin(n, x), Fin(m, y)) => Fin(n != m, x * y)
  }

  /** Division: a zero divisor keeps its sign, so it yields a signed infinity, or NaN under zero. */
  function Div(a: Double, b: Double): Double {
    match (a, b)
    case (NaN, _) => NaN
    case (_, NaN) => NaN
    case (Inf(_), Inf(_)) => NaN
    case (Inf(n), Fin(m, _)) => Inf(n != m)
    case (Fin(n, _), Inf(m)) => Fin(n != m, 0.0)
    case (Fin(n, x), Fin(m, y)) =>
      if y == 0.0 then (if x == 0.0 then NaN else Inf(n != m)) else Fin(n != m, x / y)
  }

  /** The remainder of a truncated division, as non-negative magnitudes. */
  function Remainder(x: Magnitude, y: Magnitude): Magnitude
    requires y > 0.0
  {
    var quotient := (x / y).Floor as real;
    assert quotient <= x / y;
    assert quotient * y <= x / y * y == x;
    x - quotient * y
  }

  /** JavaScript's `%`: the sign is the dividend's. */
  function Mod(a: Double, b: Double): Double {
    match (a, b)
    case (Fin(n, x), Fin(_, y)) => if y == 0.0 then NaN else Fin(n, Remainder(x, y))
    case (Fin(_, _), Inf(_)) => a
    case _ => NaN
  }
}
