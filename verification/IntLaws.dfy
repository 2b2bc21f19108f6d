/** Laws of CEL's int64 arithmetic and of the conversions between ints and strings. */
module IntLaws {
  import opened Wrappers
  import D = Doubles
  import opened Texts
  import opened Durations
  import opened Cel

  lemma WholeReal(i: int)
    ensures D.FromInt(i).IsInteger() && D.FromInt(i).Truncated() == i
  {
    var magnitude := if i < 0 then -i else i;
    assert (magnitude as real).Floor == magnitude;
    assert D.FromInt(i) == D.Fin(i < 0, magnitude as real);
  }

  /** An int is carried without loss, as a number while it is safe and as a bigint past that. */
  lemma CarriedExactly(i: int)
    ensures CelInt(i).Ok? <==> InInt64(i)
    ensures CelInt(i).Ok? ==> ToBigInt(CelInt(i).value) == Some(i)
    ensures !CelInt(i).Throw?
  {
    WholeReal(i);
  }

  /** What truncated division takes off the dividend has its sign and the divided magnitude. */
  lemma QuotientTaken(a: int, b: int)
    requires b != 0
    ensures var taken := Absolute(b) * (Absolute(a) / Absolute(b));
      b * Quotient(a, b) == if a < 0 then 0 - taken else taken
  {
    var y, q := Absolute(b), Absolute(a) / Absolute(b);
    if b < 0 {
      if a < 0 {
        Negated(y, q);
      } else {
        NegatedTwice(y, q);
      }
    } else if a < 0 {
      NegatedFactor(y, q);
    }
  }

  lemma Negated(y: int, q: int)
    ensures (0 - y) * q == 0 - y * q
  {
  }

  lemma NegatedFactor(y: int, q: int)
    ensures y * (0 - q) == 0 - y * q
  {
  }

  lemma NegatedTwice(y: int, q: int)
    ensures (0 - y) * (0 - q) == y * q
  {
  }

  /** Division truncates toward zero, and the remainder takes the dividend's sign. */
  lemma QuotientTruncates(a: int, b: int)
    requires b != 0
    ensures var remainder := a - b * Quotient(a, b);
      Absolute(remainder) < Absolute(b) && (remainder > 0 ==> a > 0) && (remainder < 0 ==> a < 0)
  {
    hide Quotient;
    QuotientTaken(a, b);
    MagnitudeLeft(Absolute(a), Absolute(b));
    RemainderSign(a, b, Absolute(b) * (Absolute(a) / Absolute(b)), b * Quotient(a, b));
  }

  lemma MagnitudeLeft(x: nat, y: nat)
    requires y > 0
    ensures 0 <= y * (x / y) && 0 <= x - y * (x / y) < y
  {
    assert x == y * (x / y) + x % y;
  }

  lemma RemainderSign(a: int, b: int, taken: nat, product: int)
    requires product == (if a < 0 then 0 - taken else taken) && 0 <= Absolute(a) - taken < Absolute(b)
    ensures var remainder := a - product;
      Absolute(remainder) < Absolute(b) && (remainder > 0 ==> a > 0) && (remainder < 0 ==> a < 0)
  {
  }

  function Absolute(i: int): (magnitude: nat)
    ensures i != 0 ==> magnitude > 0
  {
    if i < 0 then -i else i
  }

  /** The exact integer an operation yields; none for a zero divisor. */
  function Exact(op: Arithmetic, a: int, b: int): Option<int> {
    match op
    case Add => Some(a + b)
    case Sub => Some(a - b)
    case Mult => Some(a * b)
    case Div => if b == 0 then None else Some(Quotient(a, b))
    case Mod => if b == 0 then None else Some(a - b * Quotient(a, b))
  }

  /** Arithmetic on carried ints is exact, and errs exactly on overflow of int64 or a zero divisor. */
  lemma ArithmeticIsExact(op: Arithmetic, left: Value, right: Value)
    requires ToBigInt(left).Some? && ToBigInt(right).Some?
    ensures var exact := Exact(op, ToBigInt(left).value, ToBigInt(right).value);
      var r := IntArithmetic(op, left, right);
      if exact.Some? && InInt64(exact.value) then r.Ok? && ToBigInt(r.value) == exact else r == Err
  {
    var exact := Exact(op, ToBigInt(left).value, ToBigInt(right).value);
    if exact.Some? {
      CarriedExactly(exact.value);
    }
  }

  lemma SignedNumeral(i: int)
    ensures IsIntText(IntText(i)) && IntText(i) != []
    ensures (IntText(i)[0] == '-' <==> i < 0) && NatValue(Unsigned(IntText(i))) == Absolute(i)
  {
    if i < 0 {
      assert IntText(i)[1..] == NatText(-i);
    } else {
      assert IsDigit(NatText(i)[0]);
    }
  }

  /** `int(string(i))` is `i` for every int64, on both sides of the safe range. */
  lemma IntOfString(i: int, host: Host)
    requires InInt64(i)
    ensures CelInt(i).Ok?
    ensures var text := ConvertToString(CelInt(i).value, true, host);
      text.Ok? && ConvertToInt(text.value) == CelInt(i)
  {
    hide NatText, NatValue, FormatDouble, IntText, Unsigned, IsIntText;
    CarriedExactly(i);
    WholeReal(i);
    SignedNumeral(i);
  }
}
