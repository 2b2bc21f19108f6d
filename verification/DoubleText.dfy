/** CEL's `string()` over a double: Go's %g layout of the shortest round-trip digits. */
module DoubleText {
  import opened Texts

  /** The number `d.ddd * 10^exponent`, its digits listed without the point. */
  datatype Decimal = Decimal(digits: string, exponent: int)

  function Zeros(n: nat): (s: string)
    ensures |s| == n && AllDigits(s)
    ensures forall i | 0 <= i < n :: s[i] == '0'
  {
    seq(n, _ => '0')
  }

  /** An exponent's magnitude in at least two digits. */
  function PadTwo(n: nat): (s: string)
    ensures s != [] && AllDigits(s) && NatValue(s) == n
  {
    var text := NatText(n);
    if |text| < 2 then
      var s := "0" + text;
      assert s[..1] == "0" && "0"[..0] == "";
      s
    else text
  }

  function ExponentForm(sign: string, d: Decimal): string
    requires d.digits != []
  {
    var fraction := if |d.digits| > 1 then "." + d.digits[1..] else "";
    var magnitude := PadTwo(if d.exponent < 0 then -d.exponent else d.exponent);
    sign + d.digits[..1] + fraction + "e" + (if d.exponent < 0 then "-" else "+") + magnitude
  }

  /** The evaluator's layout of a finite, non-zero double. */
  function FormatGo(neg: bool, d: Decimal): string
    requires d.digits != []
  {
    var sign := if neg then "-" else "";
    var pointAt := d.exponent + 1;
    if d.exponent < -4 || d.exponent >= 6 then ExponentForm(sign, d)
    else if pointAt <= 0 then sign + "0." + Zeros(-pointAt) + d.digits
    else if pointAt >= |d.digits| then sign + d.digits + Zeros(pointAt - |d.digits|)
    else sign + d.digits[..pointAt] + "." + d.digits[pointAt..]
  }
}
