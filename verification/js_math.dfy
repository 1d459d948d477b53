/** Integer forms of the JavaScript arithmetic the screens use: `Math.round`
    of a ratio, `Math.max`, and the truncating remainder `%`. */
module JsMath {

  function Max(a: int, b: int): (r: int)
    ensures r >= a && r >= b && (r == a || r == b)
  {
    if a >= b then a else b
  }

  /** `Math.round(a / b)` for b > 0: the nearest integer, halves rounded up
      (toward +infinity, as `Math.round` does). */
  function RoundDiv(a: int, b: int): (r: int)
    requires b > 0
    ensures 2 * b * r - b <= 2 * a < 2 * b * r + b
  {
    (2 * a + b) / (2 * b)
  }

  /** Cancelling a positive factor from a strict product bound. */
  lemma CancelPositive(b: int, x: int, y: int)
    requires b > 0 && b * x < b * (y + 1)
    ensures x <= y
  {
  }

  /** The rounded quotient is the only integer within half a unit of a / b. */
  lemma RoundDivUnique(a: int, b: int, k: int)
    requires b > 0
    requires 2 * b * k - b <= 2 * a < 2 * b * k + b
    ensures RoundDiv(a, b) == k
  {
    var r := RoundDiv(a, b);
    CancelPositive(2 * b, k, r);
    CancelPositive(2 * b, r, k);
  }

  /** Rounding is monotone in the numerator. */
  lemma RoundDivMonotone(a: int, a': int, b: int)
    requires b > 0 && a <= a'
    ensures RoundDiv(a, b) <= RoundDiv(a', b)
  {
    CancelPositive(2 * b, RoundDiv(a, b), RoundDiv(a', b));
  }

  /** JavaScript `a % b` for integer operands and b > 0: the result takes the
      sign of a, unlike Dafny's `%`. */
  function JsRem(a: int, b: int): (r: int)
    requires b > 0
    ensures a >= 0 ==> r == a % b
    ensures a < 0 ==> -b < r <= 0
  {
    if a >= 0 then a % b else -((-a) % b)
  }
}
