/** Integer arithmetic as the timer performs it in JavaScript.
    `Number.parseInt(a / b, 10)` on integers truncates the quotient toward zero,
    and `%` leaves a remainder with the sign of the dividend. Dafny's own `/` and
    `%` are Euclidean, so the two operators are written out here. */
module JsMath {

  /** The quotient `a / b` truncated toward zero, for a positive divisor: the
      left-over `a - q * b` has the sign of the dividend and is smaller than the
      divisor, and on a non-negative dividend the quotient is Dafny's Euclidean one. */
  function TruncDiv(a: int, b: int): (q: int)
    requires b > 0
    ensures a >= 0 ==> q == a / b
    ensures a >= 0 ==> 0 <= a - q * b < b
    ensures a < 0 ==> -b < a - q * b <= 0
    ensures a < 0 ==> q <= 0
  {
    if a >= 0 then a / b else -((-a) / b)
  }

  /** JavaScript's `a % b` for a positive divisor: the remainder carries the
      sign of the dividend and has the magnitude of the Euclidean remainder of `|a|`. */
  function TruncRem(a: int, b: int): (r: int)
    requires b > 0
    ensures a >= 0 ==> r == a % b
    ensures a < 0 ==> r == -((-a) % b)
    ensures -b < r < b
  {
    a - b * TruncDiv(a, b)
  }

  /** Truncating division is monotone in the dividend. */
  lemma TruncDivMonotone(a1: int, a2: int, b: int)
    requires b > 0 && a1 <= a2
    ensures TruncDiv(a1, b) <= TruncDiv(a2, b)
  {
    var q1, q2 := TruncDiv(a1, b), TruncDiv(a2, b);
    if q1 > q2 {
      // q1 * b - q2 * b >= b, yet a1 - q1 * b and a2 - q2 * b differ by less than b
      MulStrictMonotone(q2, q1, b);
      assert false;
    }
  }

  lemma MulStrictMonotone(x: int, y: int, b: int)
    requires x < y && b > 0
    ensures x * b + b <= y * b
  {
    var d := y - x - 1;
    assert d >= 0;
    assert y * b == x * b + b + d * b;
    assert d * b >= 0;
  }

  /** Dividing an exact multiple gives back the multiplier, whatever its sign. */
  lemma TruncDivExact(q: int, b: int)
    requires b > 0
    ensures TruncDiv(q * b, b) == q
  {
    var r := TruncDiv(q * b, b);
    if r < q {
      MulStrictMonotone(r, q, b);
    } else if r > q {
      MulStrictMonotone(q, r, b);
    }
  }
}
