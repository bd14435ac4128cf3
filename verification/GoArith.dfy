/** Go's integer division and its float-to-integer conversion, which truncate toward zero. */
module GoArith {

  /** Go's `a / b` for a positive divisor. */
  function Quo(a: int, b: int): int
    requires b > 0
  {
    if a >= 0 then a / b else -((-a) / b)
  }

  /** Go's `a % b` for a positive divisor: the remainder takes the sign of the dividend. */
  function Rem(a: int, b: int): int
    requires b > 0
  {
    a - b * Quo(a, b)
  }

  /** Go's conversion of a float to int64. */
  function Trunc(x: real): int {
    if x >= 0.0 then x.Floor else -((-x).Floor)
  }

  function Min(a: int, b: int): int {
    if a <= b then a else b
  }

  function Max(a: int, b: int): int {
    if a <= b then b else a
  }

  /** An index below twice the length of a ring wraps at most once. */
  lemma ModOnce(i: int, n: int)
    requires 0 <= i < 2 * n
    ensures i % n == if i < n then i else i - n
  {
    if i >= n {
      assert i == n * 1 + (i - n);
      assert (i - n) % n == i - n;
      assert (i - n + n) % n == (i - n) % n;
    }
  }

  /** Multiplying by a positive number keeps a strict order, with a whole step to spare. */
  lemma MulStep(b: int, x: int, y: int)
    requires b > 0
    ensures x < y ==> b * x + b <= b * y
  {
    if x < y {
      var d := y - x - 1;
      assert b * d >= 0;
      assert b * y == b * (x + 1 + d) == b * x + b + b * d;
    }
  }

  /** Division is pinned down by the multiple just below. */
  lemma QuotientIs(a: int, b: int, q: int)
    requires b > 0 && b * q <= a < b * q + b
    ensures a / b == q
  {
    MulStep(b, a / b, q);
    MulStep(b, q, a / b);
  }

  /** Later times have later quotients. */
  lemma QuotientMonotone(a: int, c: int, b: int)
    requires b > 0 && a <= c
    ensures a / b <= c / b
  {
    MulStep(b, c / b, a / b);
  }

  /** Removing whole multiples of the divisor lowers the quotient by as much. */
  lemma QuotientShift(a: int, b: int, q: int)
    requires b > 0
    ensures (a - b * q) / b == a / b - q
  {
    assert b * (a / b) <= a < b * (a / b) + b;
    assert b * (a / b - q) == b * (a / b) - b * q;
    QuotientIs(a - b * q, b, a / b - q);
  }
}
