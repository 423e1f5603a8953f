/** Money is a whole number of cents. The engine's decimal rounding to the cent
    (`quantize(Decimal('0.01'), ...)`) becomes rounding a value in cents to an integer. */
module Money {

  /** ROUND_DOWN of a / n: the quotient truncated towards zero. */
  function DivTowardZero(a: int, n: int): int
    requires n > 0
  {
    if a >= 0 then a / n else -((-a) / n)
  }

  /** The truncated quotient is the largest multiple of n not above a when a is not
      negative, and the smallest multiple not below a when it is. */
  lemma DivTowardZeroBounds(a: int, n: int)
    requires n > 0
    ensures var q := DivTowardZero(a, n);
            && (a >= 0 ==> 0 <= q && q * n <= a < q * n + n)
            && (a < 0 ==> q <= 0 && q * n - n < a <= q * n)
  {
    if a >= 0 {
      EuclideanBounds(a, n);
    } else {
      EuclideanBounds(-a, n);
      var q' := (-a) / n;
      assert (-q') * n == -(q' * n);
    }
  }

  lemma EuclideanBounds(a: int, n: int)
    requires a >= 0 && n > 0
    ensures 0 <= a / n && (a / n) * n <= a < (a / n) * n + n
  {
    var q, r := a / n, a % n;
    assert a == n * q + r && 0 <= r < n;
    assert q * n == n * q;
  }

  /** ROUND_HALF_UP to a whole number: the nearest integer, a tie going away from zero. */
  function RoundHalfUp(x: real): (r: int)
    ensures x >= 0.0 ==> 0 <= r && x - 0.5 < r as real <= x + 0.5
    ensures x < 0.0 ==> r <= 0 && x - 0.5 <= r as real < x + 0.5
  {
    if x >= 0.0 then (x + 0.5).Floor else -((-x + 0.5).Floor)
  }

  /** An amount in currency units, rounded half-up to whole cents. */
  function ToCents(amount: real): (c: int)
    ensures amount >= 0.0 ==> 0 <= c && amount * 100.0 - 0.5 < c as real <= amount * 100.0 + 0.5
  {
    RoundHalfUp(amount * 100.0)
  }

  /** `p` percent of `total` cents, rounded half-up to whole cents. */
  function PercentOf(total: int, p: real): (c: int)
    ensures 0 <= total && 0.0 <= p <= 100.0 ==> 0 <= c <= total
  {
    var x := total as real * p / 100.0;
    assert 0 <= total && 0.0 <= p <= 100.0 ==> 0.0 <= x <= total as real by {
      if 0 <= total && 0.0 <= p <= 100.0 {
        assert total as real * p <= total as real * 100.0;
      }
    }
    RoundHalfUp(x)
  }

  function Abs(x: real): real
  {
    if x < 0.0 then -x else x
  }
}
