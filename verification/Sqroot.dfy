/** The integer square root native: Newton's iteration from above. */
module Sqroot {

  const INT_MAX: int := 0x7fff_ffff

  /** The largest `r` with `r * r <= n`. */
  predicate IsRoot(r: int, n: int) {
    r >= 0 && r * r <= n < (r + 1) * (r + 1)
  }

  /** The mean of a guess above the root and its cofactor is smaller, and not below the root. */
  lemma MeanIsAbove(n: int, d: int)
    requires n > 0 && d > 0 && d > n / d
    ensures 0 < (d + n / d) / 2 < d
    ensures n < ((d + n / d) / 2 + 1) * ((d + n / d) / 2 + 1)
  {
    Cofactor(n, d);
    MeanSquared(d, n / d);
  }

  lemma Cofactor(n: int, d: int)
    requires n > 0 && d > 0
    ensures n / d >= 0 && n < d * (n / d + 1)
    ensures n / d >= 1 || d > 1
  {
    if d == 1 {
      assert n / 1 == n;
    }
  }

  /** The square of the next integer after a mean is at least the product of the one
      number and the next after the other. */
  lemma MeanSquared(d: int, q: int)
    requires d > 0 && q >= 0
    ensures d * (q + 1) <= ((d + q) / 2 + 1) * ((d + q) / 2 + 1)
  {
    var k := (d + q) / 2 + 1;
    FourTimes(d, q + 1);
    assert d + (q + 1) <= 2 * k;
    SquareMonotone(d + (q + 1), 2 * k);
    Doubled(k);
  }

  lemma FourTimes(a: int, b: int)
    ensures 4 * (a * b) <= (a + b) * (a + b)
  {
    Squares(a, b);
    Nonnegative(a - b);
  }

  lemma Squares(a: int, b: int)
    ensures (a + b) * (a + b) == (a - b) * (a - b) + 4 * (a * b)
  {
  }

  lemma Nonnegative(a: int)
    ensures a * a >= 0
  {
  }

  lemma Doubled(k: int)
    ensures (2 * k) * (2 * k) == 4 * (k * k)
  {
  }

  lemma SquareMonotone(a: int, b: int)
    requires 0 <= a <= b
    ensures a * a <= b * b
  {
  }

  /** When the guess is no larger than its cofactor, it is the root. */
  lemma StopsAtRoot(n: int, d: int)
    requires n > 0 && d > 0 && d <= n / d && n < (d + 1) * (d + 1)
    ensures IsRoot(d, n)
  {
    assert d * (n / d) <= n;
    assert d * d <= d * (n / d);
  }

  /** For every value below the largest integer, the root, with no sum out of range on
      the way; negative values come back as they are. */
  method Root(n: int) returns (div: int)
    requires -INT_MAX - 1 <= n < INT_MAX
    ensures n >= 0 ==> IsRoot(div, n)
    ensures n < 0 ==> div == n
  {
    div := n;
    var result := 1;
    if n > 0 {
      assert n / n == 1;
      assert n < (n + 1) * (n + 1);
    }
    while div > result
      invariant n <= 0 ==> div == n && result == 1
      invariant n > 0 ==> 0 < div <= n && result == n / div && n < (div + 1) * (div + 1)
      decreases div
    {
      MeanIsAbove(n, div);
      SumInRange(n, div);
      assert 0 <= div + result <= INT_MAX;
      div := (div + result) / 2;
      result := n / div;
    }
    if n > 0 {
      StopsAtRoot(n, div);
    }
  }

  lemma SumInRange(n: int, d: int)
    requires 0 < d <= n
    ensures d + n / d <= n + 1
  {
    assert d * (n / d) <= n;
    SumBelowProduct(d, n / d);
  }

  lemma SumBelowProduct(a: int, b: int)
    requires a >= 1 && b >= 1
    ensures a + b <= a * b + 1
  {
    assert (a - 1) * (b - 1) >= 0;
  }
}
