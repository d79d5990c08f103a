/** Small facts about integer multiplication and division on which the grid
    index computations rest. */
module Arithmetic {

  /** Multiplication by a non-negative factor is monotone. */
  lemma MulMonotone(a: int, b: int, n: int)
    requires a <= b && n >= 0
    ensures a * n <= b * n
  {
    var d := b - a;
    assert b * n == a * n + d * n;
  }

  /** Euclidean division of q*n + m by n, for 0 <= m < n, gives back q and m. */
  lemma DivModOfIndex(n: int, q: int, m: int)
    requires n > 0 && 0 <= m < n
    ensures (q * n + m) / n == q && (q * n + m) % n == m
  {
    var t := q * n + m;
    var q', m' := t / n, t % n;
    assert q' * n + m' == t;
    if q > q' {
      MulMonotone(q' + 1, q, n);
    } else if q < q' {
      MulMonotone(q + 1, q', n);
    }
  }
}
