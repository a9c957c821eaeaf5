/** Facts about Euclidean division on non-negative operands that the grid
    and range proofs lean on. */
module Arithmetic {

  lemma MulMonotone(a: int, b: int, n: int)
    requires a <= b && n >= 0
    ensures a * n <= b * n
  {
  }

  /** Quotient and remainder are determined by any decomposition
      `x == q * n + c` with `0 <= c < n`. */
  lemma DivModUnique(x: int, n: int, q: int, c: int)
    requires n > 0 && 0 <= c < n && x == q * n + c
    ensures x / n == q && x % n == c
  {
    var q', c' := x / n, x % n;
    assert x == q' * n + c';
    if q' < q {
      assert (q' + 1) * n == q' * n + n;
      MulMonotone(q' + 1, q, n);
    } else if q < q' {
      assert (q + 1) * n == q * n + n;
      MulMonotone(q + 1, q', n);
    }
  }

  lemma PositiveFactor(a: nat, b: nat)
    requires a * b > 0
    ensures b > 0
  {
  }

  lemma MulCancel(a: int, b: int, n: int)
    requires n > 0 && a * n < b * n
    ensures a < b
  {
  }

  lemma DivModDecompose(x: nat, n: nat)
    requires n > 0
    ensures x == (x / n) * n + x % n && 0 <= x % n < n && 0 <= x / n
  {
  }
}
