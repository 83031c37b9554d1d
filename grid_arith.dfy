/** Facts about the linear index a * n + b of a cell in a dense grid of m
    blocks of n cells, used for both index layouts of the programs. */
module GridArith {

  lemma MulLe(a: int, b: int, c: int)
    requires a <= b && 0 <= c
    ensures a * c <= b * c
  {
  }

  /** A cell of the grid lies inside it. */
  lemma LinearInRange(a: int, b: int, n: int, m: int)
    requires 0 <= a < m && 0 <= b < n
    ensures 0 <= a * n + b < m * n
  {
    MulLe(a + 1, m, n);
    MulLe(0, a, n);
  }

  /** Distinct cells have distinct indexes. */
  lemma LinearInjective(a1: int, b1: int, a2: int, b2: int, n: int)
    requires 0 <= b1 < n && 0 <= b2 < n
    requires a1 * n + b1 == a2 * n + b2
    ensures a1 == a2 && b1 == b2
  {
    if a1 < a2 {
      MulLe(a1 + 1, a2, n);
    } else if a2 < a1 {
      MulLe(a2 + 1, a1, n);
    }
  }

  /** Every index of the grid belongs to a cell. */
  lemma LinearCovers(j: int, n: int, m: int)
    requires 0 <= m && 0 <= j < m * n
    ensures n > 0
    ensures 0 <= j / n < m && 0 <= j % n < n
    ensures (j / n) * n + j % n == j
  {
    if n <= 0 {
      MulLe(n, 0, m);
      assert false;
    }
    if j / n >= m {
      MulLe(m, j / n, n);
    }
  }
}
