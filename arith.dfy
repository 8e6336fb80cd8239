/** Facts about Euclidean division by a positive divisor, stated once so that
    the cursor and layout proofs do not lean on the solver's non-linear
    arithmetic. */
module Arith {

  lemma {:induction false} MulAtLeast(k: int, m: int)
    requires k >= 1 && m > 0
    ensures k * m >= m
  {
    if k > 1 {
      MulAtLeast(k - 1, m);
      assert k * m == (k - 1) * m + m;
    }
  }

  /** Division and remainder are the unique `q`, `r` with `a == q * m + r`
      and `0 <= r < m`. */
  lemma DivModUnique(a: int, m: int, q: int, r: int)
    requires m > 0 && 0 <= r < m && a == q * m + r
    ensures a / m == q && a % m == r
  {
    var q0, r0 := a / m, a % m;
    assert a == q0 * m + r0;
    assert (q - q0) * m == r0 - r;
    if q > q0 {
      MulAtLeast(q - q0, m);
    } else if q < q0 {
      MulAtLeast(q0 - q, m);
    }
  }

  /** Taking the remainder before a successor step does not change the result. */
  lemma ModSucc(a: int, m: int)
    requires m > 0
    ensures (a % m + 1) % m == (a + 1) % m
  {
    var q, r := a / m, a % m;
    assert a == q * m + r;
    if r + 1 < m {
      DivModUnique(a + 1, m, q, r + 1);
      DivModUnique(r + 1, m, 0, r + 1);
    } else {
      assert a + 1 == (q + 1) * m + 0;
      DivModUnique(a + 1, m, q + 1, 0);
      DivModUnique(r + 1, m, 1, 0);
    }
  }

  lemma MulMonotone(a: int, b: int, m: int)
    requires a <= b && m >= 0
    ensures a * m <= b * m
  {
    assert b * m - a * m == (b - a) * m;
  }

  /** Row-major indexing with `columns` per row is a bijection between
      `[0, columns * rows)` and the (column, row) pairs of the grid. */
  lemma RowMajor(row: int, col: int, columns: int, rows: int)
    requires 0 <= col < columns && 0 <= row < rows
    ensures 0 <= row * columns + col < columns * rows
    ensures (row * columns + col) / columns == row && (row * columns + col) % columns == col
  {
    DivModUnique(row * columns + col, columns, row, col);
    MulMonotone(row + 1, rows, columns);
    MulMonotone(0, row, columns);
    assert (row + 1) * columns == row * columns + columns;
  }

  lemma RowMajorInverse(i: int, columns: int, rows: int)
    requires 0 <= i < columns * rows && columns > 0
    ensures 0 <= i % columns < columns && 0 <= i / columns < rows
  {
    var q := i / columns;
    assert i == q * columns + i % columns;
    if q >= rows {
      MulMonotone(rows, q, columns);
    }
    if q < 0 {
      MulMonotone(q, -1, columns);
    }
  }

  lemma MulInjective(a: int, b: int, m: int)
    requires m > 0 && a != b
    ensures a * m != b * m
  {
    if a < b {
      MulAtLeast(b - a, m);
    } else if a > b {
      MulAtLeast(a - b, m);
    }
  }
}
