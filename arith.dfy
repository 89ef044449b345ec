/** Row-major index arithmetic shared by the pixel and attribute grids:
    cell (y, x) of a grid `cols` wide lives at offset `y * cols + x`. */
module Arith {

  lemma MulMonotone(a: int, b: int, c: int)
    requires 0 <= c && a <= b
    ensures a * c <= b * c
  {
  }

  /** Euclidean division is unique: a quotient and an in-range remainder determine `/` and `%`. */
  lemma DivModUnique(k: int, q: int, r: int, c: int)
    requires 0 < c && 0 <= r < c && k == q * c + r
    ensures k / c == q && k % c == r
  {
    var q', r' := k / c, k % c;
    assert k == q' * c + r';
    if q' < q {
      assert (q' + 1) * c == q' * c + c;
      MulMonotone(q' + 1, q, c);
    } else if q < q' {
      assert (q + 1) * c == q * c + c;
      MulMonotone(q + 1, q', c);
    }
  }

  lemma RowMajor(y: int, x: int, rows: int, cols: int)
    requires 0 <= y < rows && 0 <= x < cols
    ensures 0 <= y * cols + x < rows * cols
    ensures (y * cols + x) / cols == y && (y * cols + x) % cols == x
  {
    MulMonotone(y + 1, rows, cols);
    assert (y + 1) * cols == y * cols + cols;
    MulMonotone(0, y, cols);
    DivModUnique(y * cols + x, y, x, cols);
  }

  /** An offset below `rows * cols` splits into a row below `rows` and a column below `cols`. */
  lemma RowMajorSplit(k: int, rows: int, cols: int)
    requires 0 <= k < rows * cols && 0 <= rows && 0 <= cols
    ensures 0 < cols && 0 <= k / cols < rows && 0 <= k % cols < cols
    ensures k == (k / cols) * cols + k % cols
  {
    if k / cols >= rows {
      MulMonotone(rows, k / cols, cols);
    }
  }
}
