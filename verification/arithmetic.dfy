/** Facts about row-major positions i * cols + j that the solver does not
    find on its own, because they need multiplication by a variable. */
module Arithmetic {

  lemma MulMonotone(a: nat, b: nat, c: nat)
    requires a <= b
    ensures a * c <= b * c
  {
    assert b * c == a * c + (b - a) * c;
  }

  /** Row-major order: an earlier row comes first whatever the columns. */
  lemma RowMajorOrder(cols: nat, i: nat, j: nat, i2: nat, j2: nat)
    requires j < cols
    ensures i < i2 ==> i * cols + j < i2 * cols + j2
  {
    if i < i2 {
      MulMonotone(i + 1, i2, cols);
      assert (i + 1) * cols == i * cols + cols;
    }
  }

  /** Row-major positions inside a block of `cols` columns are unique. */
  lemma RowMajorUnique(cols: nat, i: nat, j: nat, i2: nat, j2: nat)
    requires j < cols && j2 < cols
    requires i * cols + j == i2 * cols + j2
    ensures i == i2 && j == j2
  {
    RowMajorOrder(cols, i, j, i2, j2);
    RowMajorOrder(cols, i2, j2, i, j);
  }

  /** A row-major position inside a block of `rows` by `cols` lies before its end. */
  lemma RowMajorBound(rows: nat, cols: nat, i: nat, j: nat)
    requires i < rows && j < cols
    ensures i * cols + j < rows * cols
  {
    MulMonotone(i + 1, rows, cols);
    assert (i + 1) * cols == i * cols + cols;
  }

  /** Every position of a `rows` by `cols` block has a row and a column. */
  lemma RowMajorDecompose(rows: nat, cols: nat, r: nat)
    requires r < rows * cols
    ensures cols > 0
    ensures r / cols < rows && r % cols < cols
    ensures (r / cols) * cols + r % cols == r
  {
    assert cols > 0;
    var q, m := r / cols, r % cols;
    assert q * cols + m == r;
    if q >= rows {
      MulMonotone(rows, q, cols);
    }
  }

  /** The next row starts right after the last entry of the previous one. */
  lemma NextRow(cols: nat, i: nat)
    ensures (i + 1) * cols == i * cols + cols
  {
  }
}
