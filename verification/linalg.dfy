/** Vectors and matrices of reals, as the integrator stores them: a matrix is
    an array of rows, and a column of a packed block is read with a stride. */
module LinearAlgebra {
  import Arithmetic

  /** m has `rows` rows, each of `cols` entries. */
  predicate IsMatrix(m: seq<seq<real>>, rows: nat, cols: nat) {
    |m| == rows && forall i :: 0 <= i < |m| ==> |m[i]| == cols
  }

  function Zeros(n: nat): (v: seq<real>)
    ensures |v| == n && forall i :: 0 <= i < n ==> v[i] == 0.0
  {
    seq(n, i => 0.0)
  }

  function ZeroMatrix(rows: nat, cols: nat): (m: seq<seq<real>>)
    ensures IsMatrix(m, rows, cols)
    ensures forall i, j :: 0 <= i < rows && 0 <= j < cols ==> m[i][j] == 0.0
  {
    seq(rows, i => Zeros(cols))
  }

  /** The n by n identity matrix, the value of dy/dy0 at the initial time. */
  function Identity(n: nat): (m: seq<seq<real>>)
    ensures IsMatrix(m, n, n)
    ensures forall i, j :: 0 <= i < n && 0 <= j < n ==> m[i][j] == if i == j then 1.0 else 0.0
  {
    seq(n, i => seq(n, j => if i == j then 1.0 else 0.0))
  }

  /** Sum of a[l] * b[l], accumulated from l = 0 upwards like the Java loops. */
  function Dot(a: seq<real>, b: seq<real>): real
    requires |a| == |b|
  {
    if |a| == 0 then 0.0 else Dot(a[..|a| - 1], b[..|b| - 1]) + a[|a| - 1] * b[|b| - 1]
  }

  /** The `len` entries z[start], z[start + stride], z[start + 2 * stride], ...:
      one column of a row-major block packed into z. */
  function Column(z: seq<real>, start: nat, stride: nat, len: nat): (c: seq<real>)
    requires len == 0 || start + (len - 1) * stride < |z|
    ensures |c| == len
    ensures forall l :: 0 <= l < len ==> c[l] == z[start + l * stride]
  {
    if len == 0 then
      []
    else
      Arithmetic.MulMonotone(if len > 1 then len - 2 else 0, len - 1, stride);
      Column(z, start, stride, len - 1) + [z[start + (len - 1) * stride]]
  }

  /** Two matrices of the same shape with the same entries are equal. */
  lemma MatrixEquality(a: seq<seq<real>>, b: seq<seq<real>>, rows: nat, cols: nat)
    requires IsMatrix(a, rows, cols) && IsMatrix(b, rows, cols)
    requires forall i, j :: 0 <= i < rows && 0 <= j < cols ==> a[i][j] == b[i][j]
    ensures a == b
  {
    forall i | 0 <= i < rows
      ensures a[i] == b[i]
    {
    }
  }

  /** Appending one more term to both operands adds its product to the dot product. */
  lemma DotSnoc(a: seq<real>, b: seq<real>, x: real, y: real)
    requires |a| == |b|
    ensures Dot(a + [x], b + [y]) == Dot(a, b) + x * y
  {
    assert (a + [x])[..|a|] == a;
    assert (b + [y])[..|b|] == b;
  }

  /** The first n rows of `rows` exist and have at least `width` entries. */
  predicate RowsFit(rows: seq<seq<real>>, n: nat, width: nat) {
    n <= |rows| && forall i :: 0 <= i < n ==> width <= |rows[i]|
  }

  /** The first `width` entries of the first n rows. */
  function Truncate(rows: seq<seq<real>>, n: nat, width: nat): (m: seq<seq<real>>)
    requires RowsFit(rows, n, width)
    ensures IsMatrix(m, n, width)
    ensures forall i, j :: 0 <= i < n && 0 <= j < width ==> m[i][j] == rows[i][j]
  {
    seq(n, i requires 0 <= i < n => rows[i][..width])
  }

  /** A matrix of the exact shape is its own truncation. */
  lemma {:induction false} TruncateExact(rows: seq<seq<real>>, n: nat, width: nat)
    requires IsMatrix(rows, n, width)
    ensures Truncate(rows, n, width) == rows
  {
    MatrixEquality(Truncate(rows, n, width), rows, n, width);
  }
}
