/** The right-hand side of the compound problem: the raw ODE for the state,
    plus the variational equations for dy/dy0 and dy/dp,
      d(dy/dy0)/dt = df/dy * dy/dy0
      d(dy/dp)/dt  = df/dy * dy/dp + df/dp
    written entry by entry into the flat derivative vector zDot. */
module Variational {
  import opened Layout
  import opened LinearAlgebra
  import opened Odes
  import FiniteDifferences
  import Arithmetic

  /** Column j of the dy/dy0 block of z, i.e. the entries dy[l]/dy0[j] for l < n. */
  function DyDy0Column(n: nat, k: nat, z: seq<real>, j: nat): (c: seq<real>)
    requires |z| == Size(n, k) && j < n
    ensures |c| == n && forall l :: 0 <= l < n ==> c[l] == z[DyDy0Offset(n, l, j)]
  {
    seq(n, l requires 0 <= l < n => z[DyDy0Offset(n, l, j)])
  }

  /** Column j of the dy/dp block of z, i.e. the entries dy[l]/dp[j] for l < n. */
  function DyDpColumn(n: nat, k: nat, z: seq<real>, j: nat): (c: seq<real>)
    requires |z| == Size(n, k) && j < k
    ensures |c| == n && forall l :: 0 <= l < n ==> c[l] == z[DyDpOffset(n, k, l, j)]
  {
    seq(n, l requires 0 <= l < n => z[DyDpOffset(n, k, l, j)])
  }

  /** The shapes the derivative computation works on. */
  predicate Shapes(n: nat, k: nat, z: seq<real>, yDot: seq<real>, dFdY: seq<seq<real>>, dFdP: seq<seq<real>>) {
    |z| == Size(n, k) && |yDot| == n && IsMatrix(dFdY, n, n) && IsMatrix(dFdP, n, k)
  }

  /** Column j of a matrix with `rows` rows. */
  function MatrixColumn(b: seq<seq<real>>, rows: nat, cols: nat, j: nat): (c: seq<real>)
    requires IsMatrix(b, rows, cols) && j < cols
    ensures |c| == rows && forall l :: 0 <= l < rows ==> c[l] == b[l][j]
  {
    seq(rows, l requires 0 <= l < rows => b[l][j])
  }

  /** The product a * b of an n by n matrix and an n by cols matrix. */
  function MatMul(a: seq<seq<real>>, b: seq<seq<real>>, n: nat, cols: nat): (c: seq<seq<real>>)
    requires IsMatrix(a, n, n) && IsMatrix(b, n, cols)
    ensures IsMatrix(c, n, cols)
  {
    seq(n, i requires 0 <= i < n => seq(cols, j requires 0 <= j < cols => Dot(a[i], MatrixColumn(b, n, cols, j))))
  }

  function MatAdd(a: seq<seq<real>>, b: seq<seq<real>>, rows: nat, cols: nat): (c: seq<seq<real>>)
    requires IsMatrix(a, rows, cols) && IsMatrix(b, rows, cols)
    ensures IsMatrix(c, rows, cols)
  {
    seq(rows, i requires 0 <= i < rows => seq(cols, j requires 0 <= j < cols => a[i][j] + b[i][j]))
  }

  /** The variational equations on the unpacked blocks: the time derivative of
      dy/dy0 is df/dy * dy/dy0, that of dy/dp is df/dy * dy/dp + df/dp. */
  function DyDy0Rate(n: nat, k: nat, z: seq<real>, dFdY: seq<seq<real>>): (m: seq<seq<real>>)
    requires |z| == Size(n, k) && IsMatrix(dFdY, n, n)
    ensures IsMatrix(m, n, n)
  {
    MatMul(dFdY, DyDy0Block(n, k, z), n, n)
  }

  function DyDpRate(n: nat, k: nat, z: seq<real>, dFdY: seq<seq<real>>, dFdP: seq<seq<real>>): (m: seq<seq<real>>)
    requires |z| == Size(n, k) && IsMatrix(dFdY, n, n) && IsMatrix(dFdP, n, k)
    ensures IsMatrix(m, n, k)
  {
    MatAdd(dFdP, MatMul(dFdY, DyDpBlock(n, k, z), n, k), n, k)
  }

  /** zDot as a function of the compound state z, the raw derivative yDot and
      the Jacobians df/dy and df/dp: the three rates packed at the offsets of
      the blocks they belong to. Entry by entry this is the flat index
      arithmetic of the Java loops. */
  function VariationalDerivatives(n: nat, k: nat, z: seq<real>, yDot: seq<real>,
                                  dFdY: seq<seq<real>>, dFdP: seq<seq<real>>): (zDot: seq<real>)
    requires Shapes(n, k, z, yDot, dFdY, dFdP)
    ensures |zDot| == Size(n, k)
    ensures forall i :: 0 <= i < n ==> zDot[StateOffset(i)] == yDot[i]
    ensures forall i, j :: 0 <= i < n && 0 <= j < n ==>
              zDot[DyDy0Offset(n, i, j)] == Dot(dFdY[i], DyDy0Column(n, k, z, j))
    ensures forall i, j :: 0 <= i < n && 0 <= j < k ==>
              zDot[DyDpOffset(n, k, i, j)] == dFdP[i][j] + Dot(dFdY[i], DyDpColumn(n, k, z, j))
  {
    RatesInFlatForm(n, k, z, yDot, dFdY, dFdP);
    Pack(n, k, yDot, DyDy0Rate(n, k, z, dFdY), DyDpRate(n, k, z, dFdY, dFdP))
  }

  /** Column j of the unpacked dy/dy0 block is the strided column of z. */
  lemma {:induction false} DyDy0Columns(n: nat, k: nat, z: seq<real>, j: nat)
    requires |z| == Size(n, k) && j < n
    ensures MatrixColumn(DyDy0Block(n, k, z), n, n, j) == DyDy0Column(n, k, z, j)
  {
  }

  /** Column j of the unpacked dy/dp block is the strided column of z. */
  lemma {:induction false} DyDpColumns(n: nat, k: nat, z: seq<real>, j: nat)
    requires |z| == Size(n, k) && j < k
    ensures MatrixColumn(DyDpBlock(n, k, z), n, k, j) == DyDpColumn(n, k, z, j)
  {
  }

  /** The packed matrix rates, read entry by entry, are the dot products of
      rows of df/dy with strided columns of z. */
  lemma {:induction false} RatesInFlatForm(n: nat, k: nat, z: seq<real>, yDot: seq<real>,
                                           dFdY: seq<seq<real>>, dFdP: seq<seq<real>>)
    requires Shapes(n, k, z, yDot, dFdY, dFdP)
    ensures forall i, j :: 0 <= i < n && 0 <= j < n ==>
              DyDy0Rate(n, k, z, dFdY)[i][j] == Dot(dFdY[i], DyDy0Column(n, k, z, j))
    ensures forall i, j :: 0 <= i < n && 0 <= j < k ==>
              DyDpRate(n, k, z, dFdY, dFdP)[i][j] == dFdP[i][j] + Dot(dFdY[i], DyDpColumn(n, k, z, j))
  {
    forall i, j | 0 <= i < n && 0 <= j < n
      ensures DyDy0Rate(n, k, z, dFdY)[i][j] == Dot(dFdY[i], DyDy0Column(n, k, z, j))
    {
      DyDy0Columns(n, k, z, j);
    }
    forall i, j | 0 <= i < n && 0 <= j < k
      ensures DyDpRate(n, k, z, dFdY, dFdP)[i][j] == dFdP[i][j] + Dot(dFdY[i], DyDpColumn(n, k, z, j))
    {
      DyDpColumns(n, k, z, j);
    }
  }

  /** The flat index formulas implement the variational equations: unpacking
      zDot gives yDot, df/dy * dy/dy0 and df/dy * dy/dp + df/dp, where dy/dy0
      and dy/dp are the blocks unpacked from z. */
  lemma {:induction false} VariationalEquations(n: nat, k: nat, z: seq<real>, yDot: seq<real>,
                                                dFdY: seq<seq<real>>, dFdP: seq<seq<real>>)
    requires Shapes(n, k, z, yDot, dFdY, dFdP)
    ensures StateBlock(n, k, VariationalDerivatives(n, k, z, yDot, dFdY, dFdP)) == yDot
    ensures DyDy0Block(n, k, VariationalDerivatives(n, k, z, yDot, dFdY, dFdP))
            == MatMul(dFdY, DyDy0Block(n, k, z), n, n)
    ensures DyDpBlock(n, k, VariationalDerivatives(n, k, z, yDot, dFdY, dFdP))
            == MatAdd(dFdP, MatMul(dFdY, DyDpBlock(n, k, z), n, k), n, k)
  {
    UnpackPack(n, k, yDot, DyDy0Rate(n, k, z, dFdY), DyDpRate(n, k, z, dFdY, dFdP));
  }

  // ---------------------------------------------------------------------
  // The Java loops.

  /** One more term of a strided dot product. */
  lemma {:induction false} StridedDotStep(row: seq<real>, z: seq<real>, start: nat, stride: nat, l: nat)
    requires l < |row| && start + (|row| - 1) * stride < |z|
    ensures start + l * stride < |z|
    ensures Dot(row[..l + 1], Column(z, start, stride, l + 1))
            == Dot(row[..l], Column(z, start, stride, l)) + row[l] * z[start + l * stride]
  {
    Arithmetic.MulMonotone(l, |row| - 1, stride);
    assert Column(z, start, stride, l + 1) == Column(z, start, stride, l) + [z[start + l * stride]];
    assert row[..l + 1] == row[..l] + [row[l]];
    DotSnoc(row[..l], Column(z, start, stride, l), row[l], z[start + l * stride]);
  }

  /** The innermost loop of computeDerivatives: starting from `init`, add
      row[l] * z[zIndex] while zIndex walks from `start` in steps of `stride`. */
  method StridedDot(row: seq<real>, z: seq<real>, start: nat, stride: nat, init: real) returns (s: real)
    requires |row| == 0 || start + (|row| - 1) * stride < |z|
    ensures s == init + Dot(row, Column(z, start, stride, |row|))
  {
    s := init;
    var zIndex := start;
    var l := 0;
    while l < |row|
      invariant 0 <= l <= |row|
      invariant zIndex == start + l * stride
      invariant s == init + Dot(row[..l], Column(z, start, stride, l))
    {
      StridedDotStep(row, z, start, stride, l);
      s := s + row[l] * z[zIndex];
      zIndex := zIndex + stride;
      Arithmetic.NextRow(stride, l);
      l := l + 1;
    }
    assert row[..l] == row;
  }

  /** The strided column the dy/dy0 loop walks is column j of dy/dy0. */
  lemma {:induction false} DyDy0Strided(n: nat, k: nat, z: seq<real>, j: nat)
    requires |z| == Size(n, k) && j < n
    ensures n + j + (n - 1) * n < |z|
    ensures Column(z, n + j, n, n) == DyDy0Column(n, k, z, j)
  {
    assert DyDy0Offset(n, n - 1, j) == n + j + (n - 1) * n;
    forall l | 0 <= l < n
      ensures Column(z, n + j, n, n)[l] == DyDy0Column(n, k, z, j)[l]
    {
      assert DyDy0Offset(n, l, j) == n + j + l * n;
    }
  }

  /** The strided column the dy/dp loop walks is column j of dy/dp. */
  lemma {:induction false} DyDpStrided(n: nat, k: nat, z: seq<real>, j: nat)
    requires |z| == Size(n, k) && j < k && 0 < n
    ensures ParamBlockStart(n) + j + (n - 1) * k < |z|
    ensures Column(z, ParamBlockStart(n) + j, k, n) == DyDpColumn(n, k, z, j)
  {
    assert DyDpOffset(n, k, n - 1, j) == ParamBlockStart(n) + j + (n - 1) * k;
    forall l | 0 <= l < n
      ensures Column(z, ParamBlockStart(n) + j, k, n)[l] == DyDpColumn(n, k, z, j)[l]
    {
      assert DyDpOffset(n, k, l, j) == ParamBlockStart(n) + j + l * k;
    }
  }

  /** The first `bound` entries of zDot are those of the target vector. */
  ghost predicate DoneBelow(target: seq<real>, zDot: seq<real>, bound: nat) {
    |zDot| == |target| && bound <= |target| && forall x :: 0 <= x < bound ==> zDot[x] == target[x]
  }

  /** Row i of the dy/dy0 block of the target holds df/dy[i] times the columns of dy/dy0. */
  ghost predicate DyDy0RowTarget(n: nat, k: nat, z: seq<real>, dFdY: seq<seq<real>>, target: seq<real>, i: nat)
    requires |z| == Size(n, k) && IsMatrix(dFdY, n, n) && |target| == Size(n, k) && i < n
  {
    forall j :: 0 <= j < n ==> target[DyDy0Offset(n, i, j)] == Dot(dFdY[i], DyDy0Column(n, k, z, j))
  }

  /** Row i of the dy/dp block of the target holds df/dp[i] plus df/dy[i] times the columns of dy/dp. */
  ghost predicate DyDpRowTarget(n: nat, k: nat, z: seq<real>, dFdY: seq<seq<real>>, dFdP: seq<seq<real>>,
                                target: seq<real>, i: nat)
    requires |z| == Size(n, k) && IsMatrix(dFdY, n, n) && IsMatrix(dFdP, n, k) && |target| == Size(n, k) && i < n
  {
    forall j :: 0 <= j < k ==> target[DyDpOffset(n, k, i, j)] == dFdP[i][j] + Dot(dFdY[i], DyDpColumn(n, k, z, j))
  }

  /** Writing the target's next entry extends the finished prefix by one. */
  lemma DoneBelowStep(target: seq<real>, zDot: seq<real>, bound: nat, v: real)
    requires DoneBelow(target, zDot, bound) && bound < |target| && target[bound] == v
    ensures DoneBelow(target, zDot[bound := v], bound + 1)
  {
  }

  /** One pass of the inner dy/dy0 loop: the strided dot product of row i of
      df/dy with column j of dy/dy0, stored at n + j + i * n. It writes entry
      (i, j) of dy/dy0's rate and nothing else. */
  method DyDy0Cell(n: nat, k: nat, z: seq<real>, dFdY: seq<seq<real>>, i: nat, j: nat, zDotIn: seq<real>)
    returns (zDot: seq<real>)
    requires |z| == Size(n, k) && IsMatrix(dFdY, n, n) && |zDotIn| == Size(n, k) && i < n && j < n
    ensures zDot == zDotIn[DyDy0Offset(n, i, j) := Dot(dFdY[i], DyDy0Column(n, k, z, j))]
  {
    var startIndex := n + j;
    DyDy0Strided(n, k, z, j);
    var s := StridedDot(dFdY[i], z, startIndex, n, 0.0);
    var index := startIndex + i * n;
    assert index == DyDy0Offset(n, i, j);
    zDot := zDotIn[index := s];
  }

  /** One pass of the inner dy/dp loop: df/dp[i][j] plus the strided dot
      product of row i of df/dy with column j of dy/dp, stored at
      n * (n + 1) + j + i * k. It writes entry (i, j) of dy/dp's rate and
      nothing else. */
  method DyDpCell(n: nat, k: nat, z: seq<real>, dFdY: seq<seq<real>>, dFdP: seq<seq<real>>, i: nat, j: nat,
                  zDotIn: seq<real>)
    returns (zDot: seq<real>)
    requires |z| == Size(n, k) && IsMatrix(dFdY, n, n) && IsMatrix(dFdP, n, k) && |zDotIn| == Size(n, k)
    requires i < n && j < k
    ensures zDot == zDotIn[DyDpOffset(n, k, i, j) := dFdP[i][j] + Dot(dFdY[i], DyDpColumn(n, k, z, j))]
  {
    var startIndex := ParamBlockStart(n) + j;
    DyDpStrided(n, k, z, j);
    var s := StridedDot(dFdY[i], z, startIndex, k, dFdP[i][j]);
    var index := startIndex + i * k;
    assert index == DyDpOffset(n, k, i, j);
    zDot := zDotIn[index := s];
  }

  /** The entry a dy/dy0 cell writes is the target's next one, so the finished prefix grows by one. */
  lemma DyDy0CellDone(n: nat, k: nat, z: seq<real>, dFdY: seq<seq<real>>, target: seq<real>, i: nat, j: nat,
                      before: seq<real>, after: seq<real>)
    requires |z| == Size(n, k) && IsMatrix(dFdY, n, n) && |target| == Size(n, k) && i < n && j < n
    requires DyDy0RowTarget(n, k, z, dFdY, target, i)
    requires DoneBelow(target, before, n + i * n + j)
    requires after == before[DyDy0Offset(n, i, j) := Dot(dFdY[i], DyDy0Column(n, k, z, j))]
    ensures DoneBelow(target, after, n + i * n + j + 1)
  {
    var v := Dot(dFdY[i], DyDy0Column(n, k, z, j));
    assert target[DyDy0Offset(n, i, j)] == v;
    DoneBelowStep(target, before, n + i * n + j, v);
  }

  /** The entry a dy/dp cell writes is the target's next one, so the finished prefix grows by one. */
  lemma DyDpCellDone(n: nat, k: nat, z: seq<real>, dFdY: seq<seq<real>>, dFdP: seq<seq<real>>, target: seq<real>,
                     i: nat, j: nat, before: seq<real>, after: seq<real>)
    requires |z| == Size(n, k) && IsMatrix(dFdY, n, n) && IsMatrix(dFdP, n, k) && |target| == Size(n, k)
    requires i < n && j < k
    requires DyDpRowTarget(n, k, z, dFdY, dFdP, target, i)
    requires DoneBelow(target, before, ParamBlockStart(n) + i * k + j)
    requires after == before[DyDpOffset(n, k, i, j) := dFdP[i][j] + Dot(dFdY[i], DyDpColumn(n, k, z, j))]
    ensures DoneBelow(target, after, ParamBlockStart(n) + i * k + j + 1)
  {
    var v := dFdP[i][j] + Dot(dFdY[i], DyDpColumn(n, k, z, j));
    assert target[DyDpOffset(n, k, i, j)] == v;
    DoneBelowStep(target, before, ParamBlockStart(n) + i * k + j, v);
  }

  /** Row i of the dy/dy0 loop: entries (i, 0) .. (i, n - 1), in increasing offset order. */
  method DyDy0Row(n: nat, k: nat, z: seq<real>, dFdY: seq<seq<real>>, i: nat,
                  ghost target: seq<real>, zDotIn: seq<real>)
    returns (zDot: seq<real>)
    requires |z| == Size(n, k) && IsMatrix(dFdY, n, n) && |target| == Size(n, k) && i < n
    requires DyDy0RowTarget(n, k, z, dFdY, target, i)
    requires DoneBelow(target, zDotIn, n + i * n)
    ensures DoneBelow(target, zDot, n + i * n + n)
  {
    ghost var rowStart := n + i * n;
    zDot := zDotIn;
    var j := 0;
    while j < n
      invariant 0 <= j <= n
      invariant DoneBelow(target, zDot, rowStart + j)
    {
      ghost var before := zDot;
      zDot := DyDy0Cell(n, k, z, dFdY, i, j, zDot);
      DyDy0CellDone(n, k, z, dFdY, target, i, j, before, zDot);
      j := j + 1;
    }
  }

  /** Row i of the dy/dp loop: entries (i, 0) .. (i, k - 1), each starting from df/dp. */
  method DyDpRow(n: nat, k: nat, z: seq<real>, dFdY: seq<seq<real>>, dFdP: seq<seq<real>>, i: nat,
                 ghost target: seq<real>, zDotIn: seq<real>)
    returns (zDot: seq<real>)
    requires |z| == Size(n, k) && IsMatrix(dFdY, n, n) && IsMatrix(dFdP, n, k) && |target| == Size(n, k) && i < n
    requires DyDpRowTarget(n, k, z, dFdY, dFdP, target, i)
    requires DoneBelow(target, zDotIn, ParamBlockStart(n) + i * k)
    ensures DoneBelow(target, zDot, ParamBlockStart(n) + i * k + k)
  {
    ghost var rowStart := ParamBlockStart(n) + i * k;
    zDot := zDotIn;
    var j := 0;
    while j < k
      invariant 0 <= j <= k
      invariant DoneBelow(target, zDot, rowStart + j)
    {
      ghost var before := zDot;
      zDot := DyDpCell(n, k, z, dFdY, dFdP, i, j, zDot);
      DyDpCellDone(n, k, z, dFdY, dFdP, target, i, j, before, zDot);
      j := j + 1;
    }
  }

  /** The target zDot holds yDot in its state block and, row by row, the
      entries the two Jacobian loops compute. */
  lemma {:induction false} TargetRows(n: nat, k: nat, z: seq<real>, yDot: seq<real>,
                                      dFdY: seq<seq<real>>, dFdP: seq<seq<real>>, target: seq<real>)
    requires Shapes(n, k, z, yDot, dFdY, dFdP) && target == VariationalDerivatives(n, k, z, yDot, dFdY, dFdP)
    ensures forall i :: 0 <= i < n ==> target[i] == yDot[i]
    ensures forall i :: 0 <= i < n ==> DyDy0RowTarget(n, k, z, dFdY, target, i)
    ensures forall i :: 0 <= i < n ==> DyDpRowTarget(n, k, z, dFdY, dFdP, target, i)
  {
    forall i | 0 <= i < n
      ensures target[i] == yDot[i]
    {
      assert StateOffset(i) == i;
    }
  }

  /** System.arraycopy(yDot, 0, zDot, 0, n): the state block of zDot. */
  method StateRates(n: nat, k: nat, yDot: seq<real>, ghost target: seq<real>, zDotIn: seq<real>)
    returns (zDot: seq<real>)
    requires |yDot| == n && |target| == Size(n, k) && |zDotIn| == Size(n, k)
    requires forall i :: 0 <= i < n ==> target[i] == yDot[i]
    ensures DoneBelow(target, zDot, n)
  {
    zDot := zDotIn;
    var i := 0;
    while i < n
      invariant 0 <= i <= n
      invariant DoneBelow(target, zDot, i)
    {
      zDot := zDot[i := yDot[i]];
      i := i + 1;
    }
  }

  /** The dy/dy0 loops: every row, in increasing offset order. */
  method DyDy0Rates(n: nat, k: nat, z: seq<real>, dFdY: seq<seq<real>>, ghost target: seq<real>, zDotIn: seq<real>)
    returns (zDot: seq<real>)
    requires |z| == Size(n, k) && IsMatrix(dFdY, n, n) && |target| == Size(n, k)
    requires forall i :: 0 <= i < n ==> DyDy0RowTarget(n, k, z, dFdY, target, i)
    requires DoneBelow(target, zDotIn, n)
    ensures DoneBelow(target, zDot, ParamBlockStart(n))
  {
    zDot := zDotIn;
    var i := 0;
    while i < n
      invariant 0 <= i <= n
      invariant DoneBelow(target, zDot, n + i * n)
    {
      zDot := DyDy0Row(n, k, z, dFdY, i, target, zDot);
      Arithmetic.NextRow(n, i);
      i := i + 1;
    }
  }

  /** The dy/dp loops: every row, in increasing offset order. */
  method DyDpRates(n: nat, k: nat, z: seq<real>, dFdY: seq<seq<real>>, dFdP: seq<seq<real>>,
                   ghost target: seq<real>, zDotIn: seq<real>)
    returns (zDot: seq<real>)
    requires |z| == Size(n, k) && IsMatrix(dFdY, n, n) && IsMatrix(dFdP, n, k) && |target| == Size(n, k)
    requires forall i :: 0 <= i < n ==> DyDpRowTarget(n, k, z, dFdY, dFdP, target, i)
    requires DoneBelow(target, zDotIn, ParamBlockStart(n))
    ensures DoneBelow(target, zDot, Size(n, k))
  {
    zDot := zDotIn;
    var i := 0;
    while i < n
      invariant 0 <= i <= n
      invariant DoneBelow(target, zDot, ParamBlockStart(n) + i * k)
    {
      zDot := DyDpRow(n, k, z, dFdY, dFdP, i, target, zDot);
      Arithmetic.NextRow(k, i);
      i := i + 1;
    }
    assert n * k == i * k;
  }

  /** Lines computing zDot once yDot, df/dy and df/dp are known: copy yDot,
      then one strided dot product per entry of dy/dy0, then one per entry of
      dy/dp starting from df/dp. zDotIn is whatever the caller's buffer held;
      every entry is overwritten. */
  method CombineDerivatives(n: nat, k: nat, z: seq<real>, yDot: seq<real>,
                            dFdY: seq<seq<real>>, dFdP: seq<seq<real>>, zDotIn: seq<real>)
    returns (zDot: seq<real>)
    requires Shapes(n, k, z, yDot, dFdY, dFdP) && |zDotIn| == Size(n, k)
    ensures zDot == VariationalDerivatives(n, k, z, yDot, dFdY, dFdP)
  {
    ghost var target := VariationalDerivatives(n, k, z, yDot, dFdY, dFdP);
    TargetRows(n, k, z, yDot, dFdY, dFdP, target);
    zDot := StateRates(n, k, yDot, target, zDotIn);
    zDot := DyDy0Rates(n, k, z, dFdY, target, zDot);
    zDot := DyDpRates(n, k, z, dFdY, dFdP, target, zDot);
    assert zDot == target;
  }

  // ---------------------------------------------------------------------
  // The whole compound right-hand side.

  /** zDot and the parameter slots the Jacobian computation leaves behind. */
  datatype RhsOutput = RhsOutput(zDot: seq<real>, slots: seq<real>)

  /** computeDerivatives of the compound problem: take y from z, evaluate the
      raw ODE and its Jacobians, then apply the variational equations. */
  function CompoundDerivatives(ode: JacobianOde, t: real, z: seq<real>, slots: seq<real>): (r: RhsOutput)
    requires ode.Valid() && |z| == Size(ode.N(), ode.K()) && |slots| == ode.K()
    ensures |r.zDot| == Size(ode.N(), ode.K())
    ensures StateBlock(ode.N(), ode.K(), r.zDot) == ode.Derivatives(t, StateBlock(ode.N(), ode.K(), z), slots)
    ensures var y := StateBlock(ode.N(), ode.K(), z);
            var jac := ode.ComputeJacobians(t, y, ode.Derivatives(t, y, slots), slots);
            && DyDy0Block(ode.N(), ode.K(), r.zDot)
                 == MatMul(jac.0.dFdY, DyDy0Block(ode.N(), ode.K(), z), ode.N(), ode.N())
            && DyDpBlock(ode.N(), ode.K(), r.zDot)
                 == MatAdd(jac.0.dFdP, MatMul(jac.0.dFdY, DyDpBlock(ode.N(), ode.K(), z), ode.N(), ode.K()), ode.N(), ode.K())
            && r.slots == jac.1
  {
    var n, k := ode.N(), ode.K();
    var y := StateBlock(n, k, z);
    var yDot := ode.Derivatives(t, y, slots);
    var jac := ode.ComputeJacobians(t, y, yDot, slots);
    VariationalEquations(n, k, z, yDot, jac.0.dFdY, jac.0.dFdP);
    RhsOutput(VariationalDerivatives(n, k, z, yDot, jac.0.dFdY, jac.0.dFdP), jac.1)
  }

  /** The anonymous computeDerivatives of the compound problem, statement by
      statement: copy y out of z, evaluate the raw ODE, compute the Jacobians
      (by the finite-differences loops when the ODE is wrapped), and combine.
      It computes exactly CompoundDerivatives. */
  method ComputeCompoundDerivatives(ode: JacobianOde, t: real, z: seq<real>, slots: seq<real>, zDotIn: seq<real>)
    returns (zDot: seq<real>, slotsAfter: seq<real>)
    requires ode.Valid() && |z| == Size(ode.N(), ode.K()) && |slots| == ode.K()
    requires |zDotIn| == Size(ode.N(), ode.K())
    ensures RhsOutput(zDot, slotsAfter) == CompoundDerivatives(ode, t, z, slots)
  {
    var n, k := ode.N(), ode.K();
    var y := z[..n];
    assert y == StateBlock(n, k, z);
    var yDot := ode.Derivatives(t, y, slots);
    var dFdY, dFdP;
    match ode {
      case Analytic(_, _, _, jac) =>
        var j := jac(t, y, yDot, slots);
        dFdY, dFdP, slotsAfter := j.dFdY, j.dFdP, slots;
      case Differenced(w) =>
        var yBack;
        dFdY, dFdP, yBack, slotsAfter :=
          FiniteDifferences.ComputeJacobians(w, t, y, yDot, slots, ZeroMatrix(n, n), ZeroMatrix(n, k));
        MatrixEquality(dFdY, FiniteDifferences.StateJacobian(w, t, y, yDot, slots), n, n);
        MatrixEquality(dFdP, FiniteDifferences.ParamJacobian(w, t, y, yDot, slots), n, k);
    }
    zDot := CombineDerivatives(n, k, z, yDot, dFdY, dFdP, zDotIn);
  }
}
