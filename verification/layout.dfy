/** The flat layout of the compound state z of an ODE with n state components
    and k parameters:
      y[i]          at z[i]
      dy[i]/dy0[j]  at z[n + i * n + j]
      dy[i]/dp[j]   at z[n * (n + 1) + i * k + j]
    for a total length n * (1 + n + k). This module defines the offsets once,
    proves that they form a bijection onto [0, q), and provides the block-row
    copy that both the final dispatch and the interpolator views use. */
module Layout {
  import opened Java
  import opened LinearAlgebra
  import Arithmetic

  /** Length q of the compound state: the three blocks one after the other. */
  function Size(n: nat, k: nat): (q: nat)
    ensures q == ParamBlockStart(n) + n * k
    ensures ParamBlockStart(n) <= q
  {
    assert n * (1 + n + k) == n + n * n + n * k;
    n * (1 + n + k)
  }

  /** Start of the dy/dp block, right after the n state entries and the n * n entries of dy/dy0. */
  function ParamBlockStart(n: nat): (start: nat)
    ensures start == n + n * n
  {
    assert n * (n + 1) == n + n * n;
    n * (n + 1)
  }

  function StateOffset(i: nat): nat {
    i
  }

  /** Position of dy[i]/dy0[j]; for i, j < n it lies inside the dy/dy0 block. */
  function DyDy0Offset(n: nat, i: nat, j: nat): (x: nat)
    ensures i < n && j < n ==> n <= x < ParamBlockStart(n)
  {
    if i < n && j < n then
      Arithmetic.RowMajorBound(n, n, i, j);
      n + i * n + j
    else
      n + i * n + j
  }

  /** Position of dy[i]/dp[j]; for i < n, j < k it lies inside the dy/dp block. */
  function DyDpOffset(n: nat, k: nat, i: nat, j: nat): (x: nat)
    ensures i < n && j < k ==> ParamBlockStart(n) <= x < Size(n, k)
  {
    if i < n && j < k then
      Arithmetic.RowMajorBound(n, k, i, j);
      ParamBlockStart(n) + i * k + j
    else
      ParamBlockStart(n) + i * k + j
  }

  /** A position of the compound state, named by the block it lives in. */
  datatype Slot = State(i: nat) | DyDy0(row: nat, col: nat) | DyDp(row: nat, col: nat)

  predicate ValidSlot(n: nat, k: nat, s: Slot) {
    match s
    case State(i) => i < n
    case DyDy0(i, j) => i < n && j < n
    case DyDp(i, j) => i < n && j < k
  }

  function Offset(n: nat, k: nat, s: Slot): nat {
    match s
    case State(i) => StateOffset(i)
    case DyDy0(i, j) => DyDy0Offset(n, i, j)
    case DyDp(i, j) => DyDpOffset(n, k, i, j)
  }

  /** The slot stored at flat position x: the inverse of Offset. */
  function Locate(n: nat, k: nat, x: nat): (s: Slot)
    requires x < Size(n, k)
    ensures ValidSlot(n, k, s) && Offset(n, k, s) == x
  {
    if x < n then
      State(x)
    else if x < ParamBlockStart(n) then
      var r := x - n;
      Arithmetic.RowMajorDecompose(n, n, r);
      DyDy0(r / n, r % n)
    else
      var r := x - ParamBlockStart(n);
      Arithmetic.RowMajorDecompose(n, k, r);
      DyDp(r / k, r % k)
  }

  // ---------------------------------------------------------------------
  // The layout is a bijection between valid slots and [0, Size).

  lemma {:induction false} OffsetInjective(n: nat, k: nat, s1: Slot, s2: Slot)
    requires ValidSlot(n, k, s1) && ValidSlot(n, k, s2)
    requires Offset(n, k, s1) == Offset(n, k, s2)
    ensures s1 == s2
  {
    match s1
    case State(_) =>
    case DyDy0(i, j) =>
      Arithmetic.RowMajorUnique(n, i, j, s2.row, s2.col);
    case DyDp(i, j) =>
      Arithmetic.RowMajorUnique(k, i, j, s2.row, s2.col);
  }

  /** Locate undoes Offset. */
  lemma {:induction false} LocateOffset(n: nat, k: nat, s: Slot)
    requires ValidSlot(n, k, s)
    ensures Offset(n, k, s) < Size(n, k)
    ensures Locate(n, k, Offset(n, k, s)) == s
  {
    OffsetInjective(n, k, s, Locate(n, k, Offset(n, k, s)));
  }

  /** Locate undoes each of the three offset maps. */
  lemma {:induction false} LocateInverts(n: nat, k: nat)
    ensures forall i :: 0 <= i < n ==> Locate(n, k, StateOffset(i)) == State(i)
    ensures forall i, j :: 0 <= i < n && 0 <= j < n ==> Locate(n, k, DyDy0Offset(n, i, j)) == DyDy0(i, j)
    ensures forall i, j :: 0 <= i < n && 0 <= j < k ==> Locate(n, k, DyDpOffset(n, k, i, j)) == DyDp(i, j)
  {
    forall i | 0 <= i < n
      ensures Locate(n, k, StateOffset(i)) == State(i)
    {
      LocateOffset(n, k, State(i));
    }
    forall i, j | 0 <= i < n && 0 <= j < n
      ensures Locate(n, k, DyDy0Offset(n, i, j)) == DyDy0(i, j)
    {
      LocateOffset(n, k, DyDy0(i, j));
    }
    forall i, j | 0 <= i < n && 0 <= j < k
      ensures Locate(n, k, DyDpOffset(n, k, i, j)) == DyDp(i, j)
    {
      LocateOffset(n, k, DyDp(i, j));
    }
  }

  /** The three offset maps land in [0, q), are injective with pairwise
      disjoint ranges, and together cover [0, q): every position of the
      compound state belongs to exactly one slot. */
  lemma {:induction false} LayoutIsBijection(n: nat, k: nat)
    ensures forall s :: ValidSlot(n, k, s) ==> Offset(n, k, s) < Size(n, k)
    ensures forall s1, s2 :: ValidSlot(n, k, s1) && ValidSlot(n, k, s2) && Offset(n, k, s1) == Offset(n, k, s2) ==> s1 == s2
    ensures forall x :: 0 <= x < Size(n, k) ==> ValidSlot(n, k, Locate(n, k, x)) && Offset(n, k, Locate(n, k, x)) == x
  {
    forall s1, s2 | ValidSlot(n, k, s1) && ValidSlot(n, k, s2) && Offset(n, k, s1) == Offset(n, k, s2)
      ensures s1 == s2
    {
      OffsetInjective(n, k, s1, s2);
    }
  }

  /** The code sets the diagonal of dy/dy0 at i * (1 + n) + n, which is the slot (i, i). */
  lemma {:induction false} DiagonalOffset(n: nat, i: nat)
    ensures i * (1 + n) + n == DyDy0Offset(n, i, i)
  {
    assert i * (1 + n) == i + i * n;
  }

  // ---------------------------------------------------------------------
  // Reading the three blocks back out of the flat vector.

  function StateBlock(n: nat, k: nat, z: seq<real>): (y: seq<real>)
    requires |z| == Size(n, k)
    ensures |y| == n && forall i :: 0 <= i < n ==> y[i] == z[StateOffset(i)]
  {
    z[..n]
  }

  /** The `width` entries of z starting at `start`. */
  function Slice(z: seq<real>, start: nat, width: nat): (r: seq<real>)
    requires start + width <= |z|
    ensures |r| == width && forall j :: 0 <= j < width ==> r[j] == z[start + j]
  {
    z[start..start + width]
  }

  /** Row i of dy/dy0 is the slice of z starting at n + i * n. */
  function DyDy0Block(n: nat, k: nat, z: seq<real>): (m: seq<seq<real>>)
    requires |z| == Size(n, k)
    ensures IsMatrix(m, n, n)
    ensures forall i, j :: 0 <= i < n && 0 <= j < n ==> m[i][j] == z[DyDy0Offset(n, i, j)]
  {
    seq(n, i requires 0 <= i < n =>
      assert DyDy0Offset(n, i, n - 1) == DyDy0Offset(n, i, 0) + (n - 1);
      Slice(z, DyDy0Offset(n, i, 0), n))
  }

  /** Row i of dy/dp is the slice of z starting at n * (n + 1) + i * k. */
  function DyDpBlock(n: nat, k: nat, z: seq<real>): (m: seq<seq<real>>)
    requires |z| == Size(n, k)
    ensures IsMatrix(m, n, k)
    ensures forall i, j :: 0 <= i < n && 0 <= j < k ==> m[i][j] == z[DyDpOffset(n, k, i, j)]
  {
    seq(n, i requires 0 <= i < n =>
      if k == 0 then []
      else
        assert DyDpOffset(n, k, i, k - 1) == DyDpOffset(n, k, i, 0) + (k - 1);
        Slice(z, DyDpOffset(n, k, i, 0), k))
  }

  // ---------------------------------------------------------------------
  // Packing three blocks into one flat vector.

  /** The shapes of the three blocks: y of length n, a n by n, b n by k. */
  predicate BlockShapes(n: nat, k: nat, y: seq<real>, a: seq<seq<real>>, b: seq<seq<real>>) {
    |y| == n && IsMatrix(a, n, n) && IsMatrix(b, n, k)
  }

  /** The entry of the blocks that slot s names. */
  function SlotValue(n: nat, k: nat, y: seq<real>, a: seq<seq<real>>, b: seq<seq<real>>, s: Slot): real
    requires BlockShapes(n, k, y, a, b) && ValidSlot(n, k, s)
  {
    match s
    case State(i) => y[i]
    case DyDy0(i, j) => a[i][j]
    case DyDp(i, j) => b[i][j]
  }

  /** The flat vector holding y, dy/dy0 = a and dy/dp = b at their offsets. */
  function Pack(n: nat, k: nat, y: seq<real>, a: seq<seq<real>>, b: seq<seq<real>>): (z: seq<real>)
    requires BlockShapes(n, k, y, a, b)
    ensures |z| == Size(n, k)
    ensures forall i :: 0 <= i < n ==> z[StateOffset(i)] == y[i]
    ensures forall i, j :: 0 <= i < n && 0 <= j < n ==> z[DyDy0Offset(n, i, j)] == a[i][j]
    ensures forall i, j :: 0 <= i < n && 0 <= j < k ==> z[DyDpOffset(n, k, i, j)] == b[i][j]
  {
    var z := seq(Size(n, k), x requires 0 <= x < Size(n, k) => SlotValue(n, k, y, a, b, Locate(n, k, x)));
    PackedBySlot(n, k, y, a, b, z);
    z
  }

  /** A vector holding at each position the entry of the slot stored there
      holds every block entry at that entry's offset. */
  lemma {:induction false} PackedBySlot(n: nat, k: nat, y: seq<real>, a: seq<seq<real>>, b: seq<seq<real>>, z: seq<real>)
    requires BlockShapes(n, k, y, a, b) && |z| == Size(n, k)
    requires forall x :: 0 <= x < Size(n, k) ==> z[x] == SlotValue(n, k, y, a, b, Locate(n, k, x))
    ensures forall i :: 0 <= i < n ==> z[StateOffset(i)] == y[i]
    ensures forall i, j :: 0 <= i < n && 0 <= j < n ==> z[DyDy0Offset(n, i, j)] == a[i][j]
    ensures forall i, j :: 0 <= i < n && 0 <= j < k ==> z[DyDpOffset(n, k, i, j)] == b[i][j]
  {
    forall i | 0 <= i < n
      ensures z[StateOffset(i)] == y[i]
    {
      LocateOffset(n, k, State(i));
    }
    forall i, j | 0 <= i < n && 0 <= j < n
      ensures z[DyDy0Offset(n, i, j)] == a[i][j]
    {
      LocateOffset(n, k, DyDy0(i, j));
    }
    forall i, j | 0 <= i < n && 0 <= j < k
      ensures z[DyDpOffset(n, k, i, j)] == b[i][j]
    {
      LocateOffset(n, k, DyDp(i, j));
    }
  }

  /** Unpacking a packed vector gives back the three blocks. */
  lemma {:induction false} UnpackPack(n: nat, k: nat, y: seq<real>, a: seq<seq<real>>, b: seq<seq<real>>)
    requires BlockShapes(n, k, y, a, b)
    ensures StateBlock(n, k, Pack(n, k, y, a, b)) == y
    ensures DyDy0Block(n, k, Pack(n, k, y, a, b)) == a
    ensures DyDpBlock(n, k, Pack(n, k, y, a, b)) == b
  {
    var z := Pack(n, k, y, a, b);
    MatrixEquality(DyDy0Block(n, k, z), a, n, n);
    MatrixEquality(DyDpBlock(n, k, z), b, n, k);
  }

  /** Packing the unpacked blocks of a vector gives back the vector: no
      position of z lies outside the three blocks. */
  lemma {:induction false} PackUnpack(n: nat, k: nat, z: seq<real>)
    requires |z| == Size(n, k)
    ensures Pack(n, k, StateBlock(n, k, z), DyDy0Block(n, k, z), DyDpBlock(n, k, z)) == z
  {
    var y, a, b := StateBlock(n, k, z), DyDy0Block(n, k, z), DyDpBlock(n, k, z);
    var packed := Pack(n, k, y, a, b);
    forall x | 0 <= x < Size(n, k)
      ensures packed[x] == z[x]
    {
      var s := Locate(n, k, x);
      assert packed[x] == SlotValue(n, k, y, a, b, s);
    }
  }

  // ---------------------------------------------------------------------
  // Copying the rows of one block out of the flat vector.

  /** Row i of the block exists, is wide enough, and its source range lies inside z. */
  predicate RowFits(z: seq<real>, base: nat, stride: nat, width: nat, rows: seq<seq<real>>, i: nat) {
    i < |rows| && width <= |rows[i]| && base + i * stride + width <= |z|
  }

  /** Row i after the copy: `width` entries of z from base + i * stride,
      then the row's own remaining entries. */
  function CopiedRow(z: seq<real>, base: nat, stride: nat, width: nat, rows: seq<seq<real>>, i: nat): seq<real>
    requires RowFits(z, base, stride, width, rows, i)
  {
    z[base + i * stride .. base + i * stride + width] + rows[i][width..]
  }

  /** The Java loop
        for (i = from; i < count; ++i) arraycopy(z, base + i * stride, rows[i], 0, width)
      over an array of row arrays: each row gets its first `width` entries
      from the flat vector, keeps the rest, and a missing or short row (or a
      flat vector too short) raises IndexOutOfBounds. */
  function CopyRowsOut(z: seq<real>, base: nat, stride: nat, width: nat,
                       rows: seq<seq<real>>, from: nat, count: nat)
    : (r: Result<seq<seq<real>>>)
    requires from <= count
    decreases count - from
    ensures r.Ok? <==> forall i :: from <= i < count ==> RowFits(z, base, stride, width, rows, i)
    ensures r.Err? ==> r.error == IndexOutOfBounds
    ensures r.Ok? ==> |r.value| == |rows|
    ensures r.Ok? ==> forall i :: 0 <= i < |rows| && !(from <= i < count) ==> r.value[i] == rows[i]
    ensures r.Ok? ==> forall i :: from <= i < count && RowFits(z, base, stride, width, rows, i) ==>
                        r.value[i] == CopiedRow(z, base, stride, width, rows, i)
  {
    if from == count then
      Ok(rows)
    else if from >= |rows| then
      assert !RowFits(z, base, stride, width, rows, from);
      Err(IndexOutOfBounds)
    else
      match ArrayCopy(z, base + from * stride, rows[from], 0, width)
      case Err(e) =>
        assert !RowFits(z, base, stride, width, rows, from);
        Err(e)
      case Ok(row) =>
        ArrayCopyToFront(z, base + from * stride, rows[from], width);
        assert row == CopiedRow(z, base, stride, width, rows, from);
        // later rows do not depend on row `from`, so they can be copied first
        match CopyRowsOut(z, base, stride, width, rows, from + 1, count)
        case Err(e) => Err(e)
        case Ok(rest) => Ok(rest[from := row])
  }

  /** Row i of dy/dy0 is the slice of z starting at n * (i + 1). */
  lemma {:induction false} DyDy0RowSlice(n: nat, k: nat, z: seq<real>, i: nat)
    requires |z| == Size(n, k) && i < n
    ensures n + i * n + n <= |z|
    ensures z[n + i * n .. n + i * n + n] == DyDy0Block(n, k, z)[i]
  {
    assert DyDy0Offset(n, i, n - 1) == n + i * n + (n - 1);
  }

  /** Row i of dy/dp is the slice of z starting at n * (n + 1) + i * k. */
  lemma {:induction false} DyDpRowSlice(n: nat, k: nat, z: seq<real>, i: nat)
    requires |z| == Size(n, k) && i < n
    ensures ParamBlockStart(n) + i * k + k <= |z|
    ensures z[ParamBlockStart(n) + i * k .. ParamBlockStart(n) + i * k + k] == DyDpBlock(n, k, z)[i]
  {
    if k > 0 {
      assert DyDpOffset(n, k, i, k - 1) == ParamBlockStart(n) + i * k + (k - 1);
    } else {
      Arithmetic.MulMonotone(i, n, k);
    }
  }

  /** Copying the dy/dy0 rows out of z succeeds exactly when the first n rows
      are there and wide enough, and gives them the rows of dy/dy0. */
  lemma {:induction false} DyDy0RowsOut(n: nat, k: nat, z: seq<real>, rows: seq<seq<real>>)
    requires |z| == Size(n, k)
    ensures CopyRowsOut(z, n, n, n, rows, 0, n).Ok? <==> RowsFit(rows, n, n)
    ensures CopyRowsOut(z, n, n, n, rows, 0, n).Ok? ==>
              forall i :: 0 <= i < n ==> CopyRowsOut(z, n, n, n, rows, 0, n).value[i] == DyDy0Block(n, k, z)[i] + rows[i][n..]
  {
    forall i | 0 <= i < n
      ensures RowFits(z, n, n, n, rows, i) <==> i < |rows| && n <= |rows[i]|
      ensures RowFits(z, n, n, n, rows, i) ==> z[n + i * n .. n + i * n + n] == DyDy0Block(n, k, z)[i]
    {
      DyDy0RowSlice(n, k, z, i);
    }
    if n > 0 && RowsFit(rows, n, n) {
      assert RowFits(z, n, n, n, rows, n - 1);
    }
  }

  /** Copying the dy/dp rows out of z succeeds exactly when the first n rows
      are there and wide enough, and gives them the rows of dy/dp. */
  lemma {:induction false} DyDpRowsOut(n: nat, k: nat, z: seq<real>, rows: seq<seq<real>>)
    requires |z| == Size(n, k)
    ensures CopyRowsOut(z, ParamBlockStart(n), k, k, rows, 0, n).Ok? <==> RowsFit(rows, n, k)
    ensures CopyRowsOut(z, ParamBlockStart(n), k, k, rows, 0, n).Ok? ==>
              forall i :: 0 <= i < n ==>
                CopyRowsOut(z, ParamBlockStart(n), k, k, rows, 0, n).value[i] == DyDpBlock(n, k, z)[i] + rows[i][k..]
  {
    DyDpRowsFit(n, k, z, rows);
    var r := CopyRowsOut(z, ParamBlockStart(n), k, k, rows, 0, n);
    if r.Ok? {
      forall i | 0 <= i < n
        ensures r.value[i] == DyDpBlock(n, k, z)[i] + rows[i][k..]
      {
        DyDpRowSlice(n, k, z, i);
      }
    }
  }

  /** Every dy/dp row fits in z, so only the caller's rows can be missing or short. */
  lemma {:induction false} DyDpRowsFit(n: nat, k: nat, z: seq<real>, rows: seq<seq<real>>)
    requires |z| == Size(n, k)
    ensures (forall i :: 0 <= i < n ==> RowFits(z, ParamBlockStart(n), k, k, rows, i)) <==> RowsFit(rows, n, k)
  {
    forall i | 0 <= i < n
      ensures RowFits(z, ParamBlockStart(n), k, k, rows, i) <==> i < |rows| && k <= |rows[i]|
    {
      DyDpRowSlice(n, k, z, i);
    }
    if n > 0 && forall i :: 0 <= i < n ==> RowFits(z, ParamBlockStart(n), k, k, rows, i) {
      assert RowFits(z, ParamBlockStart(n), k, k, rows, n - 1);
    }
  }
}
