/** The step interpolator handed to step handlers with Jacobians. It wraps
    the underlying integrator's interpolator, whose interpolated state and
    derivatives are compound vectors, and slices them into the state, dy/dy0
    and dy/dp, reusing four arrays of its own that every getter overwrites
    and returns.

    The wrapped interpolator is an opaque value of type I. The vectors it
    would return at the current interpolated time (getInterpolatedState and
    getInterpolatedDerivatives) are passed to the getters as parameters. */
module Interpolation {
  import opened Java
  import opened LinearAlgebra
  import opened Layout
  import Odes

  /** The wrapper's fields. */
  datatype InterpolatorWrapper<I> = InterpolatorWrapper(
    interpolator: I,
    y: seq<real>,
    yDot: seq<real>,
    dydy0: seq<seq<real>>,
    dydp: seq<seq<real>>)

  /** The shapes the constructor gives the arrays for a problem with n state
      components and k parameters. */
  predicate Shaped<I>(w: InterpolatorWrapper<I>, n: nat, k: nat) {
    |w.y| == n && |w.yDot| == n && IsMatrix(w.dydy0, n, n) && IsMatrix(w.dydp, n, k)
  }

  /** The constructor: wrap the interpolator and allocate zeroed arrays. */
  function Wrap<I>(interpolator: I, n: nat, k: nat): (w: InterpolatorWrapper<I>)
    ensures Shaped(w, n, k) && w.interpolator == interpolator
    ensures w.y == Zeros(n) && w.yDot == Zeros(n)
    ensures forall i, j :: 0 <= i < n && 0 <= j < n ==> w.dydy0[i][j] == 0.0
    ensures forall i, j :: 0 <= i < n && 0 <= j < k ==> w.dydp[i][j] == 0.0
  {
    InterpolatorWrapper(interpolator, Zeros(n), Zeros(n), ZeroMatrix(n, n), ZeroMatrix(n, k))
  }

  // ---------------------------------------------------------------------
  // The slicing getters. Each copies from a compound vector `ext` into the
  // wrapper's own array and returns the updated wrapper; the Java method
  // returns that array.

  /** getInterpolatedY: the first |y| entries of the interpolated state. */
  function ReadY<I>(w: InterpolatorWrapper<I>, ext: seq<real>): (r: Result<InterpolatorWrapper<I>>)
    ensures r.Ok? <==> |w.y| <= |ext|
    ensures r.Err? ==> r.error == IndexOutOfBounds
    ensures r.Ok? ==> r.value == w.(y := ext[..|w.y|])
  {
    match ArrayCopy(ext, 0, w.y, 0, |w.y|)
    case Err(e) => Err(e)
    case Ok(y) => Ok(w.(y := y))
  }

  /** getInterpolatedYDot: the first |yDot| entries of the interpolated derivatives. */
  function ReadYDot<I>(w: InterpolatorWrapper<I>, extDot: seq<real>): (r: Result<InterpolatorWrapper<I>>)
    ensures r.Ok? <==> |w.yDot| <= |extDot|
    ensures r.Err? ==> r.error == IndexOutOfBounds
    ensures r.Ok? ==> r.value == w.(yDot := extDot[..|w.yDot|])
  {
    match ArrayCopy(extDot, 0, w.yDot, 0, |w.yDot|)
    case Err(e) => Err(e)
    case Ok(yDot) => Ok(w.(yDot := yDot))
  }

  /** getInterpolatedDyDy0 (ext = interpolated state) and
      getInterpolatedDyDy0Dot (ext = interpolated derivatives): with
      n = |y|, row i of dydy0 receives ext[n * (i + 1) .. n * (i + 2)).
      Both write into the same dydy0 array. */
  function ReadDyDy0<I>(w: InterpolatorWrapper<I>, ext: seq<real>): (r: Result<InterpolatorWrapper<I>>)
    ensures r.Ok? <==> forall i :: 0 <= i < |w.y| ==> RowFits(ext, |w.y|, |w.y|, |w.y|, w.dydy0, i)
    ensures r.Err? ==> r.error == IndexOutOfBounds
    ensures r.Ok? ==> r.value.interpolator == w.interpolator && r.value.y == w.y && r.value.yDot == w.yDot
                      && r.value.dydp == w.dydp
    ensures r.Ok? ==> |r.value.dydy0| == |w.dydy0|
    ensures r.Ok? ==> forall i :: 0 <= i < |w.y| ==>
                        RowFits(ext, |w.y|, |w.y|, |w.y|, w.dydy0, i)
                        && r.value.dydy0[i] == CopiedRow(ext, |w.y|, |w.y|, |w.y|, w.dydy0, i)
    ensures r.Ok? ==> forall i :: |w.y| <= i < |w.dydy0| ==> r.value.dydy0[i] == w.dydy0[i]
  {
    var n := |w.y|;
    match CopyRowsOut(ext, n, n, n, w.dydy0, 0, n)
    case Err(e) => Err(e)
    case Ok(rows) => Ok(w.(dydy0 := rows))
  }

  /** getInterpolatedDyDp (ext = interpolated state) and
      getInterpolatedDyDpDot (ext = interpolated derivatives): with n = |y|
      and k the length of dydp[0] (which must exist), row i of dydp receives
      ext[n * (n + 1) + i * k ..) for k entries. */
  function ReadDyDp<I>(w: InterpolatorWrapper<I>, ext: seq<real>): (r: Result<InterpolatorWrapper<I>>)
    ensures |w.dydp| == 0 ==> r == Err(IndexOutOfBounds)
    ensures 0 < |w.dydp| ==>
              (r.Ok? <==> forall i :: 0 <= i < |w.y| ==>
                            RowFits(ext, ParamBlockStart(|w.y|), |w.dydp[0]|, |w.dydp[0]|, w.dydp, i))
    ensures r.Err? ==> r.error == IndexOutOfBounds
    ensures r.Ok? ==> r.value.interpolator == w.interpolator && r.value.y == w.y && r.value.yDot == w.yDot
                      && r.value.dydy0 == w.dydy0
    ensures r.Ok? ==> |r.value.dydp| == |w.dydp|
    ensures r.Ok? ==> forall i :: 0 <= i < |w.y| ==>
                        RowFits(ext, ParamBlockStart(|w.y|), |w.dydp[0]|, |w.dydp[0]|, w.dydp, i)
                        && r.value.dydp[i] == CopiedRow(ext, ParamBlockStart(|w.y|), |w.dydp[0]|, |w.dydp[0]|, w.dydp, i)
    ensures r.Ok? ==> forall i :: |w.y| <= i < |w.dydp| ==> r.value.dydp[i] == w.dydp[i]
  {
    if |w.dydp| == 0 then
      Err(IndexOutOfBounds)
    else
      var n, k := |w.y|, |w.dydp[0]|;
      match CopyRowsOut(ext, ParamBlockStart(n), k, k, w.dydp, 0, n)
      case Err(e) => Err(e)
      case Ok(rows) => Ok(w.(dydp := rows))
  }

  /** On a compound vector of length q, getInterpolatedDyDy0 succeeds exactly
      when the first n rows of dydy0 exist with at least n entries, and row i
      becomes row i of dy/dy0 followed by the row's own tail. */
  lemma {:induction false} ReadDyDy0Block<I>(w: InterpolatorWrapper<I>, k: nat, ext: seq<real>)
    requires |ext| == Size(|w.y|, k)
    ensures ReadDyDy0(w, ext).Ok? <==> RowsFit(w.dydy0, |w.y|, |w.y|)
    ensures ReadDyDy0(w, ext).Ok? ==> forall i :: 0 <= i < |w.y| ==>
              ReadDyDy0(w, ext).value.dydy0[i] == DyDy0Block(|w.y|, k, ext)[i] + w.dydy0[i][|w.y|..]
  {
    DyDy0RowsOut(|w.y|, k, ext, w.dydy0);
  }

  /** On a compound vector of length q, with k the length of dydp[0],
      getInterpolatedDyDp succeeds exactly when the first n rows of dydp
      exist with at least k entries, and row i becomes row i of dy/dp
      followed by the row's own tail. */
  lemma {:induction false} ReadDyDpBlock<I>(w: InterpolatorWrapper<I>, ext: seq<real>)
    requires 0 < |w.dydp| && |ext| == Size(|w.y|, |w.dydp[0]|)
    ensures ReadDyDp(w, ext).Ok? <==> RowsFit(w.dydp, |w.y|, |w.dydp[0]|)
    ensures ReadDyDp(w, ext).Ok? ==> forall i :: 0 <= i < |w.y| ==>
              ReadDyDp(w, ext).value.dydp[i] == DyDpBlock(|w.y|, |w.dydp[0]|, ext)[i] + w.dydp[i][|w.dydp[0]|..]
  {
    DyDpRowsOut(|w.y|, |w.dydp[0]|, ext, w.dydp);
  }

  /** For a wrapper of the right shapes, the getters succeed on a compound
      vector of length q and return its three blocks: the same slices the
      final dispatch of integrate copies out. */
  lemma {:induction false} GettersReadBlocks<I>(w: InterpolatorWrapper<I>, n: nat, k: nat, ext: seq<real>)
    requires Shaped(w, n, k) && 0 < n && |ext| == Size(n, k)
    ensures ReadY(w, ext).Ok? && ReadY(w, ext).value.y == StateBlock(n, k, ext)
    ensures ReadDyDy0(w, ext).Ok? && ReadDyDy0(w, ext).value.dydy0 == DyDy0Block(n, k, ext)
    ensures ReadDyDp(w, ext).Ok? && ReadDyDp(w, ext).value.dydp == DyDpBlock(n, k, ext)
  {
    DyDy0RowsOut(n, k, ext, w.dydy0);
    var a := ReadDyDy0(w, ext).value.dydy0;
    forall i | 0 <= i < n
      ensures a[i] == DyDy0Block(n, k, ext)[i]
    {
      assert w.dydy0[i][n..] == [];
    }
    DyDpRowsOut(n, k, ext, w.dydp);
    var b := ReadDyDp(w, ext).value.dydp;
    forall i | 0 <= i < n
      ensures b[i] == DyDpBlock(n, k, ext)[i]
    {
      assert w.dydp[i][k..] == [];
    }
  }

  /** The arguments StepHandlerWrapper.handleStep passes to the handler with Jacobians. */
  datatype StepCall<I> = StepCall(interpolator: InterpolatorWrapper<I>, isLast: bool)

  /** handleStep of the handler wrapper: on every step, a fresh interpolator
      wrapper around the underlying interpolator, shaped for the ODE's
      dimension and number of parameters, and the unchanged isLast flag. */
  function HandleStep<I>(ode: Odes.JacobianOde, interpolator: I, isLast: bool): (call: StepCall<I>)
    ensures Shaped(call.interpolator, ode.N(), ode.K())
    ensures call.interpolator.interpolator == interpolator && call.isLast == isLast
  {
    StepCall(Wrap(interpolator, ode.N(), ode.K()), isLast)
  }

  /** The handler sees the compound state through the wrapper: its getters
      return the state, dy/dy0 and dy/dp blocks of the interpolated vector. */
  lemma {:induction false} HandledStepReadsBlocks<I>(ode: Odes.JacobianOde, interpolator: I, isLast: bool,
                                                     ext: seq<real>)
    requires 0 < ode.N() && |ext| == Size(ode.N(), ode.K())
    ensures var w := HandleStep(ode, interpolator, isLast).interpolator;
            && ReadY(w, ext).Ok? && ReadY(w, ext).value.y == StateBlock(ode.N(), ode.K(), ext)
            && ReadDyDy0(w, ext).Ok? && ReadDyDy0(w, ext).value.dydy0 == DyDy0Block(ode.N(), ode.K(), ext)
            && ReadDyDp(w, ext).Ok? && ReadDyDp(w, ext).value.dydp == DyDpBlock(ode.N(), ode.K(), ext)
  {
    GettersReadBlocks(HandleStep(ode, interpolator, isLast).interpolator, ode.N(), ode.K(), ext);
  }

  /** Without state components the wrapper has no dydp[0], so dy/dp cannot be read. */
  lemma {:induction false} ZeroDimensionDyDp<I>(w: InterpolatorWrapper<I>, k: nat, ext: seq<real>)
    requires Shaped(w, 0, k)
    ensures ReadDyDp(w, ext) == Err(IndexOutOfBounds)
  {
  }

  // ---------------------------------------------------------------------
  // copy.

  /** The first `width` entries of each of the first n rows of src, copied
      into fresh rows of that width; a missing or short row raises
      IndexOutOfBounds. */
  function CopyRows(src: seq<seq<real>>, n: nat, width: nat): (r: Result<seq<seq<real>>>)
    ensures r.Ok? <==> RowsFit(src, n, width)
    ensures r.Err? ==> r.error == IndexOutOfBounds
    ensures r.Ok? ==> IsMatrix(r.value, n, width)
                      && forall i, j :: 0 <= i < n && 0 <= j < width ==> r.value[i][j] == src[i][j]
  {
    if RowsFit(src, n, width) then Ok(Truncate(src, n, width)) else Err(IndexOutOfBounds)
  }

  /** copy: with n = |y| and k the length of dydp[0], a fresh wrapper around
      `copied` (the wrapped interpolator's own copy) receiving the first n
      entries of y and yDot and the n by n and n by k leading blocks of dydy0
      and dydp. */
  function Copy<I>(w: InterpolatorWrapper<I>, copied: I): (r: Result<InterpolatorWrapper<I>>)
    ensures r.Ok? <==> |w.dydp| > 0 && |w.y| <= |w.yDot|
                       && RowsFit(w.dydy0, |w.y|, |w.y|) && RowsFit(w.dydp, |w.y|, |w.dydp[0]|)
    ensures r.Err? ==> r.error == IndexOutOfBounds
    ensures r.Ok? ==> Shaped(r.value, |w.y|, |w.dydp[0]|) && r.value.interpolator == copied
    ensures r.Ok? ==> r.value.y == w.y && r.value.yDot == w.yDot[..|w.y|]
    ensures r.Ok? ==> forall i, j :: 0 <= i < |w.y| && 0 <= j < |w.y| ==> r.value.dydy0[i][j] == w.dydy0[i][j]
    ensures r.Ok? ==> forall i, j :: 0 <= i < |w.y| && 0 <= j < |w.dydp[0]| ==> r.value.dydp[i][j] == w.dydp[i][j]
  {
    if |w.dydp| == 0 then
      Err(IndexOutOfBounds)
    else
      var n, k := |w.y|, |w.dydp[0]|;
      var blank := Wrap(copied, n, k);
      match ArrayCopy(w.y, 0, blank.y, 0, n)
      case Err(e) => Err(e)
      case Ok(y) =>
        match ArrayCopy(w.yDot, 0, blank.yDot, 0, n)
        case Err(e) => Err(e)
        case Ok(yDot) =>
          match CopyRows(w.dydy0, n, n)
          case Err(e) => Err(e)
          case Ok(dydy0) =>
            match CopyRows(w.dydp, n, k)
            case Err(e) => Err(e)
            case Ok(dydp) =>
              assert y == w.y;
              Ok(InterpolatorWrapper(copied, y, yDot, dydy0, dydp))
  }

  /** A wrapper of the right shapes copies to an equal wrapper around the
      copied interpolator; without state components copy fails. */
  lemma {:induction false} CopyOfShaped<I>(w: InterpolatorWrapper<I>, n: nat, k: nat, copied: I)
    requires Shaped(w, n, k)
    ensures 0 < n ==> Copy(w, copied) == Ok(w.(interpolator := copied))
    ensures n == 0 ==> Copy(w, copied) == Err(IndexOutOfBounds)
  {
    if 0 < n {
      var r := Copy(w, copied);
      assert w.yDot[..n] == w.yDot;
      MatrixEquality(r.value.dydy0, w.dydy0, n, n);
      MatrixEquality(r.value.dydp, w.dydp, n, k);
    }
  }
}
