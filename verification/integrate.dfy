/** The enhanced integrator: its constructors, the dimension checks at the
    head of integrate, the packing of the initial compound state, the call to
    the underlying integrator on the compound problem, and the dispatch of the
    final compound state into the caller's arrays.

    Arrays the caller passes may be null (`Array`); the rows of a matrix are
    never null. The underlying integrator is a parameter: a function from the
    compound right-hand side, the initial time and state, the target time and
    the ODE's parameter slots to a stop time, a final state and the slots it
    leaves behind. */
module Integration {
  import opened Java
  import opened LinearAlgebra
  import opened Layout
  import opened Odes
  import FiniteDifferences
  import Variational

  // ---------------------------------------------------------------------
  // Dimension checks.

  /** checkDimension: a null array counts as length 0; any other length than
      `expected` raises a dimension mismatch naming both lengths. */
  function CheckDimension<T>(expected: nat, a: Array<T>): (r: Outcome)
    ensures a.Null? ==> (r == Pass <==> expected == 0)
    ensures a.Arr? ==> (r == Pass <==> |a.elems| == expected)
    ensures r.Fail? ==> r.error == DimensionMismatch(a.Length(), expected)
  {
    if a.Length() == expected then Pass else Fail(DimensionMismatch(a.Length(), expected))
  }

  /** `a[0]` on a nullable array of rows. */
  function FirstRow(a: Array<seq<real>>): (r: Result<seq<real>>)
    ensures r.Ok? <==> a.Arr? && |a.elems| > 0
    ensures r.Ok? ==> r.value == a.elems[0]
    ensures r.Err? ==> r.error == if a.Null? then NullPointer else IndexOutOfBounds
  {
    if a.Null? then Err(NullPointer)
    else if |a.elems| == 0 then Err(IndexOutOfBounds)
    else Ok(a.elems[0])
  }

  /** What the checks at the head of integrate accept: y0 and y of length n,
      dYdY0 with n rows whose first row has length n (so n > 0), and, when
      there are parameters, dY0dP and dYdP with n rows whose first row has
      length k. */
  predicate ArgumentsFit(n: nat, k: nat, y0: Array<real>, y: Array<real>, dYdY0: Array<seq<real>>,
                         dY0dP: Array<seq<real>>, dYdP: Array<seq<real>>) {
    && n > 0
    && y0.Arr? && |y0.elems| == n
    && y.Arr? && |y.elems| == n
    && dYdY0.Arr? && |dYdY0.elems| == n && |dYdY0.elems[0]| == n
    && (k != 0 ==>
          && dY0dP.Arr? && |dY0dP.elems| == n && |dY0dP.elems[0]| == k
          && dYdP.Arr? && |dYdP.elems| == n && |dYdP.elems[0]| == k)
  }

  /** The checks at the head of integrate, in their order: y0, y, dYdY0,
      dYdY0[0] against n, then (only when k != 0) dY0dP, dY0dP[0], dYdP,
      dYdP[0]. Reading dYdY0[0] fails when dYdY0 is null or empty, so a
      zero-dimensional problem is always rejected. */
  function CheckArguments(n: nat, k: nat, y0: Array<real>, y: Array<real>, dYdY0: Array<seq<real>>,
                          dY0dP: Array<seq<real>>, dYdP: Array<seq<real>>): (r: Outcome)
    ensures r == Pass <==> ArgumentsFit(n, k, y0, y, dYdY0, dY0dP, dYdP)
    ensures y0.Length() != n ==> r == Fail(DimensionMismatch(y0.Length(), n))
    ensures y0.Length() == n && y.Length() != n ==> r == Fail(DimensionMismatch(y.Length(), n))
    ensures n == 0 && y0.Length() == 0 && y.Length() == 0 && dYdY0.Length() == 0 ==>
              r == Fail(if dYdY0.Null? then NullPointer else IndexOutOfBounds)
    ensures k == 0 && r.Fail? ==> CheckHead(n, y0, y, dYdY0).Fail?
  {
    match CheckHead(n, y0, y, dYdY0)
    case Fail(e) => Fail(e)
    case Pass =>
      if k == 0 then Pass
      else if dY0dP.Length() != n then Fail(DimensionMismatch(dY0dP.Length(), n))
      else
        match FirstRow(dY0dP)
        case Err(e) => Fail(e)
        case Ok(row) =>
          if |row| != k then Fail(DimensionMismatch(|row|, k))
          else if dYdP.Length() != n then Fail(DimensionMismatch(dYdP.Length(), n))
          else
            match FirstRow(dYdP)
            case Err(e) => Fail(e)
            case Ok(row') => if |row'| != k then Fail(DimensionMismatch(|row'|, k)) else Pass
  }

  /** The four checks integrate makes whatever k is. */
  function CheckHead(n: nat, y0: Array<real>, y: Array<real>, dYdY0: Array<seq<real>>): (r: Outcome)
    ensures r == Pass <==> n > 0 && y0.Arr? && |y0.elems| == n && y.Arr? && |y.elems| == n
                           && dYdY0.Arr? && |dYdY0.elems| == n && |dYdY0.elems[0]| == n
  {
    if y0.Length() != n then Fail(DimensionMismatch(y0.Length(), n))
    else if y.Length() != n then Fail(DimensionMismatch(y.Length(), n))
    else if dYdY0.Length() != n then Fail(DimensionMismatch(dYdY0.Length(), n))
    else
      match FirstRow(dYdY0)
      case Err(e) => Fail(e)
      case Ok(row) => if |row| != n then Fail(DimensionMismatch(|row|, n)) else Pass
  }

  // ---------------------------------------------------------------------
  // Constructors.

  /** The constructor taking a plain ODE, as written: check hY against n and
      p, hP against k, then clone p, hY and hP into the finite-differences
      wrapper. Cloning a null array raises NullPointerException, although a
      null p (and hY, hP) passes the checks when its expected length is 0. */
  function NewWithFiniteDifferencesAsWritten(ode: FiniteDifferences.ParameterizedOde,
                                             p: Array<real>, hY: Array<real>, hP: Array<real>)
    : (r: Result<JacobianOde>)
    ensures r.Ok? <==> p.Arr? && hY.Arr? && hP.Arr?
                       && |hY.elems| == ode.dimension && |p.elems| == ode.parametersDimension
                       && |hP.elems| == ode.parametersDimension
    ensures r.Ok? ==> r.value == Differenced(FiniteDifferences.Wrapper(ode, p.elems, hY.elems, hP.elems))
    ensures hY.Length() != ode.dimension ==> r == Err(DimensionMismatch(hY.Length(), ode.dimension))
  {
    match CheckDimensions(ode, p, hY, hP)
    case Fail(e) => Err(e)
    case Pass =>
      if p.Null? || hY.Null? || hP.Null? then Err(NullPointer)
      else Ok(Differenced(FiniteDifferences.Wrapper(ode, p.elems, hY.elems, hP.elems)))
  }

  /** The three checks of the finite-differences constructor, in their order. */
  function CheckDimensions(ode: FiniteDifferences.ParameterizedOde, p: Array<real>, hY: Array<real>, hP: Array<real>)
    : (r: Outcome)
    ensures r == Pass <==> hY.Length() == ode.dimension && p.Length() == ode.parametersDimension
                           && hP.Length() == ode.parametersDimension
    ensures hY.Length() != ode.dimension ==> r == Fail(DimensionMismatch(hY.Length(), ode.dimension))
  {
    match CheckDimension(ode.dimension, hY)
    case Fail(e) => Fail(e)
    case Pass =>
      match CheckDimension(ode.parametersDimension, p)
      case Fail(e) => Fail(e)
      case Pass => CheckDimension(ode.parametersDimension, hP)
  }

  /** The elements of an array that may be null when it is empty. */
  function ElementsOrEmpty(a: Array<real>): (s: seq<real>)
    ensures |s| == a.Length()
    ensures a.Arr? ==> s == a.elems
  {
    if a.Null? then [] else a.elems
  }

  /** The constructor as documented: a null p (hY, hP) is accepted exactly
      when the checks accept it, and then stands for an empty array. */
  function NewWithFiniteDifferences(ode: FiniteDifferences.ParameterizedOde,
                                    p: Array<real>, hY: Array<real>, hP: Array<real>)
    : (r: Result<JacobianOde>)
    ensures r.Ok? <==> CheckDimensions(ode, p, hY, hP) == Pass
    ensures r.Err? ==> r.error == CheckDimensions(ode, p, hY, hP).error
    ensures r.Ok? ==> && r.value.Differenced?
                      && r.value.wrapper.ode == ode
                      && |r.value.wrapper.p| == ode.parametersDimension
                      && |r.value.wrapper.hY| == ode.dimension
                      && |r.value.wrapper.hP| == ode.parametersDimension
    ensures r.Ok? && p.Arr? && hY.Arr? && hP.Arr? ==>
              r.value.wrapper == FiniteDifferences.Wrapper(ode, p.elems, hY.elems, hP.elems)
  {
    match CheckDimensions(ode, p, hY, hP)
    case Fail(e) => Err(e)
    case Pass => Ok(Differenced(FiniteDifferences.Wrapper(ode, ElementsOrEmpty(p), ElementsOrEmpty(hY), ElementsOrEmpty(hP))))
  }

  /** An ODE without parameters, built with p = null: the checks pass, the
      constructor as written raises NullPointerException, the corrected one
      builds a wrapper with no parameters. */
  lemma {:induction false} NullParametersCounterexample(ode: FiniteDifferences.ParameterizedOde, hY: seq<real>)
    requires ode.parametersDimension == 0 && |hY| == ode.dimension
    ensures CheckDimensions(ode, Null, Arr(hY), Arr([])) == Pass
    ensures NewWithFiniteDifferencesAsWritten(ode, Null, Arr(hY), Arr([])) == Err(NullPointer)
    ensures NewWithFiniteDifferences(ode, Null, Arr(hY), Arr([]))
            == Ok(Differenced(FiniteDifferences.Wrapper(ode, [], hY, [])))
  {
  }

  /** Both constructors agree whenever no array is null. */
  lemma {:induction false} ConstructorsAgreeWithoutNulls(ode: FiniteDifferences.ParameterizedOde,
                                                         p: seq<real>, hY: seq<real>, hP: seq<real>)
    ensures NewWithFiniteDifferencesAsWritten(ode, Arr(p), Arr(hY), Arr(hP))
            == NewWithFiniteDifferences(ode, Arr(p), Arr(hY), Arr(hP))
  {
  }

  // ---------------------------------------------------------------------
  // Packing the initial compound state.

  /** The initial compound state z: a fresh array of q zeros, then y0 copied
      to z[0..n), then for each i the diagonal entry at i * (1 + n) + n set to
      1 and row i of dY0dP copied to n * (n + 1) + i * k. Copying from a null
      dY0dP raises NullPointerException, a missing or short row
      IndexOutOfBounds. */
  function InitialState(n: nat, k: nat, y0: seq<real>, dY0dP: Array<seq<real>>): (r: Result<seq<real>>)
    requires |y0| == n
    ensures r.Ok? <==> n == 0 || (dY0dP.Arr? && RowsFit(dY0dP.elems, n, k))
    ensures r.Err? ==> r.error == if dY0dP.Null? then NullPointer else IndexOutOfBounds
    ensures r.Ok? ==> |r.value| == Size(n, k)
    ensures r.Ok? ==> forall i :: 0 <= i < n ==> r.value[StateOffset(i)] == y0[i]
    ensures r.Ok? ==> forall i, j :: 0 <= i < n && 0 <= j < n ==>
                        r.value[DyDy0Offset(n, i, j)] == if i == j then 1.0 else 0.0
    ensures r.Ok? ==> forall i, j :: 0 <= i < n && 0 <= j < k ==>
                        r.value[DyDpOffset(n, k, i, j)] == dY0dP.elems[i][j]
  {
    if n == 0 then
      Ok(Pack(0, k, y0, [], []))
    else if dY0dP.Null? then
      Err(NullPointer)
    else if !RowsFit(dY0dP.elems, n, k) then
      Err(IndexOutOfBounds)
    else
      Ok(Pack(n, k, y0, Identity(n), Truncate(dY0dP.elems, n, k)))
  }

  /** The code addresses the diagonal of dy/dy0 as i * (1 + n) + n; the
      initial state holds 1 there. */
  lemma {:induction false} InitialDiagonal(n: nat, k: nat, y0: seq<real>, dY0dP: Array<seq<real>>, i: nat)
    requires |y0| == n && i < n && InitialState(n, k, y0, dY0dP).Ok?
    ensures i * (1 + n) + n < Size(n, k)
    ensures InitialState(n, k, y0, dY0dP).value[i * (1 + n) + n] == 1.0
  {
    DiagonalOffset(n, i);
  }

  // ---------------------------------------------------------------------
  // Dispatching the final compound state.

  /** The caller's three arrays after the dispatch. */
  datatype Unpacked = Unpacked(y: seq<real>, dYdY0: seq<seq<real>>, dYdP: seq<seq<real>>)

  /** The rows of a nullable array of rows (none when it is null). */
  function RowsOf(a: Array<seq<real>>): seq<seq<real>> {
    if a.Null? then [] else a.elems
  }

  /** Copy z[0..n) into y, row i of dy/dy0 (at n * (i + 1)) into dYdY0[i] and
      row i of dy/dp (at n * (n + 1) + i * k) into dYdP[i]. Each row keeps
      the entries beyond the copied width; a missing or short row raises
      IndexOutOfBounds, a null dYdP (possible when k == 0) NullPointerException. */
  function Dispatch(n: nat, k: nat, z: seq<real>, y: seq<real>, dYdY0: seq<seq<real>>, dYdP: Array<seq<real>>)
    : (r: Result<Unpacked>)
    requires |z| == Size(n, k) && |y| == n
    ensures r.Ok? <==> RowsFit(dYdY0, n, n) && (n == 0 || (dYdP.Arr? && RowsFit(dYdP.elems, n, k)))
    ensures r.Err? && RowsFit(dYdY0, n, n) ==> r.error == if dYdP.Null? then NullPointer else IndexOutOfBounds
    ensures r.Ok? ==> r.value.y == StateBlock(n, k, z)
    ensures r.Ok? ==> |r.value.dYdY0| == |dYdY0| && |r.value.dYdP| == |RowsOf(dYdP)|
    ensures r.Ok? ==> forall i :: 0 <= i < n ==> r.value.dYdY0[i] == DyDy0Block(n, k, z)[i] + dYdY0[i][n..]
    ensures r.Ok? ==> forall i :: 0 <= i < n ==> r.value.dYdP[i] == DyDpBlock(n, k, z)[i] + RowsOf(dYdP)[i][k..]
    ensures r.Ok? ==> forall i :: n <= i < |dYdY0| ==> r.value.dYdY0[i] == dYdY0[i]
  {
    var yOut := z[..n];
    DyDy0RowsOut(n, k, z, dYdY0);
    DyDpRowsOut(n, k, z, RowsOf(dYdP));
    match CopyRowsOut(z, n, n, n, dYdY0, 0, n)
    case Err(e) => Err(e)
    case Ok(dy0) =>
      if n > 0 && dYdP.Null? then
        Err(NullPointer)
      else
        match CopyRowsOut(z, ParamBlockStart(n), k, k, RowsOf(dYdP), 0, n)
        case Err(e) => Err(e)
        case Ok(dp) => Ok(Unpacked(yOut, dy0, dp))
  }

  // ---------------------------------------------------------------------
  // integrate.

  /** The compound right-hand side handed to the underlying integrator: it
      maps a time, a compound state and the ODE's parameter slots to zDot and
      the slots it leaves behind. */
  type Rhs = (real, seq<real>, seq<real>) --> Variational.RhsOutput

  /** What the underlying integrator returns: the stop time, the final
      compound state and the parameter slots as it leaves them. */
  datatype Run = Run(stopTime: real, z: seq<real>, slots: seq<real>)

  /** The underlying integrator, as a function of the problem it is given. */
  type Integrator = (Rhs, real, seq<real>, real, seq<real>) -> Run

  /** The underlying integrator writes its result into the state array it was
      given, so the final state has the length of the initial one. */
  ghost predicate KeepsLength(run: Integrator) {
    forall rhs, t0, z0, t, slots :: |run(rhs, t0, z0, t, slots).z| == |z0|
  }

  /** The anonymous FirstOrderDifferentialEquations built by integrate. */
  function CompoundRhs(ode: JacobianOde): (rhs: Rhs)
    ensures forall t, z, slots :: ode.Valid() && |z| == Size(ode.N(), ode.K()) && |slots| == ode.K() ==>
              rhs.requires(t, z, slots) && rhs(t, z, slots) == Variational.CompoundDerivatives(ode, t, z, slots)
  {
    (t: real, z: seq<real>, slots: seq<real>)
      requires ode.Valid() && |z| == Size(ode.N(), ode.K()) && |slots| == ode.K()
      => Variational.CompoundDerivatives(ode, t, z, slots)
  }

  /** The arrays integrate has filled, its return value and the parameter slots. */
  datatype Solution = Solution(stopTime: real, y: seq<real>, dYdY0: seq<seq<real>>, dYdP: seq<seq<real>>,
                               slots: seq<real>)

  /** integrate(t0, y0, dY0dP, t, y, dYdY0, dYdP) on the enhanced integrator
      built around `ode`, with `run` as the underlying integrator and `slots`
      the ODE's parameter slots on entry. */
  function Integrate(ode: JacobianOde, run: Integrator, slots: seq<real>,
                     t0: real, y0: Array<real>, dY0dP: Array<seq<real>>,
                     t: real, y: Array<real>, dYdY0: Array<seq<real>>, dYdP: Array<seq<real>>)
    : (r: Result<Solution>)
    requires KeepsLength(run)
    ensures CheckArguments(ode.N(), ode.K(), y0, y, dYdY0, dY0dP, dYdP).Fail? ==>
              r == Err(CheckArguments(ode.N(), ode.K(), y0, y, dYdY0, dY0dP, dYdP).error)
    ensures r.Ok? ==> ArgumentsFit(ode.N(), ode.K(), y0, y, dYdY0, dY0dP, dYdP)
    ensures ode.N() == 0 ==> r.Err?
    ensures r.Ok? ==> |r.value.y| == ode.N() && |r.value.dYdY0| == ode.N() && |r.value.dYdP| == |RowsOf(dYdP)|
  {
    var n, k := ode.N(), ode.K();
    match CheckArguments(n, k, y0, y, dYdY0, dY0dP, dYdP)
    case Fail(e) => Err(e)
    case Pass =>
      match InitialState(n, k, y0.elems, dY0dP)
      case Err(e) => Err(e)
      case Ok(z0) =>
        var result := run(CompoundRhs(ode), t0, z0, t, slots);
        match Dispatch(n, k, result.z, y.elems, dYdY0.elems, dYdP)
        case Err(e) => Err(e)
        case Ok(out) => Ok(Solution(result.stopTime, out.y, out.dYdY0, out.dYdP, result.slots))
  }

  /** Well-shaped arguments: every row of every matrix has exactly the
      expected length. */
  predicate ExactShapes(n: nat, k: nat, y0: Array<real>, y: Array<real>, dYdY0: Array<seq<real>>,
                        dY0dP: Array<seq<real>>, dYdP: Array<seq<real>>) {
    && n > 0
    && y0.Arr? && |y0.elems| == n
    && y.Arr? && |y.elems| == n
    && dYdY0.Arr? && IsMatrix(dYdY0.elems, n, n)
    && dY0dP.Arr? && IsMatrix(dY0dP.elems, n, k)
    && dYdP.Arr? && IsMatrix(dYdP.elems, n, k)
  }

  /** On well-shaped arguments integrate succeeds: the integrator is started
      from y0, the identity and dY0dP packed into one vector, and the arrays
      receive the three blocks of its final state. */
  lemma {:induction false} IntegrateUnpacks(ode: JacobianOde, run: Integrator, slots: seq<real>,
                                            t0: real, y0: Array<real>, dY0dP: Array<seq<real>>,
                                            t: real, y: Array<real>, dYdY0: Array<seq<real>>, dYdP: Array<seq<real>>)
    requires KeepsLength(run)
    requires ExactShapes(ode.N(), ode.K(), y0, y, dYdY0, dY0dP, dYdP)
    ensures var n, k := ode.N(), ode.K();
            var final := run(CompoundRhs(ode), t0, Pack(n, k, y0.elems, Identity(n), dY0dP.elems), t, slots);
            && |final.z| == Size(n, k)
            && Integrate(ode, run, slots, t0, y0, dY0dP, t, y, dYdY0, dYdP)
               == Ok(Solution(final.stopTime, StateBlock(n, k, final.z), DyDy0Block(n, k, final.z),
                              DyDpBlock(n, k, final.z), final.slots))
  {
    var n, k := ode.N(), ode.K();
    TruncateExact(dY0dP.elems, n, k);
    var z0 := Pack(n, k, y0.elems, Identity(n), dY0dP.elems);
    assert InitialState(n, k, y0.elems, dY0dP) == Ok(z0);
    var final := run(CompoundRhs(ode), t0, z0, t, slots);
    var out := Dispatch(n, k, final.z, y.elems, dYdY0.elems, dYdP);
    assert out.Ok?;
    MatrixEquality(out.value.dYdY0, DyDy0Block(n, k, final.z), n, n);
    MatrixEquality(out.value.dYdP, DyDpBlock(n, k, final.z), n, k);
  }

  /** With an integrator that leaves the state where it started (target time
      equal to the initial time), integrate returns y0, the identity and
      dY0dP: unpacking inverts packing. */
  lemma {:induction false} IdentityIntegration(ode: JacobianOde, slots: seq<real>,
                                               t0: real, y0: Array<real>, dY0dP: Array<seq<real>>,
                                               y: Array<real>, dYdY0: Array<seq<real>>, dYdP: Array<seq<real>>)
    requires ExactShapes(ode.N(), ode.K(), y0, y, dYdY0, dY0dP, dYdP)
    ensures var stay: Integrator := (rhs, t0', z0, t', s) => Run(t', z0, s);
            Integrate(ode, stay, slots, t0, y0, dY0dP, t0, y, dYdY0, dYdP)
            == Ok(Solution(t0, y0.elems, Identity(ode.N()), dY0dP.elems, slots))
  {
    var stay: Integrator := (rhs, t0', z0, t', s) => Run(t', z0, s);
    IntegrateUnpacks(ode, stay, slots, t0, y0, dY0dP, t0, y, dYdY0, dYdP);
    UnpackPack(ode.N(), ode.K(), y0.elems, Identity(ode.N()), dY0dP.elems);
  }
}
