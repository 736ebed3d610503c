# First-order integrator with Jacobians, modelled in Dafny

Apache Commons Math's `FirstOrderIntegratorWithJacobians` wraps an ODE
integrator. It integrates `y' = f(t, y, p)` and, at the same time, the
Jacobians dy/dy0 and dy/dp of the solution with respect to the initial state
and the parameters. With n state components and k parameters, it packs y,
dy/dy0 and dy/dp into one compound state vector z of length
`q = n * (1 + n + k)`:

    y[i]          at z[i]
    dy[i]/dy0[j]  at z[n + i * n + j]
    dy[i]/dp[j]   at z[n * (n + 1) + i * k + j]

It hands the underlying integrator a compound right-hand side: the raw ODE
for y, plus the variational equations `d(dy/dy0)/dt = df/dy * dy/dy0` and
`d(dy/dp)/dt = df/dy * dy/dp + df/dp`. When the user's ODE cannot compute
df/dy and df/dp, a wrapper estimates them by forward finite differences. The
class also keeps its step handlers in the underlying integrator's list,
wrapped. It gives them a step interpolator that slices the compound state,
can be copied, and can be written to and read from an object stream.

The model is functional. Vectors are `seq<real>` and matrices are
`seq<seq<real>>`. Java exceptions are values of a `Result` type. A Java
array that may be null is `Array<T> = Null | Arr(elems)`. The loops of the
compound right-hand side and of the finite-difference Jacobians are
imperative methods on local sequences, each proved equal to a functional
definition.

Modules, one per file:

- `Java` (java.dfy): nullable arrays, the exceptions on the modelled paths,
  and `System.arraycopy`.
- `Arithmetic` (arithmetic.dfy): row-major index facts.
- `LinearAlgebra` (linalg.dfy): matrices, dot products, strided columns.
- `Layout` (layout.dfy): the offsets, packing and unpacking, and row copies
  out of the flat vector.
- `FiniteDifferences` (finite_differences.dfy): the finite-differences
  wrapper.
- `Odes` (odes.dfy): the two kinds of ODE the integrator accepts.
- `Variational` (variational.dfy): the compound right-hand side.
- `Integration` (integrate.dfy): the constructors, the checks, and
  `integrate`.
- `StepHandlers` (step_handlers.dfy): the handler bookkeeping.
- `Interpolation` (interpolator.dfy): the step-interpolator wrapper.
- `Externalization` (serialization.dfy): `writeExternal` and
  `readExternal`.

The underlying integrator is a function parameter. It maps the compound
right-hand side, the initial time and state, the target time and the ODE's
parameter slots to a stop time, a final state of the same length, and the
slots it leaves behind. The user's ODE is likewise a function that reads its
parameter slots. `setParameter` becomes an explicit update of those slots.

## Model

| member | source | states |
|---|---|---|
| Java.ArrayCopy | src/main/java/org/apache/commons/math/ode/jacobians/FirstOrderIntegratorWithJacobians.java:204 | System.arraycopy succeeds exactly when both ranges lie inside their arrays, otherwise raises IndexOutOfBounds; the destination range receives the source range and every other destination entry is unchanged |
| Layout.Size | src/main/java/org/apache/commons/math/ode/jacobians/FirstOrderIntegratorWithJacobians.java:193 | q = n(1+n+k) is the n state entries, the n*n entries of dy/dy0 and the n*k entries of dy/dp laid end to end |
| Layout.DyDy0Offset | src/main/java/org/apache/commons/math/ode/jacobians/FirstOrderIntegratorWithJacobians.java:191 | for i, j < n the position n + i*n + j of dy[i]/dy0[j] lies in [n, n(n+1)), after the state and before dy/dp |
| Layout.DyDpOffset | src/main/java/org/apache/commons/math/ode/jacobians/FirstOrderIntegratorWithJacobians.java:192 | for i < n, j < k the position n(n+1) + i*k + j of dy[i]/dp[j] lies in [n(n+1), q) |
| Layout.Locate | src/main/java/org/apache/commons/math/ode/jacobians/FirstOrderIntegratorWithJacobians.java:188-193 | every position below q is the offset of some valid slot (state entry, dy/dy0 entry or dy/dp entry) |
| Layout.OffsetInjective | src/main/java/org/apache/commons/math/ode/jacobians/FirstOrderIntegratorWithJacobians.java:190-192 | two valid slots at the same position are the same slot, across the three blocks as well as within one |
| Layout.LocateOffset | src/main/java/org/apache/commons/math/ode/jacobians/FirstOrderIntegratorWithJacobians.java:190-192 | the position of a valid slot is below q and locating it gives back the slot |
| Layout.LocateInverts | src/main/java/org/apache/commons/math/ode/jacobians/FirstOrderIntegratorWithJacobians.java:190-192 | each of the three offset formulas is inverted by Locate |
| Layout.LayoutIsBijection | src/main/java/org/apache/commons/math/ode/jacobians/FirstOrderIntegratorWithJacobians.java:188-193 | the three offset maps land in [0, q), are injective with pairwise disjoint ranges, and together cover [0, q) |
| Layout.DiagonalOffset | src/main/java/org/apache/commons/math/ode/jacobians/FirstOrderIntegratorWithJacobians.java:200-201 | the index i*(1+n)+n the code writes 1.0 to is the position of dy[i]/dy0[i] |
| Layout.Pack | src/main/java/org/apache/commons/math/ode/jacobians/FirstOrderIntegratorWithJacobians.java:196-206 | the packed vector has length q and holds y[i], a[i][j] and b[i][j] at the three offset formulas |
| Layout.UnpackPack | src/main/java/org/apache/commons/math/ode/jacobians/FirstOrderIntegratorWithJacobians.java:276-282 | unpacking a packed vector gives back y, dy/dy0 and dy/dp |
| Layout.PackUnpack | src/main/java/org/apache/commons/math/ode/jacobians/FirstOrderIntegratorWithJacobians.java:196-206 | packing the three unpacked blocks of any vector of length q gives back the vector: no position is lost |
| Layout.CopyRowsOut | src/main/java/org/apache/commons/math/ode/jacobians/FirstOrderIntegratorWithJacobians.java:277-282 | the row-copy loop succeeds exactly when every row exists, is wide enough and has its source range inside z; each copied row is the slice of z followed by its own tail; other rows are untouched; a failure is IndexOutOfBounds |
| Layout.DyDy0RowSlice | src/main/java/org/apache/commons/math/ode/jacobians/FirstOrderIntegratorWithJacobians.java:278 | the n entries of z from n*(i+1) are row i of dy/dy0 |
| Layout.DyDpRowSlice | src/main/java/org/apache/commons/math/ode/jacobians/FirstOrderIntegratorWithJacobians.java:281 | the k entries of z from n(n+1) + i*k are row i of dy/dp |
| Layout.DyDy0RowsOut | src/main/java/org/apache/commons/math/ode/jacobians/FirstOrderIntegratorWithJacobians.java:277-279 | copying the dy/dy0 rows out succeeds exactly when the caller's first n rows exist with at least n entries, and then row i is row i of dy/dy0 followed by the row's own tail |
| Layout.DyDpRowsFit | src/main/java/org/apache/commons/math/ode/jacobians/FirstOrderIntegratorWithJacobians.java:280-282 | every dy/dp source range lies inside z, so only the caller's rows can be missing or short |
| Layout.DyDpRowsOut | src/main/java/org/apache/commons/math/ode/jacobians/FirstOrderIntegratorWithJacobians.java:280-282 | copying the dy/dp rows out succeeds exactly when the caller's first n rows have at least k entries, and then row i is row i of dy/dp followed by the row's own tail |
| FiniteDifferences.SlotsDuring | src/main/java/org/apache/commons/math/ode/jacobians/FirstOrderIntegratorWithJacobians.java:376-382 | while column j of df/dp is evaluated, slots before j hold p, slot j holds p[j] + hP[j], later slots hold their value on entry |
| FiniteDifferences.FillColumn | src/main/java/org/apache/commons/math/ode/jacobians/FirstOrderIntegratorWithJacobians.java:369-371 | the inner loop writes (tmpDot[i] - yDot[i]) / h into column j of every row and leaves every other column unchanged |
| FiniteDifferences.StateColumns | src/main/java/org/apache/commons/math/ode/jacobians/FirstOrderIntegratorWithJacobians.java:365-373 | every entry of df/dy is the forward difference along the perturbed state component, and y is restored on exit |
| FiniteDifferences.ParamColumns | src/main/java/org/apache/commons/math/ode/jacobians/FirstOrderIntegratorWithJacobians.java:376-383 | every entry of df/dp is the forward difference along the perturbed parameter, and every parameter slot ends at the wrapper's p |
| FiniteDifferences.ComputeJacobians | src/main/java/org/apache/commons/math/ode/jacobians/FirstOrderIntegratorWithJacobians.java:357-385 | dFdY[i][j] = (f(t, y with y[j] + hY[j])[i] - yDot[i]) / hY[j] and dFdP[i][j] = (f(t, y) evaluated with p[j] + hP[j] in slot j, at index i, minus yDot[i]) / hP[j]; on return y is unchanged and the slots equal p |
| Variational.VariationalDerivatives | src/main/java/org/apache/commons/math/ode/jacobians/FirstOrderIntegratorWithJacobians.java:238-269 | zDot[i] = yDot[i]; zDot[n+i*n+j] is row i of df/dy times column j of dy/dy0; zDot[n(n+1)+i*k+j] is dFdP[i][j] plus row i of df/dy times column j of dy/dp |
| Variational.RatesInFlatForm | src/main/java/org/apache/commons/math/ode/jacobians/FirstOrderIntegratorWithJacobians.java:240-269 | the entries of the matrix rates df/dy * dy/dy0 and df/dp + df/dy * dy/dp are the dot products with the strided columns of z |
| Variational.VariationalEquations | src/main/java/org/apache/commons/math/ode/jacobians/FirstOrderIntegratorWithJacobians.java:238-269 | unpacking zDot gives yDot, df/dy * dy/dy0 and df/dy * dy/dp + df/dp, with dy/dy0 and dy/dp unpacked from z |
| Variational.StridedDotStep | src/main/java/org/apache/commons/math/ode/jacobians/FirstOrderIntegratorWithJacobians.java:247-250 | one more pass of the innermost loop adds row[l] * z[start + l*stride] to the partial dot product |
| Variational.StridedDot | src/main/java/org/apache/commons/math/ode/jacobians/FirstOrderIntegratorWithJacobians.java:244-250 | the innermost loop returns its initial value plus the dot product of the row with the strided column of z |
| Variational.DyDy0Strided | src/main/java/org/apache/commons/math/ode/jacobians/FirstOrderIntegratorWithJacobians.java:245-249 | the entries the loop visits from n + j in steps of n are column j of dy/dy0, all inside z |
| Variational.DyDpStrided | src/main/java/org/apache/commons/math/ode/jacobians/FirstOrderIntegratorWithJacobians.java:261-265 | the entries the loop visits from n(n+1) + j in steps of k are column j of dy/dp, all inside z |
| Variational.DyDy0Cell | src/main/java/org/apache/commons/math/ode/jacobians/FirstOrderIntegratorWithJacobians.java:244-251 | one pass of the j loop writes entry (i, j) of the dy/dy0 rate, row i of df/dy times column j of dy/dy0, at the position of dy[i]/dy0[j], and changes no other entry of zDot |
| Variational.DyDy0CellDone | src/main/java/org/apache/commons/math/ode/jacobians/FirstOrderIntegratorWithJacobians.java:244-251 | the entry a dy/dy0 pass writes is the next position of the variational derivative, so the finished prefix of zDot grows by one |
| Variational.DyDpCell | src/main/java/org/apache/commons/math/ode/jacobians/FirstOrderIntegratorWithJacobians.java:260-267 | one pass of the j loop writes entry (i, j) of the dy/dp rate, dFdP[i][j] plus row i of df/dy times column j of dy/dp, at the position of dy[i]/dp[j], and changes no other entry of zDot |
| Variational.DyDpCellDone | src/main/java/org/apache/commons/math/ode/jacobians/FirstOrderIntegratorWithJacobians.java:260-267 | the entry a dy/dp pass writes is the next position of the variational derivative, so the finished prefix of zDot grows by one |
| Variational.DyDy0Row | src/main/java/org/apache/commons/math/ode/jacobians/FirstOrderIntegratorWithJacobians.java:242-252 | row i of the dy/dy0 loop finishes the n positions from n + i*n |
| Variational.DyDpRow | src/main/java/org/apache/commons/math/ode/jacobians/FirstOrderIntegratorWithJacobians.java:257-268 | row i of the dy/dp loop finishes the k positions from n(n+1) + i*k |
| Variational.StateRates | src/main/java/org/apache/commons/math/ode/jacobians/FirstOrderIntegratorWithJacobians.java:238 | copying yDot finishes the first n positions of zDot |
| Variational.DyDy0Rates | src/main/java/org/apache/commons/math/ode/jacobians/FirstOrderIntegratorWithJacobians.java:241-253 | the dy/dy0 loops finish every position up to n(n+1) |
| Variational.DyDpRates | src/main/java/org/apache/commons/math/ode/jacobians/FirstOrderIntegratorWithJacobians.java:256-269 | the dy/dp loops finish every position up to q |
| Variational.CombineDerivatives | src/main/java/org/apache/commons/math/ode/jacobians/FirstOrderIntegratorWithJacobians.java:238-269 | whatever the buffer held, the three loops leave exactly the variational derivative in zDot |
| Variational.CompoundDerivatives | src/main/java/org/apache/commons/math/ode/jacobians/FirstOrderIntegratorWithJacobians.java:229-271 | the compound right-hand side has length q, its state block is f(t, y) for y unpacked from z, its dy/dy0 block is df/dy * dy/dy0, its dy/dp block is df/dp + df/dy * dy/dp, and the slots are those computeJacobians leaves |
| Variational.ComputeCompoundDerivatives | src/main/java/org/apache/commons/math/ode/jacobians/FirstOrderIntegratorWithJacobians.java:229-271 | the statement-by-statement computeDerivatives (copy y out, evaluate f, compute the Jacobians, combine) computes exactly the compound right-hand side |
| Integration.CheckDimension | src/main/java/org/apache/commons/math/ode/jacobians/FirstOrderIntegratorWithJacobians.java:293-300 | a null array counts as length 0; the check passes if and only if the length equals the expected one, and otherwise raises a dimension mismatch carrying both numbers |
| Integration.FirstRow | src/main/java/org/apache/commons/math/ode/jacobians/FirstOrderIntegratorWithJacobians.java:180 | reading a[0] succeeds exactly on a non-null, non-empty array, else raises NullPointer (null) or IndexOutOfBounds (empty) |
| Integration.CheckArguments | src/main/java/org/apache/commons/math/ode/jacobians/FirstOrderIntegratorWithJacobians.java:175-186 | the checks pass exactly on the shapes integrate accepts (n > 0, y0 and y of length n, dYdY0 n by n, and when k != 0 dY0dP and dYdP with n rows whose first row has k entries); a wrong y0 length is reported before a wrong y length; with n = 0 and empty arrays the read of dYdY0[0] raises NullPointer or IndexOutOfBounds; with k = 0 only the checks on y0, y, dYdY0 and dYdY0[0] can fail |
| Integration.CheckHead | src/main/java/org/apache/commons/math/ode/jacobians/FirstOrderIntegratorWithJacobians.java:177-180 | the four checks made whatever k is pass exactly when n > 0, y0 and y have length n, and dYdY0 and its first row have length n |
| Integration.CheckDimensions | src/main/java/org/apache/commons/math/ode/jacobians/FirstOrderIntegratorWithJacobians.java:72-74 | the finite-differences constructor's checks pass exactly when hY has length n and p and hP have length k, and hY is checked first |
| Integration.NewWithFiniteDifferencesAsWritten | src/main/java/org/apache/commons/math/ode/jacobians/FirstOrderIntegratorWithJacobians.java:69-77 | as written, the constructor succeeds exactly when p, hY and hP are non-null with the expected lengths, and then wraps the ODE with their contents |
| Integration.NewWithFiniteDifferences | src/main/java/org/apache/commons/math/ode/jacobians/FirstOrderIntegratorWithJacobians.java:56-77 | as documented, the constructor succeeds exactly when the dimension checks pass, raises their error otherwise, and builds a wrapper whose arrays have the ODE's dimensions |
| Integration.NullParametersCounterexample | src/main/java/org/apache/commons/math/ode/jacobians/FirstOrderIntegratorWithJacobians.java:327-333 | for an ODE without parameters and p = null the checks pass but the constructor as written raises NullPointer; the documented one builds a wrapper with no parameters |
| Integration.ConstructorsAgreeWithoutNulls | src/main/java/org/apache/commons/math/ode/jacobians/FirstOrderIntegratorWithJacobians.java:69-77 | with no null array the two constructors give the same result |
| Integration.InitialState | src/main/java/org/apache/commons/math/ode/jacobians/FirstOrderIntegratorWithJacobians.java:193-206 | the initial z has length q, holds y0, the identity as dy/dy0 and dY0dP as dy/dp; it fails with NullPointer on a null dY0dP and IndexOutOfBounds on a short row, unless n = 0 |
| Integration.InitialDiagonal | src/main/java/org/apache/commons/math/ode/jacobians/FirstOrderIntegratorWithJacobians.java:200-201 | the initial z holds 1.0 at i*(1+n)+n |
| Integration.Dispatch | src/main/java/org/apache/commons/math/ode/jacobians/FirstOrderIntegratorWithJacobians.java:276-282 | the dispatch succeeds exactly when the caller's rows fit; y receives the state block, dYdY0 row i the dy/dy0 row followed by its own tail, dYdP row i the dy/dp row followed by its own tail; rows beyond n are untouched |
| Integration.CompoundRhs | src/main/java/org/apache/commons/math/ode/jacobians/FirstOrderIntegratorWithJacobians.java:209-273 | the equations handed to the underlying integrator compute the compound right-hand side on every state of length q |
| Integration.Integrate | src/main/java/org/apache/commons/math/ode/jacobians/FirstOrderIntegratorWithJacobians.java:170-286 | a failed check is the result; a success implies the checks passed; with n = 0 integrate always fails; on success y has n entries, dYdY0 has n rows and dYdP keeps the caller's row count |
| Integration.IntegrateUnpacks | src/main/java/org/apache/commons/math/ode/jacobians/FirstOrderIntegratorWithJacobians.java:170-286 | on well-shaped arguments integrate runs the integrator from y0, the identity and dY0dP packed together, and returns its stop time and the three blocks of its final state |
| Integration.IdentityIntegration | src/main/java/org/apache/commons/math/ode/jacobians/FirstOrderIntegratorWithJacobians.java:196-282 | with an integrator that leaves the state where it started, integrate returns y0, the identity and dY0dP |
| StepHandlers.AddStepHandler | src/main/java/org/apache/commons/math/ode/jacobians/FirstOrderIntegratorWithJacobians.java:98-100 | the wrapped handler is appended and the rest of the list is unchanged |
| StepHandlers.GetStepHandlers | src/main/java/org/apache/commons/math/ode/jacobians/FirstOrderIntegratorWithJacobians.java:107-116 | the loop returns the handlers inside the wrapped entries, in list order |
| StepHandlers.ClearStepHandlers | src/main/java/org/apache/commons/math/ode/jacobians/FirstOrderIntegratorWithJacobians.java:122-140 | after collecting, clearing and re-adding, the list is the original list without its wrapped entries, in the original order |
| StepHandlers.CollectOthers | src/main/java/org/apache/commons/math/ode/jacobians/FirstOrderIntegratorWithJacobians.java:124-130 | the first loop collects exactly the entries that are not wrappers, in list order |
| StepHandlers.AddBack | src/main/java/org/apache/commons/math/ode/jacobians/FirstOrderIntegratorWithJacobians.java:132-138 | adding the collected entries one by one to the cleared list rebuilds them in the same order |
| StepHandlers.GetAfterAdd | src/main/java/org/apache/commons/math/ode/jacobians/FirstOrderIntegratorWithJacobians.java:98-116 | a handler added through the enhanced integrator is returned last by getStepHandlers |
| StepHandlers.ClearAfterAdd | src/main/java/org/apache/commons/math/ode/jacobians/FirstOrderIntegratorWithJacobians.java:98-140 | clearing after an add gives the same list as clearing before it |
| StepHandlers.ClearKeepsDirectAdd | src/main/java/org/apache/commons/math/ode/jacobians/FirstOrderIntegratorWithJacobians.java:122-140 | a handler added to the underlying integrator directly survives clearing, in its place at the end |
| StepHandlers.GetAfterClear | src/main/java/org/apache/commons/math/ode/jacobians/FirstOrderIntegratorWithJacobians.java:107-140 | after clearing, getStepHandlers returns nothing |
| StepHandlers.ClearIdempotent | src/main/java/org/apache/commons/math/ode/jacobians/FirstOrderIntegratorWithJacobians.java:122-140 | clearing twice leaves what clearing once leaves |
| StepHandlers.ClearPartitions | src/main/java/org/apache/commons/math/ode/jacobians/FirstOrderIntegratorWithJacobians.java:107-140 | an entry is kept by clearing exactly when it is not a wrapper; a handler is returned by getStepHandlers exactly when its wrapper is in the list; the two counts add up to the list length |
| Interpolation.Wrap | src/main/java/org/apache/commons/math/ode/jacobians/FirstOrderIntegratorWithJacobians.java:454-461 | the wrapper holds the interpolator and zeroed arrays of lengths n, n, n by n and n by k |
| Interpolation.ReadY | src/main/java/org/apache/commons/math/ode/jacobians/FirstOrderIntegratorWithJacobians.java:484-488 | getInterpolatedY succeeds exactly when the interpolated state has at least |y| entries, and then y is its prefix and nothing else changes |
| Interpolation.ReadYDot | src/main/java/org/apache/commons/math/ode/jacobians/FirstOrderIntegratorWithJacobians.java:516-520 | getInterpolatedYDot succeeds exactly when the interpolated derivatives have at least |yDot| entries, and then yDot is their prefix and nothing else changes |
| Interpolation.ReadDyDy0 | src/main/java/org/apache/commons/math/ode/jacobians/FirstOrderIntegratorWithJacobians.java:491-500 | getInterpolatedDyDy0 (and its Dot twin), with n = |y|, succeeds exactly when each of the first n rows of dydy0 exists with at least n entries and its source range n(i+1) .. n(i+2) lies inside the interpolated vector; row i then receives that range followed by its own tail, later rows and every other field are unchanged; a failure is IndexOutOfBounds |
| Interpolation.ReadDyDy0Block | src/main/java/org/apache/commons/math/ode/jacobians/FirstOrderIntegratorWithJacobians.java:491-500 | on a compound vector of length q, getInterpolatedDyDy0 succeeds exactly when the first n rows of dydy0 have at least n entries, and row i becomes row i of dy/dy0 followed by its own tail |
| Interpolation.ReadDyDp | src/main/java/org/apache/commons/math/ode/jacobians/FirstOrderIntegratorWithJacobians.java:503-513 | getInterpolatedDyDp (and its Dot twin), with n = |y| and k = |dydp[0]|, raises IndexOutOfBounds when dydp has no row 0, and otherwise succeeds exactly when each of the first n rows of dydp has at least k entries and its source range from n(n+1) + i*k lies inside the interpolated vector; row i then receives that range followed by its own tail, later rows and every other field are unchanged |
| Interpolation.ReadDyDpBlock | src/main/java/org/apache/commons/math/ode/jacobians/FirstOrderIntegratorWithJacobians.java:503-513 | on a compound vector of length q with k = |dydp[0]|, getInterpolatedDyDp succeeds exactly when the first n rows of dydp have at least k entries, and row i becomes row i of dy/dp followed by its own tail |
| Interpolation.GettersReadBlocks | src/main/java/org/apache/commons/math/ode/jacobians/FirstOrderIntegratorWithJacobians.java:484-513 | for a wrapper built for n > 0 and k and a compound vector of length q, the getters succeed and return its state block, its dy/dy0 block and its dy/dp block |
| Interpolation.HandleStep | src/main/java/org/apache/commons/math/ode/jacobians/FirstOrderIntegratorWithJacobians.java:410-416 | the handler wrapper passes on a fresh interpolator wrapper around the underlying interpolator, shaped for the ODE's n and k, and the unchanged isLast flag |
| Interpolation.HandledStepReadsBlocks | src/main/java/org/apache/commons/math/ode/jacobians/FirstOrderIntegratorWithJacobians.java:410-416 | for n > 0, the interpolator a handler receives returns the state, dy/dy0 and dy/dp blocks of any compound vector of length q |
| Interpolation.ZeroDimensionDyDp | src/main/java/org/apache/commons/math/ode/jacobians/FirstOrderIntegratorWithJacobians.java:503-506 | a wrapper built for n = 0 cannot read dy/dp, since dydp[0] does not exist |
| Interpolation.CopyRows | src/main/java/org/apache/commons/math/ode/jacobians/FirstOrderIntegratorWithJacobians.java:559-564 | copying the leading block of rows succeeds exactly when the first n rows exist and are wide enough, and copies their entries |
| Interpolation.Copy | src/main/java/org/apache/commons/math/ode/jacobians/FirstOrderIntegratorWithJacobians.java:553-567 | copy succeeds exactly when dydp has a row 0 and the arrays are long enough; the copy has the constructor's shapes, the copied interpolator, y, the first n entries of yDot and the leading blocks of dydy0 and dydp |
| Interpolation.CopyOfShaped | src/main/java/org/apache/commons/math/ode/jacobians/FirstOrderIntegratorWithJacobians.java:553-567 | a wrapper of the constructor's shapes copies to an equal wrapper around the copied interpolator when n > 0, and fails when n = 0 |
| Externalization.WriteExternal | src/main/java/org/apache/commons/math/ode/jacobians/FirstOrderIntegratorWithJacobians.java:570-592 | writing succeeds exactly when dydp has a row 0 and every array is long enough for n and k; the stream starts with the interpolator, n and k; a failure is IndexOutOfBounds |
| Externalization.ReadDoubles | src/main/java/org/apache/commons/math/ode/jacobians/FirstOrderIntegratorWithJacobians.java:602-604 | reading into a fresh array yields exactly count values, or an end-of-stream or corrupted-stream error |
| Externalization.ReadMatrix | src/main/java/org/apache/commons/math/ode/jacobians/FirstOrderIntegratorWithJacobians.java:608-612 | reading a fresh matrix row by row yields a rows by width matrix, or an end-of-stream or corrupted-stream error |
| Externalization.ReadInto | src/main/java/org/apache/commons/math/ode/jacobians/FirstOrderIntegratorWithJacobians.java:605-607 | reading into the existing array keeps its length and can only succeed when the array holds every index read |
| Externalization.ReadFields | src/main/java/org/apache/commons/math/ode/jacobians/FirstOrderIntegratorWithJacobians.java:595-618 | an empty stream is an end-of-stream error, a negative n or k raises NegativeArraySize, and a success read the interpolator and the two dimensions and shaped y, dydy0 and dydp by them |
| Externalization.ReadExternalAsWritten | src/main/java/org/apache/commons/math/ode/jacobians/FirstOrderIntegratorWithJacobians.java:595-618 | as written, yDot keeps the length of the reading wrapper's yDot |
| Externalization.ReadExternal | src/main/java/org/apache/commons/math/ode/jacobians/FirstOrderIntegratorWithJacobians.java:595-618 | with yDot reallocated, a successful read has the constructor's shapes for the n and k in the stream |
| Externalization.ReadDoublesOf | src/main/java/org/apache/commons/math/ode/jacobians/FirstOrderIntegratorWithJacobians.java:602-604 | reading back a run of written doubles gives the values and leaves the rest of the stream |
| Externalization.ReadMatrixOf | src/main/java/org/apache/commons/math/ode/jacobians/FirstOrderIntegratorWithJacobians.java:608-617 | reading back a matrix written row by row gives the matrix and leaves the rest of the stream |
| Externalization.ReadIntoOf | src/main/java/org/apache/commons/math/ode/jacobians/FirstOrderIntegratorWithJacobians.java:605-607 | reading a run into an array long enough overwrites exactly the positions read |
| Externalization.ReadIntoPrefix | src/main/java/org/apache/commons/math/ode/jacobians/FirstOrderIntegratorWithJacobians.java:605-607 | reading n values into an array of at least n entries gives the values followed by the array's old tail |
| Externalization.ReadIntoShort | src/main/java/org/apache/commons/math/ode/jacobians/FirstOrderIntegratorWithJacobians.java:605-607 | reading more values than the array holds raises IndexOutOfBounds |
| Externalization.CopyFields | src/main/java/org/apache/commons/math/ode/jacobians/FirstOrderIntegratorWithJacobians.java:553-567 | a writable wrapper copies to y, the first n entries of yDot and the leading blocks of dydy0 and dydp |
| Externalization.RoundTrip | src/main/java/org/apache/commons/math/ode/jacobians/FirstOrderIntegratorWithJacobians.java:570-618 | writing a wrapper and reading it back (yDot reallocated) into any wrapper yields the wrapper's copy and leaves what followed in the stream |
| Externalization.ShapedRoundTrip | src/main/java/org/apache/commons/math/ode/jacobians/FirstOrderIntegratorWithJacobians.java:570-618 | a wrapper of the constructor's shapes with n > 0 reads back as itself |
| Externalization.AsWrittenRoundTrip | src/main/java/org/apache/commons/math/ode/jacobians/FirstOrderIntegratorWithJacobians.java:595-618 | as written, reading into a wrapper whose yDot has at least n entries gives the copy except that yDot keeps the old tail beyond n |
| Externalization.AsWrittenShortYDot | src/main/java/org/apache/commons/math/ode/jacobians/FirstOrderIntegratorWithJacobians.java:605-607 | as written, reading into a wrapper whose yDot is shorter than n raises IndexOutOfBounds |
| Externalization.EmptyYDotCounterexample | src/main/java/org/apache/commons/math/ode/jacobians/FirstOrderIntegratorWithJacobians.java:599-606 | a written one-component wrapper reads back as itself with yDot reallocated, but raises IndexOutOfBounds as written when the reading wrapper's yDot is empty |

## Left out

- The underlying `FirstOrderIntegrator.integrate` (line 209) is a function parameter. Its step control, event handling, the `DerivativeException` and `IntegratorException` it may raise, and its calls to the step handlers during integration are outside the model. The model assumes only that it returns a state of the same length.
- Doubles are reals, so rounding and the truncation error of forward differences do not appear.
- FiniteDifferences.ComputeJacobians: requires nonzero steps hY[j] and hP[j]. The code divides by them without checking, and a Java division by zero gives an infinity or NaN that reals cannot express.
- The rows of the caller's matrices and of the wrapper's arrays are never null. Only the outer arrays passed to integrate and to the constructor may be null.
- Arrays are values, not references. Two rows of dYdY0 that are the same Java array, or a row shared by dYdY0 and dYdP, are separate sequences in the model. In Java the later copy at lines 277-282 would show in both. Likewise, the arrays the interpolator's getters return are the wrapper's own arrays, which the next getter call overwrites. The model returns a new value instead.
- Java's 32-bit int arithmetic is left out: q = n(1+n+k) and the offsets are unbounded. Negative n and k cannot arise from the ODE's dimensions (they are nat); readExternal's negative dimensions do appear, as NegativeArraySize.
- The second constructor (lines 85-89) only stores an ODE that computes its own Jacobians. It is the `Analytic` case of `Odes.JacobianOde`, and nothing about it needs a contract.
- A method that raises an exception midway has already written part of its output, for example writeExternal's first items or readExternal's first fields. The model returns only the exception.
- The object stream is a sequence of typed items (object, int, double). Reading an item of the wrong kind is reported as a corrupted stream. Java's byte-level encoding, and `readObject`'s class cast, are not modelled. The wrapped interpolator is an opaque token of the stream.
- The wrapper class has no public no-argument constructor, which Java deserialisation needs. The model therefore reads into an existing wrapper, as a direct call of readExternal does.
- The interpolator's getters receive the wrapped interpolator's interpolated state and derivatives as parameters. The delegation methods (`setInterpolatedTime`, `isForward`, `getPreviousTime`, `getInterpolatedTime`, `getCurrentTime`, and the handler wrapper's `requiresDenseOutput` and `reset`) only forward calls and are not modelled. The handler wrapper's `handleStep` is `Interpolation.HandleStep`; the user handler it calls is outside the model.
- The ODE's mutable parameter slots are an explicit sequence. `computeDerivatives` of the finite-differences wrapper delegates unchanged and is `Odes.JacobianOde.Derivatives`. The scratch array tmpDot is a local value, and the compound problem's scratch arrays y, yDot, dFdY and dFdP are local values too.
- Variational.CombineDerivatives: states the final zDot, not that each index is written exactly once. The loop invariants advance the written prefix by one position per write, so no position is written twice.
- Thread safety is not modelled.
- The test file AdamsMoultonIntegratorTest.java and the interface DiscreteDistribution.java are not part of this model.

## Findings

| source | as written | input that shows it | evidently intended | confidence | as-written member | corrected member |
|---|---|---|---|---|---|---|
| src/main/java/org/apache/commons/math/ode/jacobians/FirstOrderIntegratorWithJacobians.java:330 | the finite-differences wrapper clones p, hY and hP unconditionally, after checks that accept a null array whose expected length is 0 | an ODE with no parameters, p = null, hY of length n, hP empty: the checks pass, then `p.clone()` raises NullPointerException (Integration.NullParametersCounterexample) | the documentation (lines 59-61, 309, 323) says p may be null when the ODE has no parameters, so a null array should stand for an empty one | not executed; high | Integration.NewWithFiniteDifferencesAsWritten | Integration.NewWithFiniteDifferences |
| src/main/java/org/apache/commons/math/ode/jacobians/FirstOrderIntegratorWithJacobians.java:606 | readExternal reallocates y, dydy0 and dydp for the n read from the stream (lines 599-601) but reads yDot's entries into the existing yDot array | a wrapper with n = 1, written and read back into a wrapper whose yDot is empty, raises IndexOutOfBounds (Externalization.EmptyYDotCounterexample); with a longer yDot the stale tail stays (Externalization.AsWrittenRoundTrip) | yDot is allocated with length n like y, so that every written wrapper reads back as its copy | not executed; medium | Externalization.ReadExternalAsWritten | Externalization.ReadExternal |
