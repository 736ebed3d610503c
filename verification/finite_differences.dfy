/** The finite-differences wrapper: it turns an ODE that only computes
    y' = f(t, y) into one that also computes the Jacobians df/dy and df/dp,
    by forward differences with fixed per-component steps hY and hP.

    The Java ODE object keeps its parameters in mutable slots that
    setParameter(j, v) overwrites and that f reads. Here those slots are an
    explicit sequence threaded through every evaluation. */
module FiniteDifferences {
  import opened LinearAlgebra

  /** A user ODE: its dimension n, its parameter count k and its right-hand
      side, which reads the current parameter slots. */
  datatype ParameterizedOde = ParameterizedOde(
    dimension: nat,
    parametersDimension: nat,
    derivatives: (real, seq<real>, seq<real>) -> seq<real>)
  {
    /** f fills a derivative array of length n. */
    ghost predicate Valid() {
      forall t, y, slots :: |y| == dimension && |slots| == parametersDimension ==>
        |derivatives(t, y, slots)| == dimension
    }
  }

  /** The wrapper's state: the wrapped ODE and its own copies of the
      reference parameters p and of the steps hY and hP. */
  datatype Wrapper = Wrapper(ode: ParameterizedOde, p: seq<real>, hY: seq<real>, hP: seq<real>) {

    function N(): nat { ode.dimension }

    function K(): nat { ode.parametersDimension }

    /** The shapes the constructor establishes, a well-behaved f, and nonzero
        steps (the code divides by them without checking). */
    ghost predicate Valid() {
      && ode.Valid()
      && |p| == K() && |hY| == N() && |hP| == K()
      && (forall j :: 0 <= j < |hY| ==> hY[j] != 0.0)
      && (forall j :: 0 <= j < |hP| ==> hP[j] != 0.0)
    }
  }

  /** The parameter slots while column j of df/dp is evaluated: slots before j
      have already been put back to p, slot j holds p[j] + hP[j], and later
      slots still hold whatever they held on entry. */
  function SlotsDuring(slots: seq<real>, p: seq<real>, hP: seq<real>, j: nat): (s: seq<real>)
    requires |slots| == |p| == |hP| && j < |p|
    ensures |s| == |p|
    ensures s[j] == p[j] + hP[j]
    ensures forall c :: 0 <= c < j ==> s[c] == p[c]
    ensures forall c :: j < c < |s| ==> s[c] == slots[c]
  {
    p[..j] + [p[j] + hP[j]] + slots[j + 1..]
  }

  /** Forward difference of component i of f along state component j. */
  function StateEntry(w: Wrapper, t: real, y: seq<real>, yDot: seq<real>, slots: seq<real>, i: nat, j: nat): real
    requires w.Valid() && |y| == w.N() && |yDot| == w.N() && |slots| == w.K()
    requires i < w.N() && j < w.N()
  {
    (w.ode.derivatives(t, y[j := y[j] + w.hY[j]], slots)[i] - yDot[i]) / w.hY[j]
  }

  /** Forward difference of component i of f along parameter j. */
  function ParamEntry(w: Wrapper, t: real, y: seq<real>, yDot: seq<real>, slots: seq<real>, i: nat, j: nat): real
    requires w.Valid() && |y| == w.N() && |yDot| == w.N() && |slots| == w.K()
    requires i < w.N() && j < w.K()
  {
    (w.ode.derivatives(t, y, SlotsDuring(slots, w.p, w.hP, j))[i] - yDot[i]) / w.hP[j]
  }

  /** df/dy as the wrapper estimates it. */
  function StateJacobian(w: Wrapper, t: real, y: seq<real>, yDot: seq<real>, slots: seq<real>): (m: seq<seq<real>>)
    requires w.Valid() && |y| == w.N() && |yDot| == w.N() && |slots| == w.K()
    ensures IsMatrix(m, w.N(), w.N())
    ensures forall i, j :: 0 <= i < w.N() && 0 <= j < w.N() ==> m[i][j] == StateEntry(w, t, y, yDot, slots, i, j)
  {
    seq(w.N(), i requires 0 <= i < w.N() => seq(w.N(), j requires 0 <= j < w.N() => StateEntry(w, t, y, yDot, slots, i, j)))
  }

  /** df/dp as the wrapper estimates it. */
  function ParamJacobian(w: Wrapper, t: real, y: seq<real>, yDot: seq<real>, slots: seq<real>): (m: seq<seq<real>>)
    requires w.Valid() && |y| == w.N() && |yDot| == w.N() && |slots| == w.K()
    ensures IsMatrix(m, w.N(), w.K())
    ensures forall i, j :: 0 <= i < w.N() && 0 <= j < w.K() ==> m[i][j] == ParamEntry(w, t, y, yDot, slots, i, j)
  {
    seq(w.N(), i requires 0 <= i < w.N() => seq(w.K(), j requires 0 <= j < w.K() => ParamEntry(w, t, y, yDot, slots, i, j)))
  }

  /** The inner loop of computeJacobians: column j of m receives the forward
      differences (tmpDot[i] - yDot[i]) / h, and every other column is kept. */
  method FillColumn(m: seq<seq<real>>, rows: nat, cols: nat, j: nat, tmpDot: seq<real>, yDot: seq<real>, h: real)
    returns (r: seq<seq<real>>)
    requires IsMatrix(m, rows, cols) && j < cols && |tmpDot| == rows && |yDot| == rows && h != 0.0
    ensures IsMatrix(r, rows, cols)
    ensures forall i, c :: 0 <= i < rows && 0 <= c < cols && c != j ==> r[i][c] == m[i][c]
    ensures forall i :: 0 <= i < rows ==> r[i][j] == (tmpDot[i] - yDot[i]) / h
  {
    r := m;
    var i := 0;
    while i < rows
      invariant 0 <= i <= rows
      invariant IsMatrix(r, rows, cols)
      invariant forall i2, c :: 0 <= i2 < rows && 0 <= c < cols && c != j ==> r[i2][c] == m[i2][c]
      invariant forall i2 :: 0 <= i2 < i ==> r[i2][j] == (tmpDot[i2] - yDot[i2]) / h
    {
      r := r[i := r[i][j := (tmpDot[i] - yDot[i]) / h]];
      i := i + 1;
    }
  }

  /** The first loop of computeJacobians: perturb one state component at a
      time, evaluate f, fill one column of dFdY, restore the component. */
  method StateColumns(w: Wrapper, t: real, y: seq<real>, yDot: seq<real>, slots: seq<real>, dFdY: seq<seq<real>>)
    returns (jy: seq<seq<real>>, yAfter: seq<real>)
    requires w.Valid() && |y| == w.N() && |yDot| == w.N() && |slots| == w.K()
    requires IsMatrix(dFdY, w.N(), w.N())
    ensures IsMatrix(jy, w.N(), w.N())
    ensures forall i, c :: 0 <= i < w.N() && 0 <= c < w.N() ==> jy[i][c] == StateEntry(w, t, y, yDot, slots, i, c)
    ensures yAfter == y
  {
    var n := w.N();
    var cur := y;
    jy := dFdY;
    var j := 0;
    while j < n
      invariant 0 <= j <= n
      invariant cur == y
      invariant IsMatrix(jy, n, n)
      invariant forall i, c :: 0 <= i < n && 0 <= c < j ==> jy[i][c] == StateEntry(w, t, y, yDot, slots, i, c)
    {
      var saved := cur[j];
      cur := cur[j := cur[j] + w.hY[j]];
      var tmpDot := w.ode.derivatives(t, cur, slots);
      ghost var before := jy;
      jy := FillColumn(jy, n, n, j, tmpDot, yDot, w.hY[j]);
      forall i, c | 0 <= i < n && 0 <= c < j + 1
        ensures jy[i][c] == StateEntry(w, t, y, yDot, slots, i, c)
      {
        if c < j {
          assert jy[i][c] == before[i][c];
        }
      }
      cur := cur[j := saved];
      j := j + 1;
    }
    yAfter := cur;
  }

  /** Setting slot j to p[j] + hP[j] gives the slots while column j is
      evaluated; setting it back to p[j] restores one more slot. */
  lemma SlotsStep(slots: seq<real>, p: seq<real>, hP: seq<real>, j: nat)
    requires |slots| == |p| == |hP| && j < |p|
    ensures (p[..j] + slots[j..])[j := p[j] + hP[j]] == SlotsDuring(slots, p, hP, j)
    ensures SlotsDuring(slots, p, hP, j)[j := p[j]] == p[..j + 1] + slots[j + 1..]
  {
  }

  /** The second loop of computeJacobians: set one parameter slot at a time
      to p[j] + hP[j], evaluate f, fill one column of dFdP, and set the slot
      back to p[j]. */
  method ParamColumns(w: Wrapper, t: real, y: seq<real>, yDot: seq<real>, slots: seq<real>, dFdP: seq<seq<real>>)
    returns (jp: seq<seq<real>>, slotsAfter: seq<real>)
    requires w.Valid() && |y| == w.N() && |yDot| == w.N() && |slots| == w.K()
    requires IsMatrix(dFdP, w.N(), w.K())
    ensures IsMatrix(jp, w.N(), w.K())
    ensures forall i, c :: 0 <= i < w.N() && 0 <= c < w.K() ==> jp[i][c] == ParamEntry(w, t, y, yDot, slots, i, c)
    ensures slotsAfter == w.p
  {
    var n, k := w.N(), w.K();
    var s := slots;
    jp := dFdP;
    var j := 0;
    while j < k
      invariant 0 <= j <= k
      invariant s == w.p[..j] + slots[j..]
      invariant IsMatrix(jp, n, k)
      invariant forall i, c :: 0 <= i < n && 0 <= c < j ==> jp[i][c] == ParamEntry(w, t, y, yDot, slots, i, c)
    {
      SlotsStep(slots, w.p, w.hP, j);
      s := s[j := w.p[j] + w.hP[j]];
      var tmpDot := w.ode.derivatives(t, y, s);
      ghost var before := jp;
      jp := FillColumn(jp, n, k, j, tmpDot, yDot, w.hP[j]);
      forall i, c | 0 <= i < n && 0 <= c < j + 1
        ensures jp[i][c] == ParamEntry(w, t, y, yDot, slots, i, c)
      {
        if c < j {
          assert jp[i][c] == before[i][c];
        }
      }
      s := s[j := w.p[j]];
      j := j + 1;
    }
    assert w.p[..j] + slots[j..] == w.p;
    slotsAfter := s;
  }

  /** computeJacobians, loop for loop: the state loop, then the parameter
      loop. The out-parameters are the filled Jacobians, the state array and
      the parameter slots on return. */
  method ComputeJacobians(w: Wrapper, t: real, y: seq<real>, yDot: seq<real>, slots: seq<real>,
                          dFdY: seq<seq<real>>, dFdP: seq<seq<real>>)
    returns (jy: seq<seq<real>>, jp: seq<seq<real>>, yAfter: seq<real>, slotsAfter: seq<real>)
    requires w.Valid() && |y| == w.N() && |yDot| == w.N() && |slots| == w.K()
    requires IsMatrix(dFdY, w.N(), w.N()) && IsMatrix(dFdP, w.N(), w.K())
    ensures IsMatrix(jy, w.N(), w.N()) && IsMatrix(jp, w.N(), w.K())
    ensures forall i, j :: 0 <= i < w.N() && 0 <= j < w.N() ==>
              jy[i][j] == (w.ode.derivatives(t, y[j := y[j] + w.hY[j]], slots)[i] - yDot[i]) / w.hY[j]
    ensures forall i, j :: 0 <= i < w.N() && 0 <= j < w.K() ==>
              jp[i][j] == (w.ode.derivatives(t, y, SlotsDuring(slots, w.p, w.hP, j))[i] - yDot[i]) / w.hP[j]
    ensures yAfter == y
    ensures slotsAfter == w.p
  {
    jy, yAfter := StateColumns(w, t, y, yDot, slots, dFdY);
    jp, slotsAfter := ParamColumns(w, t, yAfter, yDot, slots, dFdP);
  }
}
