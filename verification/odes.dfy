/** The ODE the enhanced integrator works with: either one that computes its
    Jacobians itself, or a plain ODE behind the finite-differences wrapper.
    Both see the same parameter slots of the user's ODE object. */
module Odes {
  import opened LinearAlgebra
  import FiniteDifferences

  /** df/dy (n by n) and df/dp (n by k) at one point. */
  datatype Jacobians = Jacobians(dFdY: seq<seq<real>>, dFdP: seq<seq<real>>)

  datatype JacobianOde =
    | Analytic(
        dimension: nat,
        parametersDimension: nat,
        derivatives: (real, seq<real>, seq<real>) -> seq<real>,
        jacobians: (real, seq<real>, seq<real>, seq<real>) -> Jacobians)
    | Differenced(wrapper: FiniteDifferences.Wrapper)
  {
    function N(): nat {
      match this
      case Analytic(n, _, _, _) => n
      case Differenced(w) => w.N()
    }

    function K(): nat {
      match this
      case Analytic(_, k, _, _) => k
      case Differenced(w) => w.K()
    }

    /** The user's callbacks fill arrays of the sizes the integrator allocates. */
    ghost predicate Valid() {
      match this
      case Analytic(n, k, f, jac) =>
        && (forall t, y, s :: |y| == n && |s| == k ==> |f(t, y, s)| == n)
        && (forall t, y, yDot, s :: |y| == n && |yDot| == n && |s| == k ==>
              IsMatrix(jac(t, y, yDot, s).dFdY, n, n) && IsMatrix(jac(t, y, yDot, s).dFdP, n, k))
      case Differenced(w) => w.Valid()
    }

    /** computeDerivatives: the wrapper delegates unchanged to the user's ODE. */
    function Derivatives(t: real, y: seq<real>, slots: seq<real>): (yDot: seq<real>)
      requires Valid() && |y| == N() && |slots| == K()
      ensures |yDot| == N()
    {
      match this
      case Analytic(_, _, f, _) => f(t, y, slots)
      case Differenced(w) => w.ode.derivatives(t, y, slots)
    }

    /** computeJacobians, together with the parameter slots it leaves behind:
        an analytic ODE does not touch them, the finite-differences wrapper
        leaves every slot j < k holding the wrapper's p[j]. */
    function ComputeJacobians(t: real, y: seq<real>, yDot: seq<real>, slots: seq<real>)
      : (r: (Jacobians, seq<real>))
      requires Valid() && |y| == N() && |yDot| == N() && |slots| == K()
      ensures IsMatrix(r.0.dFdY, N(), N()) && IsMatrix(r.0.dFdP, N(), K())
      ensures |r.1| == K()
      ensures Analytic? ==> r.1 == slots
      ensures Differenced? ==> r.1 == wrapper.p
    {
      match this
      case Analytic(_, _, _, jac) => (jac(t, y, yDot, slots), slots)
      case Differenced(w) =>
        (Jacobians(FiniteDifferences.StateJacobian(w, t, y, yDot, slots),
                   FiniteDifferences.ParamJacobian(w, t, y, yDot, slots)),
         w.p)
    }
  }
}
