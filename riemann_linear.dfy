/** The scalar linear-advection flux of riemann/linear.hpp. */
module RiemannLinear {

  /** Two-state flux: the upwind state times the speed a. */
  function GetFlux(left: real, right: real, a: real): real {
    if 0.0 < a then left * a else right * a
  }

  /** Single-state flux: the state times the speed a. */
  function GetSingleFlux(state: real, a: real): real {
    state * a
  }

  /** The state the wind blows from: left for a positive speed, right otherwise. */
  function Upwind(left: real, right: real, a: real): real {
    if 0.0 < a then left else right
  }

  /** The two-state flux is the single-state flux of the upwind side, and vanishes for a = 0. */
  lemma UpwindFlux(left: real, right: real, a: real)
    ensures GetFlux(left, right, a) == GetSingleFlux(Upwind(left, right, a), a)
    ensures a > 0.0 ==> GetFlux(left, right, a) == GetSingleFlux(left, a)
    ensures a < 0.0 ==> GetFlux(left, right, a) == GetSingleFlux(right, a)
    ensures a == 0.0 ==> GetFlux(left, right, a) == 0.0
  {
  }

  /** Consistency: with equal states the two-state flux is the physical flux. */
  lemma FluxConsistent(u: real, a: real)
    ensures GetFlux(u, u, a) == GetSingleFlux(u, a)
  {
  }

  /** Mirror symmetry: swapping the sides and reversing the speed negates the flux. */
  lemma FluxMirror(left: real, right: real, a: real)
    ensures GetFlux(right, left, -a) == -GetFlux(left, right, a)
  {
  }
}
