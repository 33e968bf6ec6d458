/**
 * Tentative distances. The source stores a Python float that starts as
 * `math.inf`; here a distance is either a finite real or the sentinel `Inf`,
 * with the float rules the search relies on: `inf + w == inf`,
 * `inf < inf` is false and `inf == inf` is true.
 */
module Distances {
  datatype Dist = Fin(value: real) | Inf {
    /** `self + w`: adding a weight to infinity leaves infinity. */
    function Plus(w: real): Dist {
      match this
      case Fin(d) => Fin(d + w)
      case Inf => Inf
    }

    /** `self < other` on floats: every finite value is below `inf`, and `inf` is below nothing. */
    predicate Less(other: Dist) {
      match this
      case Inf => false
      case Fin(a) => other.Inf? || a < other.value
    }
  }

  /** Adding a strictly positive weight to a finite distance makes it strictly larger. */
  lemma PlusPositive(d: Dist, w: real)
    requires d.Fin? && w > 0.0
    ensures d.Less(d.Plus(w)) && d.Plus(w).Fin?
  {
  }
}
