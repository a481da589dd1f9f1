/** Extended reals for the bound parameters of the early-stopping criteria.
    The criteria default their bounds to negative and positive infinity; here
    those defaults are the markers `NegInf` and `PosInf`, while the monitored
    values themselves are ordinary reals. */
module Bounds {

  datatype ExtReal = NegInf | Finite(r: real) | PosInf

  /** The order of the extended reals: `NegInf` below every real, `PosInf` above. */
  predicate Le(a: ExtReal, b: ExtReal) {
    match (a, b)
    case (NegInf, _) => true
    case (_, PosInf) => true
    case (Finite(x), Finite(y)) => x <= y
    case _ => false
  }

  /** `v > b` as the source compares a float against a bound. */
  predicate Above(v: real, b: ExtReal) {
    b.NegInf? || (b.Finite? && v > b.r)
  }

  /** `v < b` as the source compares a float against a bound. */
  predicate Below(v: real, b: ExtReal) {
    b.PosInf? || (b.Finite? && v < b.r)
  }

  /** `v` lies in the closed interval from `lo` to `hi`. */
  predicate Within(v: real, lo: ExtReal, hi: ExtReal) {
    Le(lo, Finite(v)) && Le(Finite(v), hi)
  }

  /** The decision shared by the threshold and slope criteria:
      `v > hi or v < lo`. It holds exactly when `v` leaves the closed interval. */
  predicate Outside(v: real, lo: ExtReal, hi: ExtReal)
    ensures Outside(v, lo, hi) <==> !Within(v, lo, hi)
  {
    Above(v, hi) || Below(v, lo)
  }
}
