/** Conversion of floating-point values, modelled as reals, to integers. */
module Reals {

  /** The C++ and Kotlin conversions: towards zero. */
  function Truncate(v: real): int {
    if v >= 0.0 then v.Floor else -((-v).Floor)
  }

  lemma TruncateMonotone(u: real, v: real)
    requires u <= v
    ensures Truncate(u) <= Truncate(v)
  {
  }
}
