/** Numeric helpers (src/core/math/utils.rs). */
module MathUtils {

  /** `f64::consts::PI`, as its decimal literal. */
  const PI: real := 3.141592653589793

  /** Degrees to radians: `PI * degrees / 180`. */
  function Radians(degrees: real): (r: real)
    ensures r * 180.0 == PI * degrees
  {
    PI * degrees / 180.0
  }

  /** A half turn is `PI` and no turn is zero. */
  lemma RadiansFixedPoints()
    ensures Radians(0.0) == 0.0
    ensures Radians(180.0) == PI
    ensures Radians(360.0) == 2.0 * PI
  {
  }

  /** The conversion is linear: additive and odd. */
  lemma RadiansLinear(a: real, b: real)
    ensures Radians(a + b) == Radians(a) + Radians(b)
    ensures Radians(-a) == -Radians(a)
  {
  }

  /** The conversion is strictly increasing. */
  lemma RadiansMonotonic(a: real, b: real)
    ensures a < b <==> Radians(a) < Radians(b)
  {
  }
}
