/** Diffuse material (src/prefabs/materials/lambertian.rs). */
module LambertianMat {
  import opened Options
  import opened Vec3Math
  import opened Rays
  import opened MaterialCore

  datatype Lambertian = Lambertian(albedo: Vec3)

  /** Scatter directions shorter than this (squared) are replaced by the normal. */
  const NearZero: real := 0.0000000000000003

  /** `Lambertian::shade`, with the random unit vector passed in: scatter from the hit point
      towards `normal + randomUnit`, or along the normal when that sum is almost zero. The
      albedo is the attenuation. */
  function Shade(m: Lambertian, input: MatInput, randomUnit: Vec3): (r: Option<ShadeOutput>)
    ensures r.Some?
    ensures r.value.attenuation == m.albedo
    ensures r.value.scatter.ori == input.hittedPosition
    ensures var d := Add(input.surfaceNorm, randomUnit);
      if LengthSquare(d) < NearZero then r.value.scatter.dir == input.surfaceNorm
      else r.value.scatter.dir == d
  {
    var candidate := Add(input.surfaceNorm, randomUnit);
    var dir := if LengthSquare(candidate) < NearZero then input.surfaceNorm else candidate;
    Some(ShadeOutput(Ray(input.hittedPosition, dir), m.albedo))
  }

  /** The scatter direction is never the zero vector when the normal is not: either it is the
      normal, or its squared length is at least the threshold. */
  lemma ScatterNonZero(m: Lambertian, input: MatInput, randomUnit: Vec3)
    requires input.surfaceNorm != Zero()
    ensures Shade(m, input, randomUnit).value.scatter.dir != Zero()
    ensures var dir := Shade(m, input, randomUnit).value.scatter.dir;
      dir == input.surfaceNorm || LengthSquare(dir) >= NearZero
  {
    var candidate := Add(input.surfaceNorm, randomUnit);
    if LengthSquare(candidate) >= NearZero {
      ZeroHasNoLength(candidate);
    }
  }

  /** The random draw cancelling the normal exactly falls back to the normal. */
  lemma OppositeDrawFallsBack(m: Lambertian, input: MatInput)
    ensures Shade(m, input, Neg(input.surfaceNorm)).value.scatter.dir == input.surfaceNorm
  {
    var candidate := Add(input.surfaceNorm, Neg(input.surfaceNorm));
    assert candidate.x == 0.0 && candidate.y == 0.0 && candidate.z == 0.0;
    assert LengthSquare(candidate) == 0.0;
  }

  /** A Lambertian surface does not override `emissive`, so it emits black. */
  function Emission(m: Lambertian, input: MatInput): (r: Vec3)
    ensures r.x == 0.0 && r.y == 0.0 && r.z == 0.0
  {
    DefaultEmissive(input)
  }
}
