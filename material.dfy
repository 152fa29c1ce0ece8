/** The material interface (src/core/material.rs): what a material receives at a hit and
    what it returns when it scatters, plus the interface's default behaviour. */
module MaterialCore {
  import opened Options
  import opened Vec3Math
  import opened Rays

  /** What a material sees at a surface hit. */
  datatype MatInput = MatInput(incidentRay: Ray, surfaceNorm: Vec3, surfaceFront: bool,
                               hittedPosition: Vec3)

  /** A scattered ray and the colour it is attenuated by. */
  datatype ShadeOutput = ShadeOutput(scatter: Ray, attenuation: Vec3)

  /** The default emission: black, whatever the input. */
  function DefaultEmissive(input: MatInput): (r: Vec3)
    ensures r.x == 0.0 && r.y == 0.0 && r.z == 0.0
  {
    FromScalar(0.0)
  }

  /** The default shading: no scattered ray, whatever the input. */
  function DefaultShade(input: MatInput): (r: Option<ShadeOutput>)
    ensures r.None?
  {
    None
  }

  /** Neither default depends on the input. */
  lemma DefaultsIgnoreInput(i1: MatInput, i2: MatInput)
    ensures DefaultEmissive(i1) == DefaultEmissive(i2) == Zero()
    ensures DefaultShade(i1) == DefaultShade(i2)
  {
  }
}
