/** Uniform background colour (src/prefabs/materials/bg_pure.rs). */
module BgPureMat {
  import opened Options
  import opened Vec3Math
  import opened MaterialCore

  datatype BgPure = BgPure(color: Vec3)

  /** `BgPure::emissive`: the stored colour, whatever the input. */
  function Emission(m: BgPure, input: MatInput): (r: Vec3)
    ensures r == m.color
  {
    m.color
  }

  /** `shade` is not overridden: the default applies and nothing scatters. */
  function Shade(m: BgPure, input: MatInput): (r: Option<ShadeOutput>)
    ensures r.None?
  {
    DefaultShade(input)
  }

  /** The colour does not depend on the ray, normal or position. */
  lemma IgnoresInput(m: BgPure, i1: MatInput, i2: MatInput)
    ensures Emission(m, i1) == Emission(m, i2)
  {
  }
}
