/** Light-emitting material (src/prefabs/materials/emissive.rs). */
module EmissiveMat {
  import opened Options
  import opened Vec3Math
  import opened MaterialCore

  datatype Emissive = Emissive(emissive: Vec3)

  /** `Emissive::emissive`: the stored colour, whatever the input. */
  function Emission(m: Emissive, input: MatInput): (r: Vec3)
    ensures r == m.emissive
  {
    m.emissive
  }

  /** `Emissive::shade`: never scatters. */
  function Shade(m: Emissive, input: MatInput): (r: Option<ShadeOutput>)
    ensures r.None?
  {
    None
  }

  /** Neither method looks at the hit: any two inputs give the same answers. */
  lemma IgnoresInput(m: Emissive, i1: MatInput, i2: MatInput)
    ensures Emission(m, i1) == Emission(m, i2)
    ensures Shade(m, i1) == Shade(m, i2)
  {
  }
}
