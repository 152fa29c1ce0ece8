/** Sky-gradient background (src/prefabs/materials/bg_sky.rs). */
module BgSkyMat {
  import opened Options
  import opened Vec3Math
  import opened SquareRoot
  import opened MaterialCore

  datatype BgSky = BgSky

  /** The colour at the zenith of the gradient; white is at the nadir. */
  function SkyBlue(): Vec3 { Vec3(0.5, 0.7, 1.0) }

  /** The blend weight of the sky colour for a unit direction's vertical component. */
  function Weight(unitY: real): (a: real)
    ensures unitY == 1.0 ==> a == 1.0
    ensures unitY == -1.0 ==> a == 0.0
    ensures -1.0 <= unitY <= 1.0 ==> 0.0 <= a <= 1.0
  {
    0.5 * (unitY + 1.0)
  }

  /** `(1 - a) * white + a * sky` */
  function Blend(a: real): (c: Vec3)
    ensures c.z == 1.0
    ensures 0.0 <= a <= 1.0 ==> 0.5 <= c.x <= 1.0 && 0.7 <= c.y <= 1.0
  {
    Add(ScalarMul(1.0 - a, FromScalar(1.0)), ScalarMul(a, SkyBlue()))
  }

  /** `BgSky::emissive`: the gradient at the normalized incident direction. */
  function Emission(m: BgSky, input: MatInput, sqrt: real -> real): (r: Vec3)
    ensures r.z == 1.0
  {
    Blend(Weight(Normalized(input.incidentRay.dir, sqrt).y))
  }

  /** For an incident direction of non-zero length the gradient stays between white and sky
      blue in every channel. */
  lemma EmissionBounds(m: BgSky, input: MatInput, sqrt: real -> real)
    requires IsSqrt(sqrt) && Length(input.incidentRay.dir, sqrt) != 0.0
    ensures var c := Emission(m, input, sqrt);
      0.5 <= c.x <= 1.0 && 0.7 <= c.y <= 1.0 && c.z == 1.0
  {
    NormalizedBounds(input.incidentRay.dir, sqrt);
  }

  /** `shade` is not overridden: the default applies and nothing scatters. */
  function Shade(m: BgSky, input: MatInput): (r: Option<ShadeOutput>)
    ensures r.None?
  {
    DefaultShade(input)
  }

  /** The two ends of the gradient: straight up is sky blue, straight down is white. */
  lemma BlendEndpoints(unitY: real)
    ensures var c := Blend(Weight(unitY));
      unitY == 1.0 ==> c.x == SkyBlue().x && c.y == SkyBlue().y && c.z == SkyBlue().z
    ensures var c := Blend(Weight(unitY));
      unitY == -1.0 ==> c.x == 1.0 && c.y == 1.0 && c.z == 1.0
  {
  }

  /** The gradient moves each channel monotonically from white towards sky blue. */
  lemma BlendMonotonic(a: real, b: real)
    requires a <= b
    ensures Blend(b).x <= Blend(a).x && Blend(b).y <= Blend(a).y
  {
  }
}
