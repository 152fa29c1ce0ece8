/** The material implementations as one closed sum (the `dyn Material` objects of the source),
    with dispatch of the two interface methods. */
module Materials {
  import opened Options
  import opened Vec3Math
  import opened MaterialCore
  import LambertianMat
  import EmissiveMat
  import BgPureMat
  import BgSkyMat

  datatype Material =
    | Lambertian(lambertian: LambertianMat.Lambertian)
    | Emissive(emissive: EmissiveMat.Emissive)
    | BgPure(pure: BgPureMat.BgPure)
    | BgSky(sky: BgSkyMat.BgSky)

  /** `Material::emissive` of whichever implementation `m` is. */
  function Emission(m: Material, input: MatInput, sqrt: real -> real): (r: Vec3)
    ensures m.Lambertian? ==> r.x == 0.0 && r.y == 0.0 && r.z == 0.0
    ensures m.Emissive? ==> r == m.emissive.emissive
    ensures m.BgPure? ==> r == m.pure.color
    ensures m.BgSky? ==> r.z == 1.0
  {
    match m
    case Lambertian(l) => LambertianMat.Emission(l, input)
    case Emissive(e) => EmissiveMat.Emission(e, input)
    case BgPure(p) => BgPureMat.Emission(p, input)
    case BgSky(s) => BgSkyMat.Emission(s, input, sqrt)
  }

  /** `Material::shade` of whichever implementation `m` is; `randomUnit` is the random unit
      vector a Lambertian surface draws. */
  function Shade(m: Material, input: MatInput, randomUnit: Vec3): (r: Option<ShadeOutput>)
    ensures r.Some? <==> m.Lambertian?
    ensures r.Some? ==>
      r.value.attenuation == m.lambertian.albedo && r.value.scatter.ori == input.hittedPosition
  {
    match m
    case Lambertian(l) => LambertianMat.Shade(l, input, randomUnit)
    case Emissive(e) => EmissiveMat.Shade(e, input)
    case BgPure(p) => BgPureMat.Shade(p, input)
    case BgSky(s) => BgSkyMat.Shade(s, input)
  }
}
