/** The single-thread CPU integrator (src/core/backends/st_driven.rs): the closest-hit scan
    over the entities, the depth-bounded path-tracing recursion and the framebuffer. */
module StDriven {
  import opened Options
  import opened Intervals
  import opened Vec3Math
  import opened Rays
  import opened Spheres
  import opened MaterialCore
  import opened Materials
  import opened Scenes

  datatype STDrivenRendererConfig = STDrivenRendererConfig(fbSize: nat, maxDepth: nat, spp: nat)

  class STDrivenRenderer {
    var framebuffer: seq<Vec3>
    const config: STDrivenRendererConfig

    /** `STDrivenRenderer::new`: one black pixel per framebuffer slot. */
    constructor (config: STDrivenRendererConfig)
      ensures |framebuffer| == config.fbSize
      ensures forall i :: 0 <= i < |framebuffer| ==> framebuffer[i] == Zero()
      ensures this.config == config
    {
      framebuffer := seq(config.fbSize, _ => FromScalar(0.0));
      this.config := config;
    }

    /** `fetch`: a copy of the framebuffer; nothing changes. */
    method Fetch() returns (fb: seq<Vec3>)
      ensures fb == framebuffer
    {
      fb := framebuffer;
    }
  }

  /** `hit_scene`: scan the entities in order, keeping a hit only when its step is strictly
      below the smallest step so far, and report nothing when no entity was hit. */
  method HitScene(ray: Ray, scene: seq<Entity>, limit: Interval, sqrt: real -> real)
    returns (r: Option<(HittingInfo, Material)>)
    ensures r == ClosestHit(ray, scene, limit, sqrt)
  {
    ghost var hits := Hits(ray, scene, limit, sqrt);
    ghost var best: Option<nat> := None;
    var minStep := PosInf;
    var hasHit := false;
    var current: Option<(HittingInfo, Material)> := None;
    for i := 0 to |scene|
      invariant best == ClosestIndex(hits[..i])
      invariant hasHit <==> best.Some?
      invariant best.None? ==> current.None? && minStep == PosInf
      invariant best.Some? ==> best.value < |scene| && hits[best.value].Some?
      invariant best.Some? ==> current == Some((hits[best.value].value, scene[best.value].mat))
      invariant best.Some? ==> minStep == Fin(hits[best.value].value.step)
    {
      ClosestIndexStep(hits, i);
      var hit := EntityHit(scene[i], ray, limit, sqrt);
      if hit.Some? {
        hasHit := true;
        if Lt(Fin(hit.value.step), minStep) {
          minStep := Fin(hit.value.step);
          current := Some((hit.value, scene[i].mat));
          best := Some(i);
        }
      }
    }
    assert hits[..|scene|] == hits;
    if !hasHit {
      return None;
    }
    r := current;
  }

  /** All three channels are zero. */
  predicate IsBlack(c: Vec3) {
    c.x == 0.0 && c.y == 0.0 && c.z == 0.0
  }

  /** The step interval every bounce uses: `(0.001, +inf)`. */
  function BounceLimit(): (i: Interval)
    ensures forall t: real :: Surrounds(i, t) <==> t > 0.001
  {
    Interval(Fin(0.001), PosInf)
  }

  /** What one bounce of `ray_color` sees: nothing, a surface that only emits, or a surface
      that emits and scatters a new ray with some attenuation. */
  datatype Bounce =
    | Miss
    | Absorbed(emitted: Vec3)
    | Scattered(emitted: Vec3, attenuation: Vec3, next: Ray)

  /** The closest hit of one bounce and its material's emission and scattering for the random
      unit vector `draw`. */
  function BounceAt(ray: Ray, scene: seq<Entity>, sqrt: real -> real, draw: Vec3): (b: Bounce)
    ensures b.Miss? <==> ClosestHit(ray, scene, BounceLimit(), sqrt).None?
  {
    match ClosestHit(ray, scene, BounceLimit(), sqrt)
    case None => Miss
    case Some((rec, mat)) =>
      var input := MatInput(ray, rec.normal, rec.isFront, rec.position);
      var emitted := Emission(mat, input, sqrt);
      match Shade(mat, input, draw)
      case None => Absorbed(emitted)
      case Some(out) => Scattered(emitted, out.attenuation, out.scatter)
  }

  /** The surface an emitting material is hit on stops the path and shows its emission. */
  lemma EmissiveBounce(ray: Ray, scene: seq<Entity>, sqrt: real -> real, draw: Vec3)
    requires ClosestHit(ray, scene, BounceLimit(), sqrt).Some?
    requires ClosestHit(ray, scene, BounceLimit(), sqrt).value.1.Emissive?
    ensures BounceAt(ray, scene, sqrt, draw) ==
            Absorbed(ClosestHit(ray, scene, BounceLimit(), sqrt).value.1.emissive.emissive)
  {
  }

  /** In a scene made only of Lambertian surfaces a bounce either misses or scatters a new ray,
      emitting black. */
  lemma LambertianBounce(ray: Ray, scene: seq<Entity>, sqrt: real -> real, draw: Vec3)
    requires forall i :: 0 <= i < |scene| ==> scene[i].mat.Lambertian?
    ensures var b := BounceAt(ray, scene, sqrt, draw);
      b.Miss? || (b.Scattered? && IsBlack(b.emitted))
  {
    var hit := ClosestHit(ray, scene, BounceLimit(), sqrt);
    if hit.Some? {
      assert hit.value.1.Lambertian?;
    }
  }

  /** The recursion of `ray_color` for any per-bounce query `bounce`: black once the depth is
      used up, the background on a miss, the emission alone when nothing scatters, otherwise
      the emission plus the attenuation times the colour of the scattered ray one level deeper.
      `draws[0]` is the random unit vector of this bounce, `draws[1..]` those of the deeper
      ones. */
  function Trace(ray: Ray, depth: nat, bounce: (Ray, Vec3) -> Bounce, bg: Vec3, draws: seq<Vec3>)
    : (r: Vec3)
    requires |draws| >= depth
    ensures depth == 0 ==> IsBlack(r)
    decreases depth
  {
    if depth == 0 then FromScalar(0.0)
    else
      match bounce(ray, draws[0])
      case Miss => bg
      case Absorbed(emitted) => emitted
      case Scattered(emitted, attenuation, next) =>
        Add(emitted, Mul(attenuation, Trace(next, depth - 1, bounce, bg, draws[1..])))
  }

  /** Only the first `depth` random draws matter: the recursion bounces at most `depth` times. */
  lemma {:induction false} TraceDrawsBeyondDepthUnused(ray: Ray, depth: nat, bounce: (Ray, Vec3) -> Bounce,
                                                       bg: Vec3, draws: seq<Vec3>)
    requires |draws| >= depth
    ensures Trace(ray, depth, bounce, bg, draws) == Trace(ray, depth, bounce, bg, draws[..depth])
    decreases depth
  {
    if depth > 0 {
      assert draws[..depth][0] == draws[0];
      match bounce(ray, draws[0])
      case Scattered(_, _, next) =>
        assert draws[..depth][1..] == draws[1..][..depth - 1];
        TraceDrawsBeyondDepthUnused(next, depth - 1, bounce, bg, draws[1..]);
      case _ =>
    }
  }

  /** When no bounce emits anything and the background is black, every ray is black. */
  lemma {:induction false} TraceNoLight(ray: Ray, depth: nat, bounce: (Ray, Vec3) -> Bounce, bg: Vec3,
                                        draws: seq<Vec3>)
    requires |draws| >= depth
    requires forall r, d :: bounce(r, d).Miss? || (bounce(r, d).Scattered? && IsBlack(bounce(r, d).emitted))
    requires IsBlack(bg)
    ensures IsBlack(Trace(ray, depth, bounce, bg, draws))
    decreases depth
  {
    if depth > 0 {
      match bounce(ray, draws[0])
      case Scattered(emitted, attenuation, next) =>
        var deeper := Trace(next, depth - 1, bounce, bg, draws[1..]);
        TraceNoLight(next, depth - 1, bounce, bg, draws[1..]);
        BlackBounce(emitted, attenuation, deeper);
        assert Trace(ray, depth, bounce, bg, draws) == Add(emitted, Mul(attenuation, deeper));
      case _ =>
    }
  }

  /** Black emission plus any attenuation of black is black. */
  lemma BlackBounce(emitted: Vec3, attenuation: Vec3, deeper: Vec3)
    requires IsBlack(emitted) && IsBlack(deeper)
    ensures IsBlack(Add(emitted, Mul(attenuation, deeper)))
  {
  }

  /** `ray_color`: the recursion above with each bounce querying the scene for its closest hit
      in (0.001, +inf). */
  function RayColor(ray: Ray, depth: nat, scene: seq<Entity>, bg: Vec3, sqrt: real -> real,
                    draws: seq<Vec3>): (r: Vec3)
    requires |draws| >= depth
    ensures depth == 0 ==> IsBlack(r)
    ensures depth > 0 && ClosestHit(ray, scene, BounceLimit(), sqrt).None? ==> r == bg
  {
    Trace(ray, depth, (r, d) => BounceAt(r, scene, sqrt, d), bg, draws)
  }

  /** A ray whose closest hit is an emitting surface shows that surface's colour. */
  lemma EmissiveIsOwnColor(ray: Ray, depth: nat, scene: seq<Entity>, bg: Vec3, sqrt: real -> real,
                           draws: seq<Vec3>)
    requires 0 < depth <= |draws|
    requires ClosestHit(ray, scene, BounceLimit(), sqrt).Some?
    requires ClosestHit(ray, scene, BounceLimit(), sqrt).value.1.Emissive?
    ensures RayColor(ray, depth, scene, bg, sqrt, draws) ==
            ClosestHit(ray, scene, BounceLimit(), sqrt).value.1.emissive.emissive
  {
    EmissiveBounce(ray, scene, sqrt, draws[0]);
  }

  /** A ray whose closest hit does not scatter shows exactly the hit material's emission. */
  lemma NoScatterIsEmission(ray: Ray, depth: nat, scene: seq<Entity>, bg: Vec3, sqrt: real -> real,
                            draws: seq<Vec3>)
    requires 0 < depth <= |draws|
    requires ClosestHit(ray, scene, BounceLimit(), sqrt).Some?
    requires var h := ClosestHit(ray, scene, BounceLimit(), sqrt).value;
      Shade(h.1, MatInput(ray, h.0.normal, h.0.isFront, h.0.position), draws[0]).None?
    ensures var h := ClosestHit(ray, scene, BounceLimit(), sqrt).value;
      RayColor(ray, depth, scene, bg, sqrt, draws) ==
      Emission(h.1, MatInput(ray, h.0.normal, h.0.isFront, h.0.position), sqrt)
  {
  }

  /** A ray whose closest hit scatters shows the emission plus the attenuation times the colour
      of the scattered ray one level deeper, which uses the remaining draws. */
  lemma ScatterRecurses(ray: Ray, depth: nat, scene: seq<Entity>, bg: Vec3, sqrt: real -> real,
                        draws: seq<Vec3>)
    requires 0 < depth <= |draws|
    requires ClosestHit(ray, scene, BounceLimit(), sqrt).Some?
    requires var h := ClosestHit(ray, scene, BounceLimit(), sqrt).value;
      Shade(h.1, MatInput(ray, h.0.normal, h.0.isFront, h.0.position), draws[0]).Some?
    ensures var h := ClosestHit(ray, scene, BounceLimit(), sqrt).value;
      var input := MatInput(ray, h.0.normal, h.0.isFront, h.0.position);
      var out := Shade(h.1, input, draws[0]).value;
      RayColor(ray, depth, scene, bg, sqrt, draws) ==
      Add(Emission(h.1, input, sqrt),
          Mul(out.attenuation, RayColor(out.scatter, depth - 1, scene, bg, sqrt, draws[1..])))
  {
  }

  /** An empty scene shows the background to every ray with depth left. */
  lemma EmptySceneIsBackground(ray: Ray, depth: nat, bg: Vec3, sqrt: real -> real, draws: seq<Vec3>)
    requires 0 < depth <= |draws|
    ensures RayColor(ray, depth, [], bg, sqrt, draws) == bg
  {
    ClosestIndexNoneIff(Hits(ray, [], BounceLimit(), sqrt));
  }

  /** Only the first `depth` random draws of a render matter. */
  lemma DrawsBeyondDepthUnused(ray: Ray, depth: nat, scene: seq<Entity>, bg: Vec3, sqrt: real -> real,
                               draws: seq<Vec3>)
    requires |draws| >= depth
    ensures RayColor(ray, depth, scene, bg, sqrt, draws) == RayColor(ray, depth, scene, bg, sqrt, draws[..depth])
  {
    TraceDrawsBeyondDepthUnused(ray, depth, (r, d) => BounceAt(r, scene, sqrt, d), bg, draws);
  }

  /** Without any light: when every entity is Lambertian (which emits nothing) and the
      background is black, every ray is black. */
  lemma NoLightIsBlack(ray: Ray, depth: nat, scene: seq<Entity>, bg: Vec3, sqrt: real -> real,
                       draws: seq<Vec3>)
    requires |draws| >= depth
    requires forall i :: 0 <= i < |scene| ==> scene[i].mat.Lambertian?
    requires IsBlack(bg)
    ensures IsBlack(RayColor(ray, depth, scene, bg, sqrt, draws))
  {
    var bounce := (r, d) => BounceAt(r, scene, sqrt, d);
    forall r, d
      ensures bounce(r, d).Miss? || (bounce(r, d).Scattered? && IsBlack(bounce(r, d).emitted))
    {
      LambertianBounce(r, scene, sqrt, d);
    }
    TraceNoLight(ray, depth, bounce, bg, draws);
  }
}
