/** The sphere primitive and its ray intersection (src/prefabs.rs). */
module Spheres {
  import opened Options
  import opened SquareRoot
  import opened Intervals
  import opened Vec3Math
  import opened Rays

  /** A surface hit: where, the oriented normal, the ray step, and whether the front face was hit. */
  datatype HittingInfo = HittingInfo(position: Vec3, normal: Vec3, step: real, isFront: bool)

  datatype Sphere = Sphere(center: Vec3, radius: real)

  /** The half-b quadratic `a t^2 - 2 h t + c = 0` whose roots are the steps where the ray
      meets the sphere. */
  function QuadA(ray: Ray): real { Dot(ray.dir, ray.dir) }

  function QuadH(s: Sphere, ray: Ray): real { Dot(ray.dir, Sub(s.center, ray.ori)) }

  function QuadC(s: Sphere, ray: Ray): real {
    var oc := Sub(s.center, ray.ori);
    Dot(oc, oc) - s.radius * s.radius
  }

  function Discriminant(s: Sphere, ray: Ray): real {
    var h := QuadH(s, ray);
    h * h - QuadA(ray) * QuadC(s, ray)
  }

  /** The nearer root `(h - sqrt(disc)) / a`. */
  function NearRoot(s: Sphere, ray: Ray, sqrt: real -> real): real
    requires QuadA(ray) != 0.0
  {
    (QuadH(s, ray) - sqrt(Discriminant(s, ray))) / QuadA(ray)
  }

  /** The farther root `(h + sqrt(disc)) / a`. */
  function FarRoot(s: Sphere, ray: Ray, sqrt: real -> real): real
    requires QuadA(ray) != 0.0
  {
    (QuadH(s, ray) + sqrt(Discriminant(s, ray))) / QuadA(ray)
  }

  /** The unit outward normal at a point of the surface. */
  function OutwardNormal(s: Sphere, point: Vec3, sqrt: real -> real): Vec3 {
    Normalized(Sub(point, s.center), sqrt)
  }

  /** Turning the outward normal against the ray: flipped exactly when it points along the ray.
      Returns the oriented normal and whether the front face was hit. */
  function Orient(outward: Vec3, dir: Vec3): (r: (Vec3, bool))
    ensures Dot(r.0, dir) <= 0.0
    ensures r.1 <==> Dot(outward, dir) <= 0.0
    ensures r.0 == (if r.1 then outward else Neg(outward))
  {
    if Dot(outward, dir) > 0.0 then
      assert Dot(Neg(outward), dir) == -Dot(outward, dir);
      (Neg(outward), false)
    else
      (outward, true)
  }

  /** `Sphere::hit`: the nearer root if the step interval surrounds it, else the farther root
      if surrounded, else no hit. A zero direction (`a == 0`) divides zero by zero in f64, and
      no interval surrounds NaN, so it is no hit. */
  function Hit(s: Sphere, ray: Ray, limit: Interval, sqrt: real -> real): (r: Option<HittingInfo>)
    ensures Discriminant(s, ray) < 0.0 || QuadA(ray) == 0.0 ==> r == None
    ensures r.Some? ==> Surrounds(limit, r.value.step)
    ensures r.Some? ==> r.value.position == Position(ray, r.value.step)
    ensures r.Some? ==> Dot(r.value.normal, ray.dir) <= 0.0
    ensures r.Some? ==>
      var outward := OutwardNormal(s, r.value.position, sqrt);
      (r.value.isFront <==> Dot(outward, ray.dir) <= 0.0) &&
      r.value.normal == (if r.value.isFront then outward else Neg(outward))
  {
    var a := QuadA(ray);
    if Discriminant(s, ray) < 0.0 || a == 0.0 then None
    else
      var near := NearRoot(s, ray, sqrt);
      var step := if Surrounds(limit, near) then near else FarRoot(s, ray, sqrt);
      if !Surrounds(limit, step) then None
      else
        var point := Position(ray, step);
        var oriented := Orient(OutwardNormal(s, point, sqrt), ray.dir);
        Some(HittingInfo(point, oriented.0, step, oriented.1))
  }

  /** Root selection: the nearer root wins whenever it is inside the interval; the farther root
      is used only otherwise; with neither inside there is no hit. */
  lemma HitRootChoice(s: Sphere, ray: Ray, limit: Interval, sqrt: real -> real)
    requires Discriminant(s, ray) >= 0.0 && QuadA(ray) != 0.0
    ensures var r := Hit(s, ray, limit, sqrt);
      var near, far := NearRoot(s, ray, sqrt), FarRoot(s, ray, sqrt);
      (Surrounds(limit, near) ==> r.Some? && r.value.step == near) &&
      (!Surrounds(limit, near) && Surrounds(limit, far) ==> r.Some? && r.value.step == far) &&
      (!Surrounds(limit, near) && !Surrounds(limit, far) <==> r == None)
  {
  }

  /** With a non-negative square root the nearer root never exceeds the farther one. */
  lemma NearBeforeFar(s: Sphere, ray: Ray, sqrt: real -> real)
    requires IsSqrt(sqrt) && Discriminant(s, ray) >= 0.0 && QuadA(ray) != 0.0
    ensures NearRoot(s, ray, sqrt) <= FarRoot(s, ray, sqrt)
  {
    SqrtOf(sqrt, Discriminant(s, ray));
    var a, h, d := QuadA(ray), QuadH(s, ray), sqrt(Discriminant(s, ray));
    assert a == ray.dir.x * ray.dir.x + ray.dir.y * ray.dir.y + ray.dir.z * ray.dir.z;
    assert a > 0.0;
    assert (h - d) / a <= (h + d) / a;
  }

  /** Head-on: a sphere of radius `rad` centred `d > rad` units down the -z axis from the ray's
      origin, seen along -z, is hit on its front face at step `d - rad`, with normal (0, 0, 1). */
  lemma HitHeadOn(o: Vec3, d: real, rad: real, sqrt: real -> real)
    requires IsSqrt(sqrt) && 0.0 < rad < d
    ensures Hit(Sphere(Vec3(o.x, o.y, o.z - d), rad), Ray(o, Vec3(0.0, 0.0, -1.0)),
                Interval(Fin(0.0), PosInf), sqrt)
         == Some(HittingInfo(Vec3(o.x, o.y, o.z - d + rad), Vec3(0.0, 0.0, 1.0), d - rad, true))
  {
    var s := Sphere(Vec3(o.x, o.y, o.z - d), rad);
    var ray := Ray(o, Vec3(0.0, 0.0, -1.0));
    var oc := Sub(s.center, ray.ori);
    assert oc == Vec3(0.0, 0.0, -d);
    assert QuadA(ray) == 1.0;
    assert QuadH(s, ray) == d;
    assert QuadC(s, ray) == d * d - rad * rad;
    assert Discriminant(s, ray) == rad * rad;
    SqrtOfSquare(sqrt, rad);
    assert NearRoot(s, ray, sqrt) == d - rad;
    assert Surrounds(Interval(Fin(0.0), PosInf), d - rad);
    var point := Position(ray, d - rad);
    assert point == Vec3(o.x, o.y, o.z - d + rad);
    HeadOnNormal(s, point, rad, sqrt);
  }

  /** The outward normal at the point `rad` above the centre along +z is (0, 0, 1). */
  lemma HeadOnNormal(s: Sphere, point: Vec3, rad: real, sqrt: real -> real)
    requires IsSqrt(sqrt) && 0.0 < rad && s.radius == rad
    requires point == Vec3(s.center.x, s.center.y, s.center.z + rad)
    ensures OutwardNormal(s, point, sqrt) == Vec3(0.0, 0.0, 1.0)
  {
    var offset := Sub(point, s.center);
    assert offset == Vec3(0.0, 0.0, rad);
    assert LengthSquare(offset) == rad * rad;
    SqrtOfSquare(sqrt, rad);
    assert Length(offset, sqrt) == rad;
    assert rad / rad == 1.0 && 0.0 / rad == 0.0;
    assert Normalized(offset, sqrt) == DivScalar(offset, rad);
  }
}
