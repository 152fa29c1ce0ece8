/** Rays `ori + dir * step` (src/core/ray.rs). */
module Rays {
  import opened Vec3Math

  datatype Ray = Ray(ori: Vec3, dir: Vec3)

  /** `Ray::position`: the point reached after `step` units of `dir`. */
  function Position(ray: Ray, step: real): (p: Vec3)
    ensures p.x == ray.ori.x + ray.dir.x * step
    ensures p.y == ray.ori.y + ray.dir.y * step
    ensures p.z == ray.ori.z + ray.dir.z * step
  {
    Add(ray.ori, MulScalar(ray.dir, step))
  }

  /** Step zero is the origin. */
  lemma PositionAtZero(ray: Ray)
    ensures Position(ray, 0.0) == ray.ori
  {
  }

  /** Advancing by `s + t` is advancing by `s` and then by `t` along `dir`. */
  lemma PositionAdditive(ray: Ray, s: real, t: real)
    ensures Position(ray, s + t) == Add(Position(ray, s), MulScalar(ray.dir, t))
  {
  }

  /** A ray with zero direction never leaves its origin. */
  lemma PositionZeroDir(ray: Ray, t: real)
    requires ray.dir == Zero()
    ensures Position(ray, t) == ray.ori
  {
  }

  /** A ray from the origin reaches `step * dir`. */
  lemma PositionFromOrigin(dir: Vec3, step: real)
    ensures Position(Ray(Zero(), dir), step) == MulScalar(dir, step)
  {
  }
}
