/** The camera and its per-pixel ray-batch iterator (src/camera.rs). The viewport geometry
    (`origin`, `uvdir`) is taken as given; see README. */
module Cameras {
  import opened Options
  import opened Vec3Math
  import opened Vec2Math
  import opened Rays
  import opened Raster

  datatype Camera = Camera(pos: Vec3, dir: Vec3, fov: real, viewport: Vec2)

  /** `Camera::new` */
  function NewCamera(position: Vec3, direction: Vec3, viewport: Vec2, fov: real): (c: Camera)
    ensures c.pos == position && c.dir == direction && c.viewport == viewport && c.fov == fov
  {
    Camera(position, direction, fov, viewport)
  }

  /** Iterator over pixels in row-major order, each yielding `spp` jittered rays. */
  class RayCollection {
    const owner: Camera
    /** World position of the viewport's upper-left corner. */
    const origin: Vec3
    /** The viewport's right and down edges. */
    const uvdir: (Vec3, Vec3)
    /** `(width, height)` */
    const screen: (nat, nat)
    const spp: nat
    const ending: nat
    var counter: nat

    ghost predicate Valid()
      reads this
    {
      ending == screen.0 * screen.1 && counter <= ending
    }

    /** `RayCollection::new` (counter and ending; `origin` and `uvdir` are given). The pixel
        count is computed in `u32`, so it must not overflow. */
    constructor (owner: Camera, origin: Vec3, uvdir: (Vec3, Vec3), screen: (nat, nat), spp: nat)
      requires screen.0 * screen.1 < U32Limit
      ensures Valid()
      ensures this.owner == owner && this.origin == origin && this.uvdir == uvdir
      ensures this.screen == screen && this.spp == spp
      ensures counter == 0 && ending == screen.0 * screen.1
    {
      this.owner := owner;
      this.origin := origin;
      this.uvdir := uvdir;
      this.screen := screen;
      this.spp := spp;
      ending := screen.0 * screen.1;
      counter := 0;
    }

    /** Batches still to come. */
    function Remaining(): nat
      reads this
      requires Valid()
    {
      ending - counter
    }

    /** The pixel of the `k`-th batch: `(k % width, k / width)`. Batches run through the
        pixels row by row, each pixel exactly once. */
    function Pixel(k: nat): (p: (nat, nat))
      reads this
      requires Valid() && k < ending
      ensures p.0 < screen.0 && p.1 < screen.1
      ensures PixelIndex(screen.0, p.0, p.1) == k
    {
      RowMajorPixel(screen.0, screen.1, k)
    }

    /** The ray for jitter offset `offset` in the `k`-th batch. */
    function SampleRay(k: nat, offset: Vec2): (r: Ray)
      reads this
      requires Valid() && k < ending
      ensures r.ori == owner.pos
    {
      var pixel := Pixel(k);
      var u := pixel.0 as real;
      var v := pixel.1 as real;
      var uScaler := (u + offset.x) / screen.0 as real;
      var vScaler := (v + offset.y) / screen.1 as real;
      Ray(owner.pos, Vec3Math.Add(Vec3Math.Add(origin, Vec3Math.MulScalar(uvdir.0, uScaler)),
                                  Vec3Math.MulScalar(uvdir.1, vScaler)))
    }

    /** `next`: `None` once all `width * height` pixels are done, leaving the state alone;
        otherwise one ray per jitter offset for the current pixel, and move to the next pixel.
        The random jitter offsets are passed in, `spp` of them. */
    method Next(offsets: seq<Vec2>) returns (r: Option<seq<Ray>>)
      requires Valid() && |offsets| == spp
      modifies this
      ensures Valid()
      ensures r.None? <==> old(Remaining()) == 0
      ensures r.Some? ==> Remaining() == old(Remaining()) - 1
      ensures r.None? ==> counter == old(counter)
      ensures r.Some? ==> counter == old(counter) + 1 && old(counter) < ending
      ensures r.Some? ==> |r.value| == spp
      ensures r.Some? ==> forall i :: 0 <= i < spp ==>
        r.value[i] == SampleRay(old(counter), offsets[i])
    {
      if counter == ending {
        return None;
      }
      var rays: seq<Ray> := [];
      for i := 0 to spp
        invariant |rays| == i
        invariant forall j :: 0 <= j < i ==> rays[j] == SampleRay(counter, offsets[j])
      {
        rays := rays + [SampleRay(counter, offsets[i])];
      }
      counter := counter + 1;
      return Some(rays);
    }
  }

  /** `Camera::rays`: a fresh iterator for the camera. */
  method CameraRays(cam: Camera, origin: Vec3, uvdir: (Vec3, Vec3), screen: (nat, nat), spp: nat)
    returns (rc: RayCollection)
    requires screen.0 * screen.1 < U32Limit
    ensures fresh(rc) && rc.Valid()
    ensures rc.owner == cam && rc.screen == screen && rc.spp == spp
    ensures rc.Remaining() == screen.0 * screen.1
  {
    rc := new RayCollection(cam, origin, uvdir, screen, spp);
  }
}
