# A verified model of a small Monte Carlo path tracer

This Dafny project models the core of a Rust path tracer:

- the value math: intervals with infinite bounds, 3- and 2-component vectors, rays and
  degree-to-radian conversion;
- the sphere intersection query;
- the material interface and its four implementations: Lambertian, Emissive, BgPure and BgSky;
- the scene and its closest-hit scan;
- the floating-point screen buffer and the 8-bit PNG byte buffer;
- the camera's per-pixel ray-batch iterator;
- the single-thread integrator, whose `ray_color` is the depth-bounded recursion
  `emission + attenuation * ray_color(depth - 1)`;
- the debug renderer, which colours hits by their normal and misses by a sky gradient.

`f64` is modelled as `real`. `sqrt` is a function parameter `sqrt: real -> real`. Lemmas that
depend on its meaning require `SquareRoot.IsSqrt(sqrt)`: for every `t >= 0`, `sqrt(t) >= 0`
and `sqrt(t) * sqrt(t) == t`. The f64 infinities of interval bounds are the `NegInf`/`PosInf`
cases of `Intervals.Ext`. The trait object `dyn Material` is the closed sum
`Materials.Material`. The entity's `dyn Hittable` mesh is `Spheres.Sphere`, the only
implementation, so `Scenes.Entity` is `Entity(mat: Material, mesh: Sphere)`. Random values are parameters:

- the random unit vector of a Lambertian bounce (`randomUnit`);
- the per-bounce draws of `ray_color` (`draws`);
- the camera's jitter offsets (`offsets`).

Code that updates state in place is modelled in place:

- `Scene` is a class with a `seq` of entities;
- `Screen` and `Image` own arrays;
- `RayCollection` has a mutable counter;
- `STDrivenRenderer` owns its framebuffer;
- the closest-hit scan and the debug `render` are loops proved against the functions
  `Scenes.ClosestHit` and `Renderers.Painted`.

The recursion of `ray_color` is `StDriven.Trace`, which takes the per-bounce query as a
function: the closest hit, the material's emission and its scattering, as one `Bounce` value.
`StDriven.RayColor` applies it to the scene's own query `StDriven.BounceAt`. Its properties
are proved once for any query and then specialised to the scene.

A few spots of the source do not compile. The model follows their evident intent:

- `hit_scene` declares its running minimum and current hit immutable and uninitialised; here
  they are ordinary mutable locals.
- `ray_color` builds a `MatInput` without `incident_ray`; here it is the ray being traced.
- `RayCollection::next` calls `Vec2::random`, which does not exist; here the jitter offsets
  (already shifted by `-0.5`) are a parameter.
- `Renderer::render` iterates `camera.iter()` and calls `scene.hit`, neither of which exists.
  Here it takes a list of tasks, each a ray and a pixel slot, and uses the closest-hit scan over
  the scene's entities.

## Model

| member | source | states |
|---|---|---|
| Intervals.Contains | src/core/math/interval.rs:14-17 | `value >= min && value <= max` over the order extended by the infinities; with finite bounds exactly `min <= v <= max` |
| Intervals.Surrounds | src/core/math/interval.rs:19-22 | `min < v < max`: with finite bounds exactly the open comparison, and `(-inf, +inf)` surrounds every value |
| Intervals.Clamp | src/core/math/interval.rs:24-29 | a contained value comes back unchanged, a value below the minimum gives the minimum, and one above the maximum gives the maximum |
| Intervals.Empty | src/core/math/interval.rs:31-34 | the `(+inf, -inf)` interval contains and surrounds no value |
| Intervals.Universe | src/core/math/interval.rs:36-39 | the `(-inf, +inf)` interval contains and surrounds every finite value |
| Intervals.FiniteBounds | src/core/math/interval.rs:14-22 | with finite bounds, `contains` is exactly `a <= v <= b` and `surrounds` exactly `a < v < b` |
| Intervals.SurroundsImpliesContains | src/core/math/interval.rs:14-22 | `surrounds` implies `contains`; the minimum itself is never surrounded but is contained when not above the maximum |
| Intervals.InvertedIsEmpty | src/core/math/interval.rs:31-34 | any interval with `max < min` contains and surrounds nothing |
| Intervals.ClampInside | src/core/math/interval.rs:24-29 | on a non-empty interval, clamping yields a finite contained value, and clamping twice equals clamping once |
| Vec3Math.FromScalar | src/core/math/vec3.rs:20-22 | all three components equal the scalar |
| Vec3Math.Neg | src/core/math/vec3.rs:78-84 | each component of `-v` added to the matching component of `v` gives 0 |
| Vec3Math.Add | src/core/math/vec3.rs:86-96 | subtracting `v` from `u + v` gives back `u`, componentwise |
| Vec3Math.AddScalar | src/core/math/vec3.rs:98-108 | subtracting `s` from each component of `v + s` gives back `v` |
| Vec3Math.ScalarAdd | src/core/math/vec3.rs:110-116 | `s + v`, written as `v + s`, adds `s` to each component |
| Vec3Math.Sub | src/core/math/vec3.rs:118-124 | `u + (-v)` is the componentwise difference |
| Vec3Math.SubScalar | src/core/math/vec3.rs:126-132 | `v + (-s)` subtracts `s` from each component |
| Vec3Math.ScalarSub | src/core/math/vec3.rs:134-140 | `(-v) + s` is `s` minus each component |
| Vec3Math.ScalarMul | src/core/math/vec3.rs:166-172 | `s * v`, written as `v * s`, scales each component by `s` |
| Vec3Math.Mul | src/core/math/vec3.rs:142-152 | when `v` has no zero component, dividing `u * v` by `v` gives back `u` |
| Vec3Math.MulScalar | src/core/math/vec3.rs:154-164 | `v * s` is the componentwise product with the broadcast `(s, s, s)` |
| Vec3Math.Div | src/core/math/vec3.rs:174-184 | each component of `u / v` times the matching component of `v` gives back `u` |
| Vec3Math.DivScalar | src/core/math/vec3.rs:186-196 | each component of `v / s` times `s` gives back `v` |
| Vec3Math.ScalarDiv | src/core/math/vec3.rs:198-208 | each component of `s / v` times the matching component of `v` gives back `s` |
| Vec3Math.Dot | src/core/math/vec3.rs:65-67 | a vector's dot product with itself is never negative |
| Vec3Math.Cross | src/core/math/vec3.rs:69-75 | the cross product is orthogonal to both operands |
| Vec3Math.Length | src/core/math/vec3.rs:51-53 | with a true square root, the length is non-negative and its square is the squared length |
| Vec3Math.LengthSquare | src/core/math/vec3.rs:46-48 | the squared length is never negative and equals `v . v` |
| Vec3Math.ZeroHasNoLength | src/core/math/vec3.rs:46-48 | the zero vector has squared length 0 |
| Vec3Math.Normalized | src/core/math/vec3.rs:56-63 | the zero vector is returned unchanged; a vector of non-zero length is divided by its length |
| Vec3Math.NormalizedRoundTrip | src/core/math/vec3.rs:56-63 | multiplying the normalized vector by the length gives back the original vector |
| Vec3Math.DotSymmetric | src/core/math/vec3.rs:65-67 | the dot product is symmetric |
| Vec3Math.UnitLength | src/core/math/vec3.rs:56-63 | a vector of non-zero length normalizes to one of squared length 1 |
| Vec3Math.NormalizedBounds | src/core/math/vec3.rs:56-63 | every component of such a normalized vector lies in [-1,1] |
| Vec3Math.ScalarOpsCommute | src/core/math/vec3.rs:110-172 | `s + v == v + s`, `s * v == v * s`, and `s - v == (-v) + s` |
| Vec3Math.AddSubTestValues | src/core/math/vec3.rs:214-249 | the negation, addition and subtraction unit tests' expected values |
| Vec3Math.MulDivTestValues | src/core/math/vec3.rs:251-281 | the multiplication and division unit tests' expected values |
| Vec3Math.DotTestValue | src/core/math/vec3.rs:301-307 | (1,2,3) . (0,1,2) = 8 |
| Vec3Math.CrossTestValue | src/core/math/vec3.rs:309-319 | (1,2,3) x (0,1,2) = (1,-2,1) |
| Vec3Math.ZeroLength | src/core/math/vec3.rs:283-299 | the zero vector has length 0 and normalizes to itself |
| Vec3Math.LengthTestValues | src/core/math/vec3.rs:283-299 | (0,3,4) has length 5 and normalizes to (0,0.6,0.8) |
| Vec2Math.FromScalar | src/core/math/vec2.rs:15-17 | both components equal the scalar |
| Vec2Math.Neg | src/core/math/vec2.rs:35-41 | each component of `-v` added to the matching component of `v` gives 0 |
| Vec2Math.Add | src/core/math/vec2.rs:43-52 | subtracting `v` from `u + v` gives back `u`, componentwise |
| Vec2Math.AddScalar | src/core/math/vec2.rs:54-63 | subtracting `s` from each component of `v + s` gives back `v` |
| Vec2Math.Mul | src/core/math/vec2.rs:97-106 | when `v` has no zero component, dividing `u * v` by `v` gives back `u` |
| Vec2Math.MulScalar | src/core/math/vec2.rs:108-117 | `v * s` is the componentwise product with the broadcast `(s, s)` |
| Vec2Math.Div | src/core/math/vec2.rs:127-136 | each component of `u / v` times the matching component of `v` gives back `u` |
| Vec2Math.DivScalar | src/core/math/vec2.rs:138-147 | each component of `v / s` times `s` gives back `v` |
| Vec2Math.Length | src/core/math/vec2.rs:20-22 | with a true square root, the length is non-negative and its square is the sum of squares |
| Vec2Math.UnitLength | src/core/math/vec2.rs:25-32 | a vector of non-zero length normalizes to one whose squared components sum to 1 |
| Vec2Math.ScalarAdd | src/core/math/vec2.rs:65-71 | `s + v` adds `s` to each component |
| Vec2Math.Sub | src/core/math/vec2.rs:73-79 | subtraction is componentwise difference |
| Vec2Math.SubScalar | src/core/math/vec2.rs:81-87 | `v - s` subtracts `s` from each component |
| Vec2Math.ScalarSub | src/core/math/vec2.rs:89-95 | `s - v` is `s` minus each component |
| Vec2Math.ScalarMul | src/core/math/vec2.rs:119-125 | `s * v` scales each component by `s` |
| Vec2Math.ScalarDiv | src/core/math/vec2.rs:149-158 | `s / v` divides `s` by each component: each result component times the matching component is `s` |
| Vec2Math.Normalized | src/core/math/vec2.rs:25-32 | the zero vector is returned unchanged; a vector of non-zero length is divided by its length |
| Vec2Math.NormalizedRoundTrip | src/core/math/vec2.rs:25-32 | multiplying the normalized vector by the length gives back the original vector |
| Vec2Math.NegInvolution | src/core/math/vec2.rs:35-50 | negating twice is the identity, and `v + (-v)` is zero |
| Vec2Math.ScalarOpsCommute | src/core/math/vec2.rs:65-125 | `s + v == v + s`, `s * v == v * s`, and `s - v == (-v) + s` |
| Vec2Math.NegTestValues | src/core/math/vec2.rs:164-168 | -(1,2) = (-1,-2) |
| Vec2Math.NegZero | src/core/math/vec2.rs:164-168 | negating the zero vector gives zero |
| Vec2Math.AddTestValues | src/core/math/vec2.rs:170-184 | the addition unit tests' expected values |
| Vec2Math.SubTestValues | src/core/math/vec2.rs:186-200 | the subtraction unit tests' expected values, e.g. (1,2) - (5,6) = (-4,-4) |
| Vec2Math.MulTestValues | src/core/math/vec2.rs:202-216 | the multiplication unit tests' expected values |
| Vec2Math.DivTestValues | src/core/math/vec2.rs:218-233 | the division unit tests' expected values, e.g. 12 / (2,3) = (6,4) |
| Vec2Math.LengthTestValues | src/core/math/vec2.rs:235-248 | zero has length 0 and normalizes to itself; (3,4) has length 5 and normalizes to (0.6,0.8) |
| MathUtils.Radians | src/core/math/utils.rs:5-7 | the result times 180 is `PI` times the degrees |
| MathUtils.RadiansFixedPoints | src/core/math/utils.rs:5-7 | 0 degrees is 0, 180 degrees is `PI`, 360 degrees is `2 PI` |
| MathUtils.RadiansLinear | src/core/math/utils.rs:5-7 | the conversion is additive and odd |
| MathUtils.RadiansMonotonic | src/core/math/utils.rs:5-7 | the conversion is strictly increasing in both directions |
| Rays.Position | src/core/ray.rs:17-19 | each component is `ori + dir * step` |
| Rays.PositionAtZero | src/core/ray.rs:17-19 | step 0 is the origin |
| Rays.PositionAdditive | src/core/ray.rs:17-19 | `position(s + t) == position(s) + dir * t` |
| Rays.PositionZeroDir | src/core/ray.rs:17-19 | with a zero direction the ray never leaves its origin |
| Rays.PositionFromOrigin | src/core/ray.rs:17-19 | a ray from the zero point reaches `dir * step` |
| Spheres.Orient | src/prefabs.rs:38-43 | the oriented normal opposes the ray (`dot <= 0`); the front flag is false exactly when the outward normal was flipped |
| Spheres.Hit | src/prefabs.rs:17-49 | a negative discriminant or a zero direction gives no hit; a hit's step is surrounded by the interval, its position is the ray at that step, its normal opposes the ray, and the front flag matches the flip |
| Spheres.HitRootChoice | src/prefabs.rs:28-34 | the near root wins whenever surrounded; otherwise the far root is used; there is no hit exactly when neither is surrounded |
| Spheres.NearBeforeFar | src/prefabs.rs:28-30 | with a real square root, the near root never exceeds the far root |
| Spheres.HitHeadOn | src/prefabs.rs:17-49 | a sphere of radius `rad` at distance `d > rad` straight ahead is hit at step `d - rad`, on its front face, with normal pointing back at the ray |
| MaterialCore.DefaultEmissive | src/core/material.rs:31-33 | the default emission is black for every input |
| MaterialCore.DefaultShade | src/core/material.rs:36-38 | the default shading scatters nothing for every input |
| MaterialCore.DefaultsIgnoreInput | src/core/material.rs:27-39 | a material overriding neither method emits black and never scatters, whatever the hit |
| LambertianMat.Shade | src/prefabs/materials/lambertian.rs:16-30 | always scatters, with attenuation equal to the albedo, from the hit position, along `normal + randomUnit` unless its squared length is below 3e-16, in which case along the normal |
| LambertianMat.ScatterNonZero | src/prefabs/materials/lambertian.rs:17-22 | with a non-zero normal the scatter direction is never zero: it is the normal or has squared length at least 3e-16 |
| LambertianMat.OppositeDrawFallsBack | src/prefabs/materials/lambertian.rs:17-22 | a draw cancelling the normal falls back to the normal |
| LambertianMat.Emission | src/prefabs/materials/lambertian.rs:15-31 | emission is not overridden, so a Lambertian surface emits black |
| EmissiveMat.Emission | src/prefabs/materials/emissive.rs:16-18 | the stored colour, for every input |
| EmissiveMat.Shade | src/prefabs/materials/emissive.rs:20-22 | never scatters |
| EmissiveMat.IgnoresInput | src/prefabs/materials/emissive.rs:16-22 | neither method depends on the hit |
| BgPureMat.Emission | src/prefabs/materials/bg_pure.rs:16-18 | the stored colour, for every input |
| BgPureMat.Shade | src/prefabs/materials/bg_pure.rs:15-19 | shading is not overridden, so nothing scatters |
| BgPureMat.IgnoresInput | src/prefabs/materials/bg_pure.rs:16-18 | the colour ignores ray, normal and position |
| BgSkyMat.Weight | src/prefabs/materials/bg_sky.rs:10 | `a = 0.5 * (y + 1)` is 1 straight up, 0 straight down, and within [0,1] for y in [-1,1] |
| BgSkyMat.Blend | src/prefabs/materials/bg_sky.rs:11 | the z channel is exactly 1; for `a` in [0,1] each channel lies between white and (0.5,0.7,1.0) |
| BgSkyMat.Emission | src/prefabs/materials/bg_sky.rs:8-12 | the sky colour's z channel is exactly 1 |
| BgSkyMat.EmissionBounds | src/prefabs/materials/bg_sky.rs:8-12 | for a direction of non-zero length every channel lies between white and (0.5,0.7,1.0) |
| BgSkyMat.Shade | src/prefabs/materials/bg_sky.rs:7-13 | shading is not overridden, so nothing scatters |
| BgSkyMat.BlendEndpoints | src/prefabs/materials/bg_sky.rs:10-11 | a vertical component of 1 gives (0.5,0.7,1.0) and one of -1 gives white |
| BgSkyMat.BlendMonotonic | src/prefabs/materials/bg_sky.rs:10-11 | a larger weight moves the x and y channels towards the sky colour |
| Materials.Emission | src/core/material.rs:27-39 | dispatch: Lambertian emits black, Emissive and BgPure their stored colour, BgSky a colour with z = 1 |
| Materials.Shade | src/core/material.rs:27-39 | dispatch: only a Lambertian scatters, then with its albedo from the hit position |
| Scenes.Scene.constructor | src/core/scene.rs:11-13 | no entities, and the given background |
| Scenes.Scene.Add | src/core/scene.rs:16-18 | the entity is appended after all earlier ones; the background is unchanged |
| Scenes.EntityHit | src/core/backends/st_driven.rs:38 | an entity's hit is strictly inside the limit, on the ray, and faces the ray |
| Scenes.Hits | src/core/backends/st_driven.rs:37-38 | one hit query per entity, in entity order |
| Scenes.ClosestIndex | src/core/backends/st_driven.rs:37-46 | a chosen index is in range and names an entity that was hit |
| Scenes.ClosestIndexStep | src/core/backends/st_driven.rs:37-46 | one more entity takes over exactly when it is hit strictly closer than the closest so far |
| Scenes.ClosestHit | src/core/backends/st_driven.rs:31-51 | a reported hit's step is surrounded by the interval |
| Scenes.ClosestIndexNoneIff | src/core/backends/st_driven.rs:37-48 | there is no closest hit exactly when no entity is hit |
| Scenes.ClosestIndexIsEarliestMinimum | src/core/backends/st_driven.rs:37-46 | the chosen step is the minimum over all hits and strictly below every earlier hit, so the lowest index wins ties |
| Scenes.ClosestHitSpec | src/core/backends/st_driven.rs:31-51 | no hit iff no entity is hit; otherwise the result is some entity's own hit and material, at the minimum step, and the earliest such entity |
| Raster.PixelIndex | src/core/screen.rs:22 | an in-row pixel's index lies in its row's slice `[y * width, (y + 1) * width)` |
| Raster.PixelIndexInjective | src/core/screen.rs:22 | within a row, distinct pixels have distinct indices, and equal indices mean equal pixels |
| Raster.PixelIndexInRange | src/core/screen.rs:13-24 | every in-range pixel's index is below `width * height` |
| Raster.OutOfRowWraps | src/core/screen.rs:22-24 | an `x` past the row end addresses the next row |
| Raster.RowMajorPixel | src/camera.rs:93-94 | the `k`-th pixel `(k % width, k / width)` lies in the raster and has index `k` |
| Raster.RowMajor | src/camera.rs:93-94 | the same, as a lemma for positive width |
| Raster.RowMajorCovers | src/camera.rs:93-94 | every pixel of the raster is visited, at step `y * width + x` |
| Screens.Screen.constructor | src/core/screen.rs:13-18 | the stored sizes, and a `width * height` buffer of black pixels |
| Screens.Screen.Write | src/core/screen.rs:21-25 | the entry at `y * width + x` becomes the colour and no other entry changes |
| Png.Image.constructor | src/utils/png.rs:13-18 | the stored size, and `3 * width * height` zero bytes |
| Png.Image.Write | src/utils/png.rs:27-34 | bytes `i`, `i+1`, `i+2` with `i = (width * y + x) * 3` become the three channels and no other byte changes |
| Png.ByteIndex | src/utils/png.rs:28 | an in-row pixel's three bytes lie in its row's slice of the byte buffer |
| Png.PixelsDisjoint | src/utils/png.rs:28 | distinct in-row pixels have disjoint byte triples |
| Png.PixelBytesInBuffer | src/utils/png.rs:28-33 | every in-range pixel's three bytes lie inside the buffer |
| Cameras.NewCamera | src/camera.rs:42-49 | position, direction, fov and viewport are stored unchanged |
| Cameras.RayCollection.constructor | src/camera.rs:58-77 | counter 0 and ending `width * height` |
| Cameras.RayCollection.Pixel | src/camera.rs:93-94 | the `k`-th batch's pixel lies on the screen and has row-major index `k` |
| Cameras.RayCollection.SampleRay | src/camera.rs:96-100 | every ray starts at the camera position |
| Cameras.RayCollection.Next | src/camera.rs:83-109 | `None` exactly when all batches are done, leaving the counter alone; otherwise `spp` rays, each the sample ray of the current pixel for its offset, and the counter moves on by one |
| Cameras.CameraRays | src/camera.rs:52-54 | a fresh collection for the camera with `width * height` batches to come |
| StDriven.STDrivenRenderer.constructor | src/core/backends/st_driven.rs:24-29 | `fb_size` black pixels, and the config kept |
| StDriven.STDrivenRenderer.Fetch | src/core/backends/st_driven.rs:98-100 | returns the framebuffer and changes nothing |
| StDriven.HitScene | src/core/backends/st_driven.rs:31-51 | the loop computes exactly the closest hit, so every property of `ClosestHitSpec` applies |
| StDriven.BounceLimit | src/core/backends/st_driven.rs:67 | the bounce interval surrounds exactly the steps above 0.001 |
| StDriven.BounceAt | src/core/backends/st_driven.rs:67-86 | one bounce misses exactly when no entity is hit in the open interval (0.001, +inf) |
| StDriven.EmissiveBounce | src/core/backends/st_driven.rs:78-86 | a bounce on a light stops the path and emits the light's stored colour |
| StDriven.LambertianBounce | src/core/backends/st_driven.rs:67-86 | in a scene of Lambertian surfaces a bounce either misses or scatters a new ray while emitting black |
| StDriven.Trace | src/core/backends/st_driven.rs:53-90 | for any per-bounce query, a path with no depth left is black |
| StDriven.TraceDrawsBeyondDepthUnused | src/core/backends/st_driven.rs:65-89 | for any per-bounce query, only the first `depth` random draws matter |
| StDriven.TraceNoLight | src/core/backends/st_driven.rs:53-90 | when no bounce emits light and the background is black, every path is black |
| StDriven.RayColor | src/core/backends/st_driven.rs:53-90 | depth 0 is black; a miss is the background |
| StDriven.NoScatterIsEmission | src/core/backends/st_driven.rs:79-86 | when the closest hit's material does not scatter, the colour is exactly that material's emission |
| StDriven.ScatterRecurses | src/core/backends/st_driven.rs:79-89 | when it scatters, the colour is the emission plus the attenuation times the scattered ray's colour one level deeper, on the remaining draws |
| StDriven.EmissiveIsOwnColor | src/core/backends/st_driven.rs:53-90 | a ray whose closest hit is a light shows exactly the light's colour |
| StDriven.EmptySceneIsBackground | src/core/backends/st_driven.rs:67-70 | an empty scene shows the background to every ray with depth left |
| StDriven.DrawsBeyondDepthUnused | src/core/backends/st_driven.rs:65-89 | only the first `depth` random draws matter, so the recursion bounces at most `depth` times |
| StDriven.NoLightIsBlack | src/core/backends/st_driven.rs:53-90 | with only Lambertian surfaces and a black background, every ray is black at every depth |
| Renderers.DefaultConfig | src/renderer.rs:48-56 | backend `CPUDrivenS`, debug level `Full`, 32 samples per pixel |
| Renderers.NewRenderer | src/renderer.rs:66-68 | the config is stored unchanged |
| Renderers.GetBackground | src/renderer.rs:83-87 | the background's z channel is exactly 1 |
| Renderers.BackgroundIsSky | src/renderer.rs:83-87 | the debug background equals the sky material's emission along the same ray |
| Renderers.NormalColor | src/renderer.rs:74 | each normal component in [-1,1] maps into [0,1] |
| Renderers.NormalColorRoundTrip | src/renderer.rs:74 | `2 * colour - 1` recovers the normal |
| Renderers.RenderLimit | src/renderer.rs:72 | the render interval surrounds exactly the positive steps |
| Renderers.PixelColor | src/renderer.rs:72-79 | a hit within `(0, +inf)` gives the normal colour; a miss gives the background |
| Renderers.Painted | src/renderer.rs:71-80 | the buffer after each task in order overwrites its slot with its pixel colour; it keeps the buffer's length, and `Render`, `PaintedDistinct` and `PaintedUntouched` are stated against it |
| Renderers.PaintedDistinct | src/renderer.rs:71-80 | when tasks have distinct slots, each task's slot ends up holding its ray's colour |
| Renderers.PaintedUntouched | src/renderer.rs:71-80 | a slot no task names keeps its old colour |
| Renderers.Render | src/renderer.rs:70-81 | the loop leaves the pixel array equal to the tasks applied in order |

## Left out

- IEEE-754 behaviour is not modelled: rounding, NaN, infinities as values, and division by zero.
  Real division requires a non-zero divisor, so `Div`, `DivScalar` and `ScalarDiv` require
  non-zero divisors.
- The sphere with a zero ray direction is not modelled as a division. In f64 both roots are
  `0/0 = NaN`, and no interval surrounds NaN, so the model returns no hit without dividing.
- `sqrt` is abstract. Facts about lengths hold only for `sqrt` functions satisfying
  `SquareRoot.IsSqrt`.
- Vec3Math.UnitLength, Vec2Math.UnitLength, Vec3Math.NormalizedBounds,
  BgSkyMat.EmissionBounds: these require a non-zero length. A zero vector normalizes to itself,
  which is stated on `Normalized` and `ZeroLength`. A vector whose length is zero but whose
  components are not all known to be zero is not covered. Deriving zero components from a zero
  sum of squares is nonlinear arithmetic that the solver does not complete here.
- `Vec3::random` and `random_unit` are not modelled; their values are parameters. The same
  holds for the jitter of `RayCollection::next` and the bounce draws of `ray_color`.
- The camera geometry is not modelled: `RayCollection::new`'s basis vectors, focal length via
  `tan`, `origin` and `uvdir`. `origin` and `uvdir` are given to the constructor.
- The `u32` arithmetic is not modelled as wrap-around. Pixel counts and byte indices are
  required to stay below 2^32.
- `STDrivenRenderer::submit` is an empty stub, so no accumulation or averaging is modelled.
  The `spp` and `max_depth` fields of its config are stored only.
- `Image::save_as`, the image saver, the configuration loader and `main` are not modelled.
  They are file I/O and third-party library calls.
- The multi-threaded and GPU backends are configuration values only; they have no
  implementation.
- src/core/renderer.rs is not modelled separately; it repeats `render` and `get_background`
  of src/renderer.rs.
- The doc comments at src/core/hittable.rs:16 and src/core/material.rs:8-10 claim the normal
  points along the ray. The model follows the code (src/prefabs.rs:40-43), which makes it
  oppose the ray.
- Progress and debug output selected by `DebugLevel` are not modelled.
