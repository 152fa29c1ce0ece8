/** The debug renderer and its configuration (src/renderer.rs): surfaces are shaded by their
    normal, misses by a sky gradient. */
module Renderers {
  import Options
  import opened Intervals
  import opened Vec3Math
  import opened Rays
  import opened Spheres
  import opened MaterialCore
  import opened Scenes
  import BgSkyMat

  datatype BackendConfig = CPUDrivenS | CPUDrivenM(threads: nat) | GPUDriven

  datatype DebugLevel = Full | Brief | None

  datatype RendererConfig = RendererConfig(backend: BackendConfig, dbgLevel: DebugLevel, spp: nat)

  /** `RendererConfig::default`: single-threaded, fully verbose, 32 samples per pixel. */
  function DefaultConfig(): (c: RendererConfig)
    ensures c.backend.CPUDrivenS? && c.dbgLevel.Full? && c.spp == 32
  {
    RendererConfig(CPUDrivenS, Full, 32)
  }

  datatype Renderer = Renderer(config: RendererConfig)

  /** `Renderer::new` keeps the configuration as given. */
  function NewRenderer(config: RendererConfig): (r: Renderer)
    ensures r.config == config
  {
    Renderer(config)
  }

  /** `get_background`: white blended towards (0.5, 0.7, 1.0) by `a = 0.5 * (unit.y + 1)`. */
  function GetBackground(ray: Ray, sqrt: real -> real): (c: Vec3)
    ensures c.z == 1.0
  {
    var unitDir := Normalized(ray.dir, sqrt);
    var a := 0.5 * (unitDir.y + 1.0);
    Add(ScalarMul(-a + 1.0, FromScalar(1.0)), ScalarMul(a, Vec3(0.5, 0.7, 1.0)))
  }

  /** The debug background is the sky material's emission along the same ray. */
  lemma BackgroundIsSky(ray: Ray, input: MatInput, sqrt: real -> real)
    requires input.incidentRay == ray
    ensures GetBackground(ray, sqrt) == BgSkyMat.Emission(BgSkyMat.BgSky, input, sqrt)
  {
  }

  /** The colour a surface normal is shown as: `(normal + 1) / 2`. */
  function NormalColor(normal: Vec3): (c: Vec3)
    ensures -1.0 <= normal.x <= 1.0 ==> 0.0 <= c.x <= 1.0
    ensures -1.0 <= normal.y <= 1.0 ==> 0.0 <= c.y <= 1.0
    ensures -1.0 <= normal.z <= 1.0 ==> 0.0 <= c.z <= 1.0
  {
    DivScalar(Add(normal, FromScalar(1.0)), 2.0)
  }

  /** The normal can be read back from its colour, so the mapping loses nothing. */
  lemma NormalColorRoundTrip(normal: Vec3)
    ensures SubScalar(MulScalar(NormalColor(normal), 2.0), 1.0) == normal
  {
  }

  /** The hit query of the debug renderer: the open step interval `(0, +inf)`. */
  function RenderLimit(): (i: Interval)
    ensures forall t: real :: Surrounds(i, t) <==> t > 0.0
  {
    Interval(Fin(0.0), PosInf)
  }

  /** The debug colour of one ray: its closest surface's normal colour, or the background. */
  function PixelColor(scene: seq<Entity>, ray: Ray, sqrt: real -> real): (c: Vec3)
    ensures var hit := ClosestHit(ray, scene, RenderLimit(), sqrt);
      hit.Some? ==> c == NormalColor(hit.value.0.normal)
    ensures ClosestHit(ray, scene, RenderLimit(), sqrt).None? ==> c == GetBackground(ray, sqrt)
  {
    var hit := ClosestHit(ray, scene, RenderLimit(), sqrt);
    if hit.Some? then NormalColor(hit.value.0.normal) else GetBackground(ray, sqrt)
  }

  /** One pixel's work: its primary ray and the buffer slot that receives its colour. */
  datatype Task = Task(ray: Ray, index: nat)

  predicate InBuffer(tasks: seq<Task>, size: nat) {
    forall t :: 0 <= t < |tasks| ==> tasks[t].index < size
  }

  /** The buffer after the tasks are processed in order, each overwriting its own slot. */
  function Painted(pixels: seq<Vec3>, tasks: seq<Task>, scene: seq<Entity>, sqrt: real -> real)
    : (r: seq<Vec3>)
    requires InBuffer(tasks, |pixels|)
    ensures |r| == |pixels|
    decreases |tasks|
  {
    if |tasks| == 0 then pixels
    else
      var n := |tasks| - 1;
      var t := tasks[n];
      Painted(pixels, tasks[..n], scene, sqrt)[t.index := PixelColor(scene, t.ray, sqrt)]
  }

  predicate DistinctSlots(tasks: seq<Task>) {
    forall s, t :: 0 <= s < t < |tasks| ==> tasks[s].index != tasks[t].index
  }

  /** When every task has its own slot, each task's slot ends up holding its ray's colour. */
  lemma {:induction false} PaintedDistinct(pixels: seq<Vec3>, tasks: seq<Task>, scene: seq<Entity>,
                                           sqrt: real -> real)
    requires InBuffer(tasks, |pixels|) && DistinctSlots(tasks)
    ensures var r := Painted(pixels, tasks, scene, sqrt);
      forall t :: 0 <= t < |tasks| ==> r[tasks[t].index] == PixelColor(scene, tasks[t].ray, sqrt)
    decreases |tasks|
  {
    if |tasks| > 0 {
      var n := |tasks| - 1;
      var prefix := tasks[..n];
      assert forall t :: 0 <= t < n ==> prefix[t] == tasks[t];
      PaintedDistinct(pixels, prefix, scene, sqrt);
      var last := tasks[n];
      var before := Painted(pixels, prefix, scene, sqrt);
      var r := Painted(pixels, tasks, scene, sqrt);
      assert r == before[last.index := PixelColor(scene, last.ray, sqrt)];
      forall t | 0 <= t < |tasks|
        ensures r[tasks[t].index] == PixelColor(scene, tasks[t].ray, sqrt)
      {
        if t < n {
          assert tasks[t].index != last.index;
          assert r[tasks[t].index] == before[prefix[t].index];
        }
      }
    }
  }

  /** A slot that no task names keeps its old colour. */
  lemma {:induction false} PaintedUntouched(pixels: seq<Vec3>, tasks: seq<Task>, scene: seq<Entity>,
                                            sqrt: real -> real, j: nat)
    requires InBuffer(tasks, |pixels|) && j < |pixels|
    requires forall t :: 0 <= t < |tasks| ==> tasks[t].index != j
    ensures Painted(pixels, tasks, scene, sqrt)[j] == pixels[j]
    decreases |tasks|
  {
    if |tasks| > 0 {
      var n := |tasks| - 1;
      var prefix := tasks[..n];
      assert forall t :: 0 <= t < n ==> prefix[t] == tasks[t];
      PaintedUntouched(pixels, prefix, scene, sqrt, j);
    }
  }

  /** `Renderer::render`: for each task, write the debug colour of its ray into its slot. */
  method Render(scene: Scene, tasks: seq<Task>, pixels: array<Vec3>, sqrt: real -> real)
    requires InBuffer(tasks, pixels.Length)
    modifies pixels
    ensures pixels[..] == Painted(old(pixels[..]), tasks, scene.entities, sqrt)
  {
    for i := 0 to |tasks|
      invariant pixels[..] == Painted(old(pixels[..]), tasks[..i], scene.entities, sqrt)
    {
      assert tasks[..i + 1][..i] == tasks[..i];
      var task := tasks[i];
      pixels[task.index] := PixelColor(scene.entities, task.ray, sqrt);
    }
    assert tasks[..|tasks|] == tasks;
  }
}
