/** The scene: the entities and the background material (src/core/scene.rs, with the entity
    record of src/core/entity.rs). */
module Scenes {
  import opened Options
  import opened Intervals
  import opened Vec3Math
  import opened Rays
  import opened Spheres
  import opened Materials

  /** A surface: its material and its shape. */
  datatype Entity = Entity(mat: Material, mesh: Sphere)

  class Scene {
    var entities: seq<Entity>
    var background: Material

    /** `Scene::new`: no entities yet, and the given background. */
    constructor (background: Material)
      ensures entities == [] && this.background == background
    {
      entities := [];
      this.background := background;
    }

    /** `Scene::add`: append the entity after all earlier ones; the background is unchanged. */
    method Add(entity: Entity)
      modifies this
      ensures entities == old(entities) + [entity]
      ensures background == old(background)
    {
      entities := entities + [entity];
    }
  }

  /** The hit of entity `e`'s shape, if any: strictly inside the limit, on the ray, and with
      the normal facing the ray. */
  function EntityHit(e: Entity, ray: Ray, limit: Interval, sqrt: real -> real): (r: Option<HittingInfo>)
    ensures r.Some? ==> Surrounds(limit, r.value.step)
    ensures r.Some? ==> r.value.position == Position(ray, r.value.step)
    ensures r.Some? ==> Dot(r.value.normal, ray.dir) <= 0.0
  {
    Hit(e.mesh, ray, limit, sqrt)
  }

  /** Each entity's hit, in entity order. */
  function Hits(ray: Ray, entities: seq<Entity>, limit: Interval, sqrt: real -> real)
    : (hits: seq<Option<HittingInfo>>)
    ensures |hits| == |entities|
    ensures forall i :: 0 <= i < |entities| ==> hits[i] == EntityHit(entities[i], ray, limit, sqrt)
  {
    seq(|entities|, i requires 0 <= i < |entities| => EntityHit(entities[i], ray, limit, sqrt))
  }

  /** The index of the closest hit, scanning in order and replacing the current best only on a
      strictly smaller step. */
  function ClosestIndex(hits: seq<Option<HittingInfo>>): (k: Option<nat>)
    ensures k.Some? ==> k.value < |hits| && hits[k.value].Some?
    decreases |hits|
  {
    if |hits| == 0 then None
    else
      var n := |hits| - 1;
      var best := ClosestIndex(hits[..n]);
      if hits[n].None? then best
      else if best.None? || hits[n].value.step < hits[best.value].value.step then Some(n)
      else best
  }

  /** One more hit considered: it takes over exactly when it is a hit strictly closer than the
      closest so far. */
  lemma ClosestIndexStep(hits: seq<Option<HittingInfo>>, i: nat)
    requires i < |hits|
    ensures var best := ClosestIndex(hits[..i]);
      ClosestIndex(hits[..i + 1]) ==
        if hits[i].Some? && (best.None? || hits[i].value.step < hits[best.value].value.step) then Some(i)
        else best
  {
    assert hits[..i + 1][..i] == hits[..i];
  }

  /** Scene-level hit: the closest entity hit together with that entity's material. */
  function ClosestHit(ray: Ray, entities: seq<Entity>, limit: Interval, sqrt: real -> real)
    : (r: Option<(HittingInfo, Material)>)
    ensures r.Some? ==> Surrounds(limit, r.value.0.step)
    ensures r.Some? ==> exists k :: 0 <= k < |entities| && entities[k].mat == r.value.1
  {
    var hits := Hits(ray, entities, limit, sqrt);
    match ClosestIndex(hits)
    case None => None
    case Some(k) => Some((hits[k].value, entities[k].mat))
  }

  /** There is no closest hit exactly when nothing is hit. */
  lemma {:induction false} ClosestIndexNoneIff(hits: seq<Option<HittingInfo>>)
    ensures ClosestIndex(hits).None? <==> forall i :: 0 <= i < |hits| ==> hits[i].None?
    decreases |hits|
  {
    if |hits| > 0 {
      var n := |hits| - 1;
      ClosestIndexNoneIff(hits[..n]);
      assert forall i :: 0 <= i < n ==> hits[..n][i] == hits[i];
    }
  }

  /** The closest index is a minimum over all hits, and strictly below every earlier hit, so
      on ties the lowest index wins. */
  lemma {:induction false} ClosestIndexIsEarliestMinimum(hits: seq<Option<HittingInfo>>)
    requires ClosestIndex(hits).Some?
    ensures var k := ClosestIndex(hits).value;
      (forall j :: 0 <= j < |hits| && hits[j].Some? ==> hits[k].value.step <= hits[j].value.step) &&
      (forall j :: 0 <= j < k && hits[j].Some? ==> hits[k].value.step < hits[j].value.step)
    decreases |hits|
  {
    var n := |hits| - 1;
    var prefix := hits[..n];
    assert forall i :: 0 <= i < n ==> prefix[i] == hits[i];
    var best := ClosestIndex(prefix);
    if best.None? {
      ClosestIndexNoneIff(prefix);
    } else {
      ClosestIndexIsEarliestMinimum(prefix);
    }
  }

  /** Scene level: no hit exactly when no entity is hit; otherwise the hit is some entity's own
      hit with its material, at the smallest step, and the earliest such entity. */
  lemma ClosestHitSpec(ray: Ray, entities: seq<Entity>, limit: Interval, sqrt: real -> real)
    ensures var r := ClosestHit(ray, entities, limit, sqrt);
      r.None? <==> forall i :: 0 <= i < |entities| ==> EntityHit(entities[i], ray, limit, sqrt).None?
    ensures var r := ClosestHit(ray, entities, limit, sqrt);
      r.Some? ==>
        exists k :: (0 <= k < |entities| &&
          EntityHit(entities[k], ray, limit, sqrt) == Some(r.value.0) && entities[k].mat == r.value.1 &&
          (forall j :: 0 <= j < |entities| && EntityHit(entities[j], ray, limit, sqrt).Some? ==>
             r.value.0.step <= EntityHit(entities[j], ray, limit, sqrt).value.step) &&
          (forall j :: 0 <= j < k && EntityHit(entities[j], ray, limit, sqrt).Some? ==>
             r.value.0.step < EntityHit(entities[j], ray, limit, sqrt).value.step))
  {
    var hits := Hits(ray, entities, limit, sqrt);
    ClosestIndexNoneIff(hits);
    if ClosestIndex(hits).Some? {
      ClosestIndexIsEarliestMinimum(hits);
    }
  }
}
