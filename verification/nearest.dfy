/**
  Nearest-hit selection of `Ray.castAndDraw`, the same in both source
  files (the worker passes a canvas stub whose methods do nothing, so only
  the returned pair matters). Drawing and the `maxLength` clamp, which
  only shorten the drawn line, are not modelled.

  The source compares Euclidean distances `Math.hypot(dx, dy)`; the model
  compares their squares, which orders hits the same way, and the
  `dist > 1e-8` cut-off becomes `dist^2 > 1e-16`.
 */
module Nearest {
  import opened Wrappers
  import opened Geometry
  import opened Scene
  import opened Selection
  import opened Intersection

  /** `1e-8` squared: hits this close to the origin are the surface just left. */
  const MinDistSq: real := 0.0000000000000001

  /** The squared Euclidean distance between two points. */
  function DistSq(p: Point, q: Point): real
  {
    Dot(Sub(p, q), Sub(p, q))
  }

  /**
    What `castAndDraw` compares for one wall: the squared distance from the
    ray's origin to the wall's hit point, when there is a hit far enough
    away to count.
   */
  function HitKey(ray: Ray, w: Wall): Option<real>
  {
    match Intersect(w, ray)
    case Some(p) => if DistSq(p, ray.origin) > MinDistSq then Some(DistSq(p, ray.origin)) else None
    case None => None
  }

  /** A wall whose hit counts for the nearest-hit search. */
  predicate Qualifies(ray: Ray, w: Wall)
  {
    HitKey(ray, w).Some?
  }

  /** The keys of all walls, in order. */
  function HitKeys(ray: Ray, walls: seq<Wall>): seq<Option<real>>
  {
    seq(|walls|, i requires 0 <= i < |walls| => HitKey(ray, walls[i]))
  }

  /**
    The index of the wall `castAndDraw` settles on: its hit lies beyond
    `1e-8`, it is at least as close as every other such hit, and strictly
    closer than every such hit before it (the first of equally close walls
    wins). `None` exactly when no wall has a qualifying hit.
   */
  function NearestIndex(ray: Ray, walls: seq<Wall>): (r: Option<nat>)
    ensures r.Some? ==> r.value < |walls| && Qualifies(ray, walls[r.value])
    ensures r.None? <==> forall i :: 0 <= i < |walls| ==> !Qualifies(ray, walls[i])
    ensures r.Some? ==> forall i :: 0 <= i < |walls| && Qualifies(ray, walls[i]) ==>
      HitKey(ray, walls[r.value]).value <= HitKey(ray, walls[i]).value
    ensures r.Some? ==> forall i :: 0 <= i < r.value && Qualifies(ray, walls[i]) ==>
      HitKey(ray, walls[r.value]).value < HitKey(ray, walls[i]).value
  {
    var keys := HitKeys(ray, walls);
    assert forall i :: 0 <= i < |walls| ==> (Below(keys[i], None) <==> Qualifies(ray, walls[i]));
    FirstMin(keys, None)
  }

  /**
    The pair `[closestPoint, closestObj]` as one optional hit: the hit point
    of the nearest qualifying wall, which lies on the ray and on that wall,
    more than `1e-8` from the origin.
   */
  function NearestHit(ray: Ray, walls: seq<Wall>): (r: Option<Hit>)
    ensures r.None? <==> forall i :: 0 <= i < |walls| ==> !Qualifies(ray, walls[i])
    ensures r.Some? ==> exists i :: 0 <= i < |walls| && walls[i] == r.value.wall && Intersect(walls[i], ray) == Some(r.value.point)
    ensures r.Some? ==> DistSq(r.value.point, ray.origin) > MinDistSq
    ensures r.Some? ==> forall i :: 0 <= i < |walls| && Qualifies(ray, walls[i]) ==>
      DistSq(r.value.point, ray.origin) <= HitKey(ray, walls[i]).value
  {
    match NearestIndex(ray, walls)
    case Some(i) => Some(Hit(Intersect(walls[i], ray).value, walls[i]))
    case None => None
  }

  /**
    `castAndDraw` as a loop, with `Infinity` as the absent distance: the
    pair it returns is the nearest hit.
   */
  method CastAndDraw(ray: Ray, walls: seq<Wall>) returns (closestPoint: Option<Point>, closestObj: Option<Wall>)
    ensures closestPoint.Some? <==> closestObj.Some?
    ensures closestPoint.Some? ==> NearestHit(ray, walls) == Some(Hit(closestPoint.value, closestObj.value))
    ensures closestPoint.None? ==> NearestHit(ray, walls) == None
  {
    var closestDist: Option<real> := None;
    closestPoint, closestObj := None, None;
    var i := 0;
    while i < |walls|
      invariant 0 <= i <= |walls|
      invariant NearestIndex(ray, walls[..i]).None? ==> closestDist.None? && closestPoint.None? && closestObj.None?
      invariant NearestIndex(ray, walls[..i]).Some? ==>
        var j := NearestIndex(ray, walls[..i]).value;
        && closestDist == HitKey(ray, walls[j])
        && closestPoint == Intersect(walls[j], ray)
        && closestObj == Some(walls[j])
    {
      NearestStep(ray, walls[..i], walls[i]);
      assert walls[..i + 1] == walls[..i] + [walls[i]];
      var hitPoint := Intersect(walls[i], ray);
      if hitPoint.Some? {
        var dist := DistSq(hitPoint.value, ray.origin);
        if (closestDist.None? || dist < closestDist.value) && dist > MinDistSq {
          closestDist := Some(dist);
          closestPoint := hitPoint;
          closestObj := Some(walls[i]);
        }
      }
      i := i + 1;
    }
    assert walls[..|walls|] == walls;
  }

  /** Scanning one more wall keeps the nearest so far or takes the new wall. */
  lemma NearestStep(ray: Ray, walls: seq<Wall>, w: Wall)
    ensures var prev := NearestIndex(ray, walls);
            var running := if prev.Some? then HitKey(ray, walls[prev.value]) else None;
            NearestIndex(ray, walls + [w]) == if Below(HitKey(ray, w), running) then Some(|walls|) else prev
  {
    assert HitKeys(ray, walls + [w]) == HitKeys(ray, walls) + [HitKey(ray, w)];
    FirstMinStep(HitKeys(ray, walls), HitKey(ray, w), None);
  }
}
