/**
  Ray/wall intersection: `LineSegment.intersect`, identical in both source
  files, and the alternative Cramer-rule solver inside the worker's
  `Ray.cast`.

  A ray is `origin + direction * t` for `t >= 0`; a wall is
  `start + (end - start) * s` for `0 <= s <= 1`. Both solvers find the `t`
  and `s` of the crossing point by solving that 2x2 linear system.
 */
module Intersection {
  import opened Wrappers
  import opened Geometry
  import opened Scene
  import opened Selection

  /** Below this absolute denominator `intersect` treats ray and wall as parallel. */
  const ParallelEpsilon: real := 0.00000001

  function Abs(x: real): real
  {
    if x < 0.0 then -x else x
  }

  /** The point at parameter `t` along the ray. */
  function At(ray: Ray, t: real): Point
  {
    Translate(ray.origin, Scale(ray.direction, t))
  }

  /** The point at fraction `s` of the way from the wall's start to its end. */
  function Lerp(w: Wall, s: real): Point
  {
    Translate(w.start, Scale(Sub(w.end, w.start), s))
  }

  ghost predicate OnRay(ray: Ray, p: Point, t: real)
  {
    t >= 0.0 && p == At(ray, t)
  }

  ghost predicate OnWall(w: Wall, p: Point, s: real)
  {
    0.0 <= s <= 1.0 && p == Lerp(w, s)
  }

  /** `v2 . v3` of `intersect`: the wall vector against the ray's perpendicular. */
  function Denominator(w: Wall, ray: Ray): real
  {
    Dot(Sub(w.end, w.start), Perp(ray.direction))
  }

  /** `t1` of `intersect`: how far along the ray the crossing lies. */
  function RayParam(w: Wall, ray: Ray): real
    requires Denominator(w, ray) != 0.0
  {
    Cross(Sub(w.end, w.start), Sub(ray.origin, w.start)) / Denominator(w, ray)
  }

  /** `t2` of `intersect`: at which fraction of the wall the crossing lies. */
  function WallParam(w: Wall, ray: Ray): real
    requires Denominator(w, ray) != 0.0
  {
    Dot(Sub(ray.origin, w.start), Perp(ray.direction)) / Denominator(w, ray)
  }

  /**
    `LineSegment.intersect`. Nearly parallel rays never hit; otherwise the
    result is the crossing point when it lies in front of the ray (`t1 >= 0`)
    and on the closed wall (`0 <= t2 <= 1`), with no slack at either end.
   */
  function Intersect(w: Wall, ray: Ray): (r: Option<Point>)
    ensures Abs(Denominator(w, ray)) < ParallelEpsilon ==> r.None?
    ensures w.start == w.end ==> r.None?
    ensures r.Some? ==> OnRay(ray, r.value, RayParam(w, ray)) && OnWall(w, r.value, WallParam(w, ray))
  {
    var v1 := Sub(ray.origin, w.start);
    var v2 := Sub(w.end, w.start);
    var v3 := Perp(ray.direction);
    var den := Dot(v2, v3);
    if Abs(den) < ParallelEpsilon then
      None
    else
      var t1 := Cross(v2, v1) / den;
      var t2 := Dot(v1, v3) / den;
      if t1 >= 0.0 && t2 >= 0.0 && t2 <= 1.0 then
        CrossingOnBoth(w, ray);
        Some(At(ray, t1))
      else
        None
  }

  /** `a * k == b * k` with `k` non-zero gives `a == b`. */
  lemma Cancel(a: real, b: real, k: real)
    requires k != 0.0 && a * k == b * k
    ensures a == b
  {
    assert (a - b) * k == 0.0;
  }

  /**
    Cramer's rule for `b == a * s - d * t`: with `D = a . perp(d)`, the
    solution is `t = (a x b) / D` and `s = (b . perp(d)) / D`.
   */
  lemma CramerSolves(a: Vector, b: Vector, d: Vector, t: real, s: real)
    requires Dot(a, Perp(d)) != 0.0
    requires t * Dot(a, Perp(d)) == Cross(a, b)
    requires s * Dot(a, Perp(d)) == Dot(b, Perp(d))
    ensures b.dx == s * a.dx - t * d.dx && b.dy == s * a.dy - t * d.dy
  {
    var den := Dot(a, Perp(d));
    assert den * b.dx == Dot(b, Perp(d)) * a.dx - Cross(a, b) * d.dx;
    assert den * b.dy == Dot(b, Perp(d)) * a.dy - Cross(a, b) * d.dy;
    assert (s * a.dx - t * d.dx) * den == s * den * a.dx - t * den * d.dx;
    assert (s * a.dy - t * d.dy) * den == s * den * a.dy - t * den * d.dy;
    Cancel(b.dx, s * a.dx - t * d.dx, den);
    Cancel(b.dy, s * a.dy - t * d.dy, den);
  }

  /** The crossing computed by `intersect` lies both on the ray and on the wall's line. */
  lemma CrossingOnBoth(w: Wall, ray: Ray)
    requires Denominator(w, ray) != 0.0
    ensures At(ray, RayParam(w, ray)) == Lerp(w, WallParam(w, ray))
  {
    var a, b, d := Sub(w.end, w.start), Sub(ray.origin, w.start), ray.direction;
    var t, s := RayParam(w, ray), WallParam(w, ray);
    assert t * Dot(a, Perp(d)) == Cross(a, b);
    assert s * Dot(a, Perp(d)) == Dot(b, Perp(d));
    CramerSolves(a, b, d, t, s);
  }

  /**
    Conversely, a point on the ray at `t >= 0` and on the closed wall at
    `0 <= s <= 1` is found by `intersect`, with exactly those parameters,
    whenever ray and wall are not nearly parallel. With the contract of
    `Intersect` this makes its result exactly the common point of ray and
    wall.
   */
  lemma IntersectComplete(w: Wall, ray: Ray, p: Point, t: real, s: real)
    requires Abs(Denominator(w, ray)) >= ParallelEpsilon
    requires OnRay(ray, p, t) && OnWall(w, p, s)
    ensures RayParam(w, ray) == t && WallParam(w, ray) == s
    ensures Intersect(w, ray) == Some(p)
  {
    ParamsOfCommonPoint(w, ray, p, t, s);
    IntersectInRange(w, ray);
  }

  /**
    The parameters `intersect` computes are the true ones: a point on the
    ray's line at `t` and on the wall's line at `s` gives back `t` and `s`.
   */
  lemma ParamsOfCommonPoint(w: Wall, ray: Ray, p: Point, t: real, s: real)
    requires Denominator(w, ray) != 0.0
    requires p == At(ray, t) && p == Lerp(w, s)
    ensures RayParam(w, ray) == t && WallParam(w, ray) == s
  {
    var a, b, d := Sub(w.end, w.start), Sub(ray.origin, w.start), ray.direction;
    var den := Denominator(w, ray);
    OffsetOfCommonPoint(w, ray, p, t, s);
    CramerUnique(a, b, d, t, s);
    DivideBack(Cross(a, b), den, t);
    DivideBack(Dot(b, Perp(d)), den, s);
  }

  /** When both parameters are in range `intersect` returns the point at the ray parameter. */
  lemma IntersectInRange(w: Wall, ray: Ray)
    requires Abs(Denominator(w, ray)) >= ParallelEpsilon
    requires RayParam(w, ray) >= 0.0 && 0.0 <= WallParam(w, ray) <= 1.0
    ensures Intersect(w, ray) == Some(At(ray, RayParam(w, ray)))
  {
  }

  /** A crossing behind the ray's origin is no hit. */
  lemma IntersectBehind(w: Wall, ray: Ray)
    requires Abs(Denominator(w, ray)) >= ParallelEpsilon
    requires RayParam(w, ray) < 0.0
    ensures Intersect(w, ray) == None
  {
  }

  /** A point on both lines puts the ray's origin at `a * s - d * t` from the wall's start. */
  lemma OffsetOfCommonPoint(w: Wall, ray: Ray, p: Point, t: real, s: real)
    requires p == At(ray, t) && p == Lerp(w, s)
    ensures var a, b, d := Sub(w.end, w.start), Sub(ray.origin, w.start), ray.direction;
      b.dx == s * a.dx - t * d.dx && b.dy == s * a.dy - t * d.dy
  {
    assert p.x == ray.origin.x + ray.direction.dx * t;
    assert p.x == w.start.x + (w.end.x - w.start.x) * s;
    assert p.y == ray.origin.y + ray.direction.dy * t;
    assert p.y == w.start.y + (w.end.y - w.start.y) * s;
  }

  /** A solution of `b == a * s - d * t` satisfies the two Cramer equations. */
  lemma CramerUnique(a: Vector, b: Vector, d: Vector, t: real, s: real)
    requires b.dx == s * a.dx - t * d.dx && b.dy == s * a.dy - t * d.dy
    ensures Cross(a, b) == t * Dot(a, Perp(d))
    ensures Dot(b, Perp(d)) == s * Dot(a, Perp(d))
  {
  }

  /** `x == q * k` with `k` non-zero gives `x / k == q`. */
  lemma DivideBack(x: real, k: real, q: real)
    requires k != 0.0 && x == q * k
    ensures x / k == q
  {
  }

  // ---------------------------------------------------------------------
  // The worker's `Ray.cast`: Cramer's rule written out on coordinates.
  // ---------------------------------------------------------------------

  /** Below this absolute denominator `cast` skips the wall. */
  const CastEpsilon: real := 0.000001

  /** The two unknowns of `cast`: `t` along the wall and `u` along the ray. */
  datatype Params = Params(t: real, u: real)

  /** `denom` of `cast`. */
  function CastDenominator(ray: Ray, w: Wall): real
  {
    (w.start.x - w.end.x) * ray.direction.dy - (w.start.y - w.end.y) * ray.direction.dx
  }

  /** `t` of `cast`. */
  function CastWallNumerator(ray: Ray, w: Wall): real
  {
    (w.start.x - ray.origin.x) * ray.direction.dy - (w.start.y - ray.origin.y) * ray.direction.dx
  }

  /** The numerator of `u` exactly as `cast` writes it. */
  function CastRayNumeratorAsWritten(ray: Ray, w: Wall): real
  {
    (w.start.x - ray.origin.x) * (w.start.y - w.end.y) - (w.start.y - ray.origin.y) * (w.start.x - w.end.x)
  }

  /** Per-wall solver of `cast` as written: no solution below the guard. */
  function CramerAsWritten(ray: Ray, w: Wall): Option<Params>
  {
    var den := CastDenominator(ray, w);
    if Abs(den) < CastEpsilon then None
    else Some(Params(CastWallNumerator(ray, w) / den, CastRayNumeratorAsWritten(ray, w) / den))
  }

  /**
    Per-wall solver of `cast` with the sign of `u` put right: the ray
    parameter is the negated numerator over the denominator.
   */
  function Cramer(ray: Ray, w: Wall): (r: Option<Params>)
    ensures r.Some? ==> Abs(Denominator(w, ray)) >= CastEpsilon
    ensures r.Some? ==> r.value == Params(WallParam(w, ray), RayParam(w, ray))
    ensures Abs(Denominator(w, ray)) >= CastEpsilon ==> r.Some?
  {
    var den := CastDenominator(ray, w);
    if Abs(den) < CastEpsilon then None
    else
      CramerMatchesIntersect(ray, w);
      Some(Params(CastWallNumerator(ray, w) / den, -CastRayNumeratorAsWritten(ray, w) / den))
  }

  /**
    The coordinates of `cast` compute the same denominator as `intersect`,
    the same wall parameter, and the NEGATED ray parameter.
   */
  lemma CramerMatchesIntersect(ray: Ray, w: Wall)
    ensures CastDenominator(ray, w) == Denominator(w, ray)
    ensures CastDenominator(ray, w) != 0.0 ==>
      && CastWallNumerator(ray, w) / CastDenominator(ray, w) == WallParam(w, ray)
      && -CastRayNumeratorAsWritten(ray, w) / CastDenominator(ray, w) == RayParam(w, ray)
  {
    var a, b := Sub(w.end, w.start), Sub(ray.origin, w.start);
    assert CastWallNumerator(ray, w) == Dot(b, Perp(ray.direction));
    assert -CastRayNumeratorAsWritten(ray, w) == Cross(a, b);
  }

  /** Away from parallel, the corrected solver returns the parameters of `intersect`. */
  lemma CramerSolution(ray: Ray, w: Wall)
    requires Abs(Denominator(w, ray)) >= CastEpsilon
    ensures Cramer(ray, w) == Some(Params(WallParam(w, ray), RayParam(w, ray)))
  {
  }

  /**
    What `cast` as written returns for one wall: its `u` is minus the
    distance along the ray, so it is the mirror image of the true
    parameter.
   */
  lemma CramerAsWrittenNegatesRayParam(ray: Ray, w: Wall)
    ensures CramerAsWritten(ray, w).Some? <==> Cramer(ray, w).Some?
    ensures Cramer(ray, w).Some? ==>
      CramerAsWritten(ray, w).value == Params(Cramer(ray, w).value.t, -Cramer(ray, w).value.u)
  {
    CramerMatchesIntersect(ray, w);
  }

  /** A solution `cast` can take at all: on the closed wall and strictly in front of the ray. */
  predicate Admissible(solve: (Ray, Wall) -> Option<Params>, ray: Ray, w: Wall)
  {
    match solve(ray, w)
    case Some(p) => 0.0 <= p.t <= 1.0 && 0.0 < p.u
    case None => false
  }

  /** The ray parameter of a solution. */
  function ParamU(solve: (Ray, Wall) -> Option<Params>, ray: Ray, w: Wall): real
  {
    match solve(ray, w)
    case Some(p) => p.u
    case None => 0.0
  }

  /** A solution `cast` takes against the running `closestDist`. */
  predicate Accepts(solve: (Ray, Wall) -> Option<Params>, ray: Ray, w: Wall, bound: real)
  {
    Admissible(solve, ray, w) && ParamU(solve, ray, w) < bound
  }

  /** The key the scan of `cast` compares: the ray parameter of an admissible solution. */
  function CastKey(solve: (Ray, Wall) -> Option<Params>, ray: Ray, w: Wall): Option<real>
  {
    if Admissible(solve, ray, w) then Some(ParamU(solve, ray, w)) else None
  }

  /** The keys of all walls, in order. */
  function CastKeys(solve: (Ray, Wall) -> Option<Params>, ray: Ray, walls: seq<Wall>): seq<Option<real>>
  {
    seq(|walls|, i requires 0 <= i < |walls| => CastKey(solve, ray, walls[i]))
  }

  /**
    The loop of `cast`: `closestDist` starts at `maxDist` and only a
    strictly smaller admissible `u` replaces the current best, so the wall
    chosen has the smallest accepted `u`, and it is the first of several
    equally close walls.
   */
  function ClosestIndex(solve: (Ray, Wall) -> Option<Params>, ray: Ray, walls: seq<Wall>, maxDist: real): (r: Option<nat>)
    ensures r.Some? ==> r.value < |walls| && Accepts(solve, ray, walls[r.value], maxDist)
    ensures r.None? <==> forall i :: 0 <= i < |walls| ==> !Accepts(solve, ray, walls[i], maxDist)
    ensures r.Some? ==> forall i :: 0 <= i < |walls| && Accepts(solve, ray, walls[i], maxDist) ==>
      ParamU(solve, ray, walls[r.value]) <= ParamU(solve, ray, walls[i])
    ensures r.Some? ==> forall i :: 0 <= i < r.value && Accepts(solve, ray, walls[i], maxDist) ==>
      ParamU(solve, ray, walls[r.value]) < ParamU(solve, ray, walls[i])
  {
    var keys := CastKeys(solve, ray, walls);
    var r := FirstMin(keys, Some(maxDist));
    assert forall i :: 0 <= i < |walls| ==> (Below(keys[i], Some(maxDist)) <==> Accepts(solve, ray, walls[i], maxDist));
    r
  }

  /** `Ray.cast` for a given per-wall solver: the closest accepted hit, or nothing. */
  function CastWith(solve: (Ray, Wall) -> Option<Params>, ray: Ray, walls: seq<Wall>, maxDist: real): Option<Hit>
  {
    match ClosestIndex(solve, ray, walls, maxDist)
    case Some(i) => Some(Hit(At(ray, ParamU(solve, ray, walls[i])), walls[i]))
    case None => None
  }

  /**
    `Ray.cast` exactly as the worker writes it: the returned point is
    `origin + direction * u` for the smallest accepted `u` below `maxDist`,
    but `u` has the wrong sign (see `CastAsWrittenHitsBehind`).
   */
  function CastAsWritten(ray: Ray, walls: seq<Wall>, maxDist: real): (r: Option<Hit>)
    ensures r.Some? ==> exists i :: (
      && 0 <= i < |walls| && walls[i] == r.value.wall
      && Accepts(CramerAsWritten, ray, walls[i], maxDist)
      && r.value.point == At(ray, ParamU(CramerAsWritten, ray, walls[i]))
      && (forall j :: 0 <= j < |walls| && Accepts(CramerAsWritten, ray, walls[j], maxDist) ==>
            ParamU(CramerAsWritten, ray, walls[i]) <= ParamU(CramerAsWritten, ray, walls[j])))
    ensures r.None? <==> forall i :: 0 <= i < |walls| ==> !Accepts(CramerAsWritten, ray, walls[i], maxDist)
  {
    CastWith(CramerAsWritten, ray, walls, maxDist)
  }

  /**
    `Ray.cast` with the sign of `u` corrected: the returned point is where
    the ray, in front of its origin and closer than `maxDist`, first crosses
    a wall, and it lies on that wall.
   */
  function Cast(ray: Ray, walls: seq<Wall>, maxDist: real): (r: Option<Hit>)
    ensures r.Some? ==> exists i :: (
      && 0 <= i < |walls| && walls[i] == r.value.wall
      && Accepts(Cramer, ray, walls[i], maxDist)
      && r.value.point == At(ray, ParamU(Cramer, ray, walls[i]))
      && OnWall(walls[i], r.value.point, Cramer(ray, walls[i]).value.t)
      && (forall j :: 0 <= j < |walls| && Accepts(Cramer, ray, walls[j], maxDist) ==>
            ParamU(Cramer, ray, walls[i]) <= ParamU(Cramer, ray, walls[j])))
    ensures r.None? <==> forall i :: 0 <= i < |walls| ==> !Accepts(Cramer, ray, walls[i], maxDist)
  {
    var r := CastWith(Cramer, ray, walls, maxDist);
    if r.Some? then
      var i := ClosestIndex(Cramer, ray, walls, maxDist).value;
      CrossingOnBoth(walls[i], ray);
      r
    else
      r
  }

  /** `cast` over a single wall: that wall's accepted solution, or nothing. */
  lemma CastWithSingle(solve: (Ray, Wall) -> Option<Params>, ray: Ray, w: Wall, maxDist: real)
    ensures CastWith(solve, ray, [w], maxDist) ==
      if Accepts(solve, ray, w, maxDist) then Some(Hit(At(ray, ParamU(solve, ray, w)), w)) else None
  {
    FirstMinStep([], CastKey(solve, ray, w), Some(maxDist));
    assert [] + [CastKey(solve, ray, w)] == CastKeys(solve, ray, [w]);
  }

  /** A white ray from the origin along the x axis. */
  function ProbeRay(): Ray
  {
    Ray(Point(0.0, 0.0), Vector(1.0, 0.0), Color(255.0, 255.0, 255.0, 1.0), 0)
  }

  /** A vertical wall crossing the x axis at `x`. */
  function VerticalWall(x: real): Wall
  {
    Wall(Point(x, -1.0), Point(x, 1.0), Vector(-1.0, 0.0), Material(WallReflectivity, WallAbsorption, Color(255.0, 0.0, 0.0, 1.0)))
  }

  /** The probe ray at parameter `t` is the point `(t, 0)`. */
  lemma ProbeAt(t: real)
    ensures At(ProbeRay(), t) == Point(t, 0.0)
  {
  }

  /** The vertical wall at `x`, at fraction `s`, is the point `(x, 2 s - 1)`. */
  lemma VerticalLerp(x: real, s: real)
    ensures Lerp(VerticalWall(x), s) == Point(x, 2.0 * s - 1.0)
  {
  }

  /** Every vertical wall meets the probe ray with denominator 2. */
  lemma ProbeDenominator(x: real)
    ensures Denominator(VerticalWall(x), ProbeRay()) == 2.0
  {
    var ray, w := ProbeRay(), VerticalWall(x);
    var a, p := Sub(w.end, w.start), Perp(ray.direction);
    assert a == Vector(0.0, 2.0);
    assert p == Vector(-0.0, 1.0);
    assert Dot(a, p) == 2.0;
  }

  /**
    The probe ray crosses the line of the vertical wall at `x` at distance
    `x` along the ray and in the middle of the wall.
   */
  lemma ProbeCrossing(x: real)
    ensures RayParam(VerticalWall(x), ProbeRay()) == x && WallParam(VerticalWall(x), ProbeRay()) == 0.5
  {
    ProbeDenominator(x);
    ProbeAt(x);
    VerticalLerp(x, 0.5);
    ParamsOfCommonPoint(VerticalWall(x), ProbeRay(), Point(x, 0.0), x, 0.5);
  }

  /**
    So both solvers find a solution for the probe; the one of `cast` as
    written has the distance negated.
   */
  lemma ProbeParams(x: real)
    ensures RayParam(VerticalWall(x), ProbeRay()) == x && WallParam(VerticalWall(x), ProbeRay()) == 0.5
    ensures Cramer(ProbeRay(), VerticalWall(x)) == Some(Params(0.5, x))
  {
    ProbeDenominator(x);
    ProbeCrossing(x);
    CramerSolution(ProbeRay(), VerticalWall(x));
  }

  /** `cast` as written solves the probe against the vertical wall at `x` with `u = -x`. */
  lemma ProbeParamsAsWritten(x: real)
    ensures CramerAsWritten(ProbeRay(), VerticalWall(x)) == Some(Params(0.5, -x))
  {
    ProbeParams(x);
    CramerAsWrittenNegatesRayParam(ProbeRay(), VerticalWall(x));
  }

  /**
    A wall straight ahead of the ray at distance `x` (the crossing
    `intersect` computes lies at ray parameter `x > 0`, mid-wall) is missed
    by `cast` as written, while the corrected `Cast` finds it at `(x, 0)`.
   */
  lemma CastAsWrittenMissesWallAhead(x: real, maxDist: real)
    requires 0.0 < x < maxDist
    ensures RayParam(VerticalWall(x), ProbeRay()) == x && WallParam(VerticalWall(x), ProbeRay()) == 0.5
    ensures CastAsWritten(ProbeRay(), [VerticalWall(x)], maxDist) == None
    ensures Cast(ProbeRay(), [VerticalWall(x)], maxDist) == Some(Hit(Point(x, 0.0), VerticalWall(x)))
  {
    var ray, w := ProbeRay(), VerticalWall(x);
    ProbeParams(x);
    ProbeParamsAsWritten(x);
    CastWithSingle(CramerAsWritten, ray, w, maxDist);
    ProbeAt(x);
    CastWithSingle(Cramer, ray, w, maxDist);
  }

  /**
    A wall behind the ray at distance `-x` (the crossing lies at ray
    parameter `x < 0`, so `intersect` rejects it) is reported by `cast` as
    written, at the mirrored point `(-x, 0)` that is not on that wall; the
    corrected `Cast` reports nothing.
   */
  lemma CastAsWrittenHitsBehind(x: real, maxDist: real)
    requires 0.0 < -x < maxDist
    ensures RayParam(VerticalWall(x), ProbeRay()) == x
    ensures CastAsWritten(ProbeRay(), [VerticalWall(x)], maxDist) == Some(Hit(Point(-x, 0.0), VerticalWall(x)))
    ensures forall s :: Lerp(VerticalWall(x), s) != Point(-x, 0.0)
    ensures Cast(ProbeRay(), [VerticalWall(x)], maxDist) == None
  {
    var ray, w := ProbeRay(), VerticalWall(x);
    ProbeParams(x);
    ProbeParamsAsWritten(x);
    CastWithSingle(CramerAsWritten, ray, w, maxDist);
    ProbeAt(-x);
    CastWithSingle(Cramer, ray, w, maxDist);
  }
}
