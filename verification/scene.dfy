/**
  The entities of a scene: materials, walls (the `LineSegment` class),
  rays, nearest hits and the coloured segments a trace emits.
 */
module Scene {
  import opened Geometry

  /** An RGBA 4-tuple; after repeated bounces the channels leave 0..255. */
  datatype Color = Color(r: real, g: real, b: real, a: real)

  /**
    The `Material` class without its refractive-index function, which is
    stored but never called.
   */
  datatype Material = Material(reflectivity: real, absorption: real, color: Color)

  /** Every wall gets reflectivity 1 and absorption 0.5. */
  const WallReflectivity: real := 1.0
  const WallAbsorption: real := 0.5

  /**
    A `LineSegment`: two end points, the normal computed once at
    construction and its material.
   */
  datatype Wall = Wall(start: Point, end: Point, normal: Vector, material: Material)

  /**
    A ray: origin, direction, the colour it carries and the bounce level it
    was created at (0 for rays from the light source).
   */
  datatype Ray = Ray(origin: Point, direction: Vector, color: Color, bounceLevel: int)

  /** The pair `[closestPoint, closestObj]` a cast returns when it hits. */
  datatype Hit = Hit(point: Point, wall: Wall)

  /** The `{start, end, color}` record the segment-collecting trace emits. */
  datatype Segment = Segment(start: Point, end: Point, color: Color)

  /**
    `length` is `Math.hypot(v.dx, v.dy)`, stated instead of computed: the
    non-negative square root of `v . v`, which is positive exactly when `v`
    is not the zero vector.
   */
  ghost predicate IsLength(v: Vector, length: real)
  {
    && length >= 0.0
    && length * length == Dot(v, v)
    && (v != Vector(0.0, 0.0) ==> length > 0.0)
  }

  /**
    `LineSegment.calculateNormal`: the direction `(-dy, dx)` normalised,
    where `length` is what `Math.hypot` returns for it. For coincident end
    points the source divides zero by zero and stores a NaN normal; the
    model stores the zero vector there. No ray ever hits such a wall (see
    `Intersection.Intersect`), so that normal is never read.
   */
  function CalculateNormal(start: Point, end: Point, length: real): (n: Vector)
    requires IsLength(Sub(end, start), length)
    ensures start != end ==> Unit(n) && Dot(n, Sub(end, start)) == 0.0
    ensures start == end <==> n == Vector(0.0, 0.0)
  {
    var p := Perp(Sub(end, start));
    if start == end then
      Vector(0.0, 0.0)
    else
      var n := Normalize(p, length);
      PerpOfParallel(n, p, Sub(end, start));
      n
  }

  /** A vector parallel to the perpendicular of `v` is itself perpendicular to `v`. */
  lemma PerpOfParallel(n: Vector, p: Vector, v: Vector)
    requires p == Perp(v) && Cross(n, p) == 0.0
    ensures Dot(n, v) == 0.0
  {
    assert Dot(n, v) == Cross(n, p);
  }

  /** A wall whose normal is a unit vector perpendicular to it. */
  ghost predicate WellFormed(w: Wall)
  {
    w.start != w.end && Unit(w.normal) && Dot(w.normal, Sub(w.end, w.start)) == 0.0
  }

  /**
    The `LineSegment` constructor: the normal is computed from the end
    points and the material has reflectivity 1 and absorption 0.5.
   */
  function MakeWall(start: Point, end: Point, color: Color, length: real): (w: Wall)
    requires IsLength(Sub(end, start), length)
    ensures w.start == start && w.end == end && w.material.color == color
    ensures w.material.absorption == WallAbsorption && w.material.reflectivity == WallReflectivity
    ensures start != end ==> WellFormed(w)
  {
    Wall(start, end, CalculateNormal(start, end, length), Material(WallReflectivity, WallAbsorption, color))
  }

  /**
    The `Ray` constructor: the direction is normalised (`length` is its
    `Math.hypot`, which must not be zero).
   */
  function MakeRay(origin: Point, direction: Vector, color: Color, bounceLevel: int, length: real): (ray: Ray)
    requires direction != Vector(0.0, 0.0) && IsLength(direction, length)
    ensures Unit(ray.direction)
    ensures Cross(ray.direction, direction) == 0.0 && Dot(ray.direction, direction) > 0.0
    ensures ray.origin == origin && ray.color == color && ray.bounceLevel == bounceLevel
  {
    Ray(origin, Normalize(direction, length), color, bounceLevel)
  }
}
