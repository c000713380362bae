/**
  Point and vector algebra of the ray tracer (the `Point` and `Vector`
  classes), over exact reals instead of IEEE doubles.

  `Math.hypot` cannot be computed over the reals, so `Normalize` takes the
  length as a parameter and requires it to be the true Euclidean length.
 */
module Geometry {

  datatype Point = Point(x: real, y: real)

  datatype Vector = Vector(dx: real, dy: real)

  /** Moves a point by a vector (the `p.x + v.dx, p.y + v.dy` pattern of the source). */
  function Translate(p: Point, v: Vector): Point
  {
    Point(p.x + v.dx, p.y + v.dy)
  }

  /** `Point.subtract`: the vector leading from `q` to `p`. */
  function Sub(p: Point, q: Point): (v: Vector)
    ensures Translate(q, v) == p
    ensures v == Vector(0.0, 0.0) <==> p == q
  {
    Vector(p.x - q.x, p.y - q.y)
  }

  /** `Vector.dot`. */
  function Dot(u: Vector, v: Vector): real
  {
    u.dx * v.dx + u.dy * v.dy
  }

  /** `Vector.cross`: the 2D scalar cross product (a determinant). */
  function Cross(u: Vector, v: Vector): real
  {
    u.dx * v.dy - u.dy * v.dx
  }

  /** `Vector.scale`. */
  function Scale(v: Vector, k: real): Vector
  {
    Vector(v.dx * k, v.dy * k)
  }

  /** A scaled vector stays parallel to the original, and its length scales by `|k|`. */
  lemma ScaleParallel(v: Vector, k: real)
    ensures Cross(Scale(v, k), v) == 0.0
    ensures Dot(Scale(v, k), v) == k * Dot(v, v)
    ensures Dot(Scale(v, k), Scale(v, k)) == k * k * Dot(v, v)
  {
  }

  /** The vector `(-dy, dx)`: `v` turned a quarter turn counter-clockwise. */
  function Perp(v: Vector): Vector
  {
    Vector(-v.dy, v.dx)
  }

  ghost predicate Unit(v: Vector)
  {
    Dot(v, v) == 1.0
  }

  /**
    `Vector.reflect`: `d - 2 (d . n) n`. The source assumes `n` is
    normalised; the tangential part is kept for every `n`, the other
    reflection identities need a unit normal.
   */
  function Reflect(d: Vector, n: Vector): (r: Vector)
    ensures Cross(r, n) == Cross(d, n)
    ensures Unit(n) ==> Dot(r, n) == -Dot(d, n)
    ensures Unit(n) ==> Dot(r, r) == Dot(d, d)
  {
    var k := Dot(d, n);
    var r := Vector(d.dx - 2.0 * k * n.dx, d.dy - 2.0 * k * n.dy);
    assert Dot(r, n) == k - 2.0 * k * Dot(n, n);
    assert Dot(r, r) == Dot(d, d) - 4.0 * k * k + 4.0 * k * k * Dot(n, n);
    r
  }

  /** Reflecting twice about the same unit normal gives back the direction. */
  lemma ReflectInvolution(d: Vector, n: Vector)
    requires Unit(n)
    ensures Reflect(Reflect(d, n), n) == d
  {
    var r := Reflect(d, n);
    assert Dot(r, n) == -Dot(d, n);
  }

  /**
    `Vector.normalize`, given the vector's Euclidean length (what
    `Math.hypot` returns). A zero vector has no direction: the source
    divides by zero there, so the length must be positive.
   */
  function Normalize(v: Vector, length: real): (r: Vector)
    requires length > 0.0 && length * length == Dot(v, v)
    ensures Unit(r)
    ensures Cross(r, v) == 0.0 && Dot(r, v) > 0.0
  {
    var r := Vector(v.dx / length, v.dy / length);
    var q := 1.0 / length;
    assert r.dx == v.dx * q && r.dy == v.dy * q;
    assert Dot(r, r) == (q * q) * Dot(v, v);
    assert q * length == 1.0;
    ReciprocalSquare(q, length);
    assert q > 0.0 && Dot(v, v) > 0.0;
    assert Dot(r, v) == q * Dot(v, v);
    r
  }

  /** If `q` is the reciprocal of `l`, then `q^2` is the reciprocal of `l^2`. */
  lemma ReciprocalSquare(q: real, l: real)
    requires q * l == 1.0
    ensures (q * q) * (l * l) == 1.0
  {
    assert (q * q) * (l * l) == (q * l) * (q * l);
  }

  /** Normalising a vector that already has unit length changes nothing. */
  lemma NormalizeUnit(v: Vector)
    requires Unit(v)
    ensures Normalize(v, 1.0) == v
  {
  }
}
