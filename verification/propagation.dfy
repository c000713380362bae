/**
  Bounce-level expansion: `traceRays` in both source files.

  Rays are processed level by level, `bounce = 0 .. maxBounces`. At each
  level every ray of the pool whose `bounceLevel` equals `bounce` is cast;
  a hit yields child rays one level deeper (the specular reflection and the
  diffuse samples, each switched by an option), which are appended to the
  pool after the level. The worker's variant also records one segment per
  hit and always reflects, with no diffuse samples.

  Diffuse directions come from `Math.random` and trigonometry; the model
  takes them from a caller-supplied function `scatter(normal, i)`.
 */
module Propagation {
  import opened Wrappers
  import opened Geometry
  import opened Scene
  import opened Intersection
  import opened Nearest
  import opened Arithmetic

  /**
    The switches of `traceRays`: the reflect checkbox, the diffuse
    ("specular") checkbox and `samples_per_ray`.
   */
  datatype Options = Options(reflect: bool, diffuse: bool, samplesPerRay: int)

  /** The worker always reflects; its diffuse loop runs `i < 0`, never. */
  const WorkerOptions: Options := Options(true, false, 0)

  /** Diffuse children per hit: the loop `i < samples_per_ray` runs no time for a non-positive count. */
  function DiffuseCount(opts: Options): nat
  {
    if opts.diffuse && opts.samplesPerRay > 0 then opts.samplesPerRay else 0
  }

  /** Reflected children per hit: one when the reflect switch is on. */
  function ReflectCount(opts: Options): nat
  {
    if opts.reflect then 1 else 0
  }

  /** Children per hitting ray. */
  function ChildCount(opts: Options): nat
  {
    ReflectCount(opts) + DiffuseCount(opts)
  }

  /** Distance the child origin is pushed off the wall along the facing normal. */
  const NormalOffset: real := 0.0001

  /** Fraction of the light each bounce keeps on top of the wall's absorption. */
  const Attenuation: real := 0.99

  /** One RGB channel of the child colour. */
  function Channel(parent: real, wall: real, absorption: real): real
  {
    parent * (wall / 255.0) * absorption * Attenuation
  }

  /**
    The colour `light` handed to the children of a hit: RGB channels
    filtered by the wall colour, absorption and attenuation; alpha only
    multiplied by the wall's alpha.
   */
  function Light(c: Color, m: Material): Color
  {
    Color(Channel(c.r, m.color.r, m.absorption), Channel(c.g, m.color.g, m.absorption),
          Channel(c.b, m.color.b, m.absorption), c.a * m.color.a)
  }

  /**
    With the absorption every wall gets, a non-negative channel against a
    wall channel in `0..255` keeps at most `0.495` of its value.
   */
  lemma ChannelDecays(parent: real, wall: real)
    requires parent >= 0.0 && 0.0 <= wall <= 255.0
    ensures 0.0 <= Channel(parent, wall, WallAbsorption) <= 0.495 * parent
  {
    var q := wall / 255.0;
    assert 0.0 <= q <= 1.0;
    assert parent * (1.0 - q) >= 0.0;
    assert parent * q <= parent;
    assert Channel(parent, wall, WallAbsorption) == (parent * q) * 0.495;
  }

  /** Every bounce off a wall at least halves the RGB light, and multiplies alpha by the wall's alpha. */
  lemma LightDecays(c: Color, w: Wall)
    requires w.material.absorption == WallAbsorption
    requires c.r >= 0.0 && c.g >= 0.0 && c.b >= 0.0
    requires 0.0 <= w.material.color.r <= 255.0 && 0.0 <= w.material.color.g <= 255.0 && 0.0 <= w.material.color.b <= 255.0
    ensures var l := Light(c, w.material);
      && 0.0 <= l.r <= 0.495 * c.r && 0.0 <= l.g <= 0.495 * c.g && 0.0 <= l.b <= 0.495 * c.b
      && l.a == c.a * w.material.color.a
  {
    ChannelDecays(c.r, w.material.color.r);
    ChannelDecays(c.g, w.material.color.g);
    ChannelDecays(c.b, w.material.color.b);
  }

  /** The wall normal turned to face the incoming ray: flipped when it points along the ray. */
  function FacingNormal(d: Vector, n: Vector): Vector
  {
    if Dot(d, n) > 0.0 then Scale(n, -1.0) else n
  }

  /**
    The facing normal is parallel to the wall normal, keeps its length and
    makes a non-positive dot product with the direction, of the same size
    as the normal's.
   */
  lemma FacingNormalFaces(d: Vector, n: Vector)
    ensures var r := FacingNormal(d, n);
      && Dot(d, r) <= 0.0 && Dot(d, r) == -Abs(Dot(d, n))
      && Cross(r, n) == 0.0
      && Dot(r, r) == Dot(n, n)
  {
    ScaleParallel(n, -1.0);
  }

  /** The child origin: the hit point pushed `0.0001` along the facing normal. */
  function OffsetOrigin(hit: Point, n: Vector): Point
  {
    Translate(hit, Scale(n, NormalOffset))
  }

  /** The child origin lies on the side of the wall the ray came from. */
  lemma OffsetOnIncomingSide(hit: Point, d: Vector, n: Vector)
    ensures Dot(Sub(OffsetOrigin(hit, FacingNormal(d, n)), hit), d) <= 0.0
  {
    var f := FacingNormal(d, n);
    FacingNormalFaces(d, n);
    assert Sub(OffsetOrigin(hit, f), hit) == Scale(f, NormalOffset);
    assert Dot(Scale(f, NormalOffset), d) == NormalOffset * Dot(d, f);
  }

  /**
    Rays from `origin` at `level` in colour `light`: one in direction
    `reflected` when reflection is on, then the diffuse samples.
   */
  function Spawn(origin: Point, n: Vector, reflected: Vector, light: Color, level: int, opts: Options,
                 scatter: (Vector, nat) -> Vector): (cs: seq<Ray>)
    ensures |cs| == ChildCount(opts)
    ensures forall i :: 0 <= i < |cs| ==> cs[i].origin == origin && cs[i].color == light && cs[i].bounceLevel == level
    ensures opts.reflect ==> cs[0].direction == reflected
    ensures forall i :: 0 <= i < DiffuseCount(opts) ==> cs[ReflectCount(opts) + i].direction == scatter(n, i)
  {
    var count := DiffuseCount(opts);
    var diffuse := seq(count, i requires 0 <= i < count => Ray(origin, scatter(n, i), light, level));
    assert forall i :: 0 <= i < count ==> diffuse[i] == Ray(origin, scatter(n, i), light, level);
    if opts.reflect then
      var cs := [Ray(origin, reflected, light, level)] + diffuse;
      assert ReflectCount(opts) == 1;
      assert forall i :: 0 <= i < count ==> cs[ReflectCount(opts) + i] == diffuse[i];
      assert forall i :: 1 <= i < |cs| ==> cs[i] == diffuse[i - 1];
      cs
    else
      assert ReflectCount(opts) == 0;
      assert forall i :: 0 <= i < count ==> diffuse[ReflectCount(opts) + i] == diffuse[i];
      diffuse
  }

  /**
    The rays a hit spawns: the reflected ray first when reflection is on,
    then the diffuse samples; all start at the offset origin, carry the
    colour `light` and sit one level below their parent.
   */
  function Children(ray: Ray, hit: Hit, opts: Options, scatter: (Vector, nat) -> Vector): (cs: seq<Ray>)
    ensures |cs| == ChildCount(opts)
    ensures forall c :: c in cs ==> c.bounceLevel == ray.bounceLevel + 1
  {
    var n := FacingNormal(ray.direction, hit.wall.normal);
    Spawn(OffsetOrigin(hit.point, n), n, Reflect(ray.direction, n), Light(ray.color, hit.wall.material),
          ray.bounceLevel + 1, opts, scatter)
  }

  /**
    The children of a hit start at the offset origin and carry the colour
    `light`; the reflected one comes first when reflection is on, and the
    diffuse samples follow in the scattered directions.
   */
  lemma ChildrenShape(ray: Ray, hit: Hit, opts: Options, scatter: (Vector, nat) -> Vector)
    ensures var cs := Children(ray, hit, opts, scatter);
            var n := FacingNormal(ray.direction, hit.wall.normal);
      && (forall i :: 0 <= i < |cs| ==> cs[i].origin == OffsetOrigin(hit.point, n) && cs[i].color == Light(ray.color, hit.wall.material))
      && (opts.reflect ==> cs[0].direction == Reflect(ray.direction, n))
      && (forall i :: 0 <= i < DiffuseCount(opts) ==> cs[ReflectCount(opts) + i].direction == scatter(n, i))
  {
    var n := FacingNormal(ray.direction, hit.wall.normal);
    var origin, reflected, light := OffsetOrigin(hit.point, n), Reflect(ray.direction, n), Light(ray.color, hit.wall.material);
    var cs := Spawn(origin, n, reflected, light, ray.bounceLevel + 1, opts, scatter);
    assert Children(ray, hit, opts, scatter) == cs;
    assert forall i :: 0 <= i < |cs| ==> cs[i].origin == origin && cs[i].color == light;
  }

  /**
    The reflected child of a unit-direction ray off a well-formed wall has a
    unit direction, so the `Ray` constructor's normalisation leaves it
    unchanged, and it leaves the wall on the side it came from: its
    component along the facing normal is the negated incoming one.
   */
  lemma ReflectedChild(ray: Ray, hit: Hit, opts: Options, scatter: (Vector, nat) -> Vector)
    requires opts.reflect && Unit(ray.direction) && WellFormed(hit.wall)
    ensures var n := FacingNormal(ray.direction, hit.wall.normal);
            var c := Children(ray, hit, opts, scatter)[0];
      && Unit(c.direction)
      && Normalize(c.direction, 1.0) == c.direction
      && Dot(c.direction, n) == -Dot(ray.direction, n) >= 0.0
  {
    var n := FacingNormal(ray.direction, hit.wall.normal);
    FacingNormalFaces(ray.direction, hit.wall.normal);
    assert Unit(n);
    var c := Children(ray, hit, opts, scatter)[0];
    ChildrenShape(ray, hit, opts, scatter);
    NormalizeUnit(c.direction);
  }

  /** A ray the level casts and that hits something. */
  predicate Casts(ray: Ray, cast: Ray -> Option<Hit>, bounce: int)
  {
    ray.bounceLevel == bounce && cast(ray).Some?
  }

  /** The segment the worker records for a hitting ray: its origin to its hit point, in its own colour. */
  function SegmentFor(ray: Ray, cast: Ray -> Option<Hit>): Segment
    requires cast(ray).Some?
  {
    Segment(ray.origin, cast(ray).value.point, ray.color)
  }

  /** The rays of the pool that are cast at level `bounce` and hit, in pool order. */
  function Hitting(rays: seq<Ray>, cast: Ray -> Option<Hit>, bounce: int): (hs: seq<Ray>)
    ensures |hs| <= |rays|
    ensures forall k :: 0 <= k < |hs| ==> hs[k] in rays && Casts(hs[k], cast, bounce)
    ensures forall r :: r in hs ==> r in rays && Casts(r, cast, bounce)
    ensures forall r :: r in rays && Casts(r, cast, bounce) ==> r in hs
  {
    if |rays| == 0 then
      []
    else
      var last := rays[|rays| - 1];
      assert rays == rays[..|rays| - 1] + [last];
      Hitting(rays[..|rays| - 1], cast, bounce) + (if Casts(last, cast, bounce) then [last] else [])
  }

  /** The segments of the hitting rays `hs`, one per ray, in order. */
  function HitSegments(hs: seq<Ray>, cast: Ray -> Option<Hit>): (segs: seq<Segment>)
    requires forall r :: r in hs ==> cast(r).Some?
  {
    seq(|hs|, k requires 0 <= k < |hs| => SegmentFor(hs[k], cast))
  }

  /** The children of the hitting rays `hs`, those of each ray together, in order. */
  function HitChildren(hs: seq<Ray>, cast: Ray -> Option<Hit>, opts: Options, scatter: (Vector, nat) -> Vector): seq<Ray>
    requires forall r :: r in hs ==> cast(r).Some?
  {
    if |hs| == 0 then
      []
    else
      var last := hs[|hs| - 1];
      HitChildren(hs[..|hs| - 1], cast, opts, scatter) + Children(last, cast(last).value, opts, scatter)
  }

  /** What one level adds: the children of its hitting rays and their segments. */
  datatype Level = Level(children: seq<Ray>, segments: seq<Segment>)

  /**
    One pass of the inner loop over the pool at level `bounce`, ray by ray.
    What it adds is what filtering the pool for the rays cast at this level
    that hit, then taking each one's segment and children, gives.
   */
  function LevelStep(rays: seq<Ray>, cast: Ray -> Option<Hit>, bounce: int, opts: Options, scatter: (Vector, nat) -> Vector): (st: Level)
    ensures var hs := Hitting(rays, cast, bounce);
      st == Level(HitChildren(hs, cast, opts, scatter), HitSegments(hs, cast))
  {
    if |rays| == 0 then
      Level([], [])
    else
      var prev := LevelStep(rays[..|rays| - 1], cast, bounce, opts, scatter);
      var ray := rays[|rays| - 1];
      var hs := Hitting(rays[..|rays| - 1], cast, bounce);
      if Casts(ray, cast, bounce) then
        assert Hitting(rays, cast, bounce) == hs + [ray];
        HitChildrenAppend(hs, ray, cast, opts, scatter);
        HitSegmentsAppend(hs, ray, cast);
        Level(prev.children + Children(ray, cast(ray).value, opts, scatter), prev.segments + [SegmentFor(ray, cast)])
      else
        assert Hitting(rays, cast, bounce) == hs;
        prev
  }

  lemma HitSegmentsAppend(hs: seq<Ray>, ray: Ray, cast: Ray -> Option<Hit>)
    requires forall r :: r in hs + [ray] ==> cast(r).Some?
    ensures HitSegments(hs + [ray], cast) == HitSegments(hs, cast) + [SegmentFor(ray, cast)]
  {
  }

  lemma HitChildrenAppend(hs: seq<Ray>, ray: Ray, cast: Ray -> Option<Hit>, opts: Options, scatter: (Vector, nat) -> Vector)
    requires forall r :: r in hs + [ray] ==> cast(r).Some?
    ensures HitChildren(hs + [ray], cast, opts, scatter) ==
      HitChildren(hs, cast, opts, scatter) + Children(ray, cast(ray).value, opts, scatter)
  {
    assert (hs + [ray])[..|hs|] == hs;
  }

  /** Every hitting ray has `ChildCount` children. */
  lemma {:induction false} HitChildrenCount(hs: seq<Ray>, cast: Ray -> Option<Hit>, opts: Options, scatter: (Vector, nat) -> Vector)
    requires forall r :: r in hs ==> cast(r).Some?
    ensures |HitChildren(hs, cast, opts, scatter)| == ChildCount(opts) * |hs|
  {
    if |hs| > 0 {
      var init := hs[..|hs| - 1];
      HitChildrenCount(init, cast, opts, scatter);
      MulSucc(ChildCount(opts), |init|);
    }
  }

  /** The children of rays at level `bounce` all sit at level `bounce + 1`. */
  lemma {:induction false} HitChildrenLevels(hs: seq<Ray>, cast: Ray -> Option<Hit>, bounce: int, opts: Options,
                                             scatter: (Vector, nat) -> Vector)
    requires forall r :: r in hs ==> cast(r).Some? && r.bounceLevel == bounce
    ensures forall c :: c in HitChildren(hs, cast, opts, scatter) ==> c.bounceLevel == bounce + 1
  {
    if |hs| > 0 {
      var init := hs[..|hs| - 1];
      var last := hs[|hs| - 1];
      HitChildrenLevels(init, cast, bounce, opts, scatter);
      var cs := Children(last, cast(last).value, opts, scatter);
      assert forall c :: c in cs ==> c.bounceLevel == bounce + 1;
    }
  }

  /** `c` is one of the rays that `r` spawns when its cast hits. */
  predicate ChildOf(c: Ray, r: Ray, cast: Ray -> Option<Hit>, opts: Options, scatter: (Vector, nat) -> Vector)
  {
    cast(r).Some? && c in Children(r, cast(r).value, opts, scatter)
  }

  /** Every ray among the children of `hs` was spawned by one of them. */
  lemma {:induction false} HitChildrenSound(hs: seq<Ray>, cast: Ray -> Option<Hit>, opts: Options,
                                            scatter: (Vector, nat) -> Vector, c: Ray)
    requires forall r :: r in hs ==> cast(r).Some?
    requires c in HitChildren(hs, cast, opts, scatter)
    ensures exists r :: r in hs && ChildOf(c, r, cast, opts, scatter)
  {
    var init, last := hs[..|hs| - 1], hs[|hs| - 1];
    if c in HitChildren(init, cast, opts, scatter) {
      HitChildrenSound(init, cast, opts, scatter, c);
      var r :| r in init && ChildOf(c, r, cast, opts, scatter);
      assert r in hs;
    } else {
      assert ChildOf(c, last, cast, opts, scatter);
      assert last in hs;
    }
  }

  /** Every child of every ray of `hs` is among the children of `hs`. */
  lemma {:induction false} HitChildrenComplete(hs: seq<Ray>, cast: Ray -> Option<Hit>, opts: Options,
                                               scatter: (Vector, nat) -> Vector, r: Ray, c: Ray)
    requires forall x :: x in hs ==> cast(x).Some?
    requires r in hs && ChildOf(c, r, cast, opts, scatter)
    ensures c in HitChildren(hs, cast, opts, scatter)
  {
    var init, last := hs[..|hs| - 1], hs[|hs| - 1];
    if r != last {
      var i :| 0 <= i < |hs| && hs[i] == r;
      assert i < |hs| - 1 && init[i] == r;
      HitChildrenComplete(init, cast, opts, scatter, r, c);
    }
  }

  /**
    The level records one segment per hitting ray and spawns `ChildCount`
    children per hitting ray, all one level deeper.
   */
  lemma LevelCounts(rays: seq<Ray>, cast: Ray -> Option<Hit>, bounce: int, opts: Options, scatter: (Vector, nat) -> Vector)
    ensures var st := LevelStep(rays, cast, bounce, opts, scatter);
      && |st.segments| == |Hitting(rays, cast, bounce)|
      && |st.children| == ChildCount(opts) * |Hitting(rays, cast, bounce)|
      && forall c :: c in st.children ==> c.bounceLevel == bounce + 1
  {
    var hs := Hitting(rays, cast, bounce);
    HitChildrenCount(hs, cast, opts, scatter);
    HitChildrenLevels(hs, cast, bounce, opts, scatter);
  }

  /**
    A ray that misses every wall, or that sits at another level, is not
    cast: it spawns nothing and records nothing.
   */
  lemma NotCastAddsNothing(rays: seq<Ray>, cast: Ray -> Option<Hit>, bounce: int, opts: Options,
                           scatter: (Vector, nat) -> Vector, ray: Ray)
    requires cast(ray).None? || ray.bounceLevel != bounce
    ensures LevelStep(rays + [ray], cast, bounce, opts, scatter) == LevelStep(rays, cast, bounce, opts, scatter)
  {
    assert (rays + [ray])[..|rays|] == rays;
  }

  /** The result of a trace: the final pool and the recorded segments. */
  datatype Trace = Trace(pool: seq<Ray>, segments: seq<Segment>)

  /** Levels still to run from `bounce` on; the measure of `TraceFrom`. */
  function LevelsLeft(bounce: int, maxBounces: int): nat
  {
    if bounce <= maxBounces then maxBounces - bounce + 1 else 0
  }

  /**
    The outer loop of `traceRays` from level `bounce` on. The pool keeps
    its rays in place and only grows, every added ray sits at a level in
    `bounce + 1 .. maxBounces + 1`, every segment belongs to a ray of the
    final pool cast at a level in `bounce .. maxBounces`, and every such
    ray that hits has its segment recorded. Likewise every added ray is a
    child of such a ray, and the children of every such ray are added.
   */
  function TraceFrom(pool: seq<Ray>, cast: Ray -> Option<Hit>, bounce: int, maxBounces: int, opts: Options,
                     scatter: (Vector, nat) -> Vector): (t: Trace)
    decreases LevelsLeft(bounce, maxBounces)
    ensures Grows(pool, t.pool, bounce + 1, maxBounces + 1)
    ensures SegmentsSound(t.segments, t.pool, cast, bounce, maxBounces)
    ensures SegmentsComplete(t.segments, t.pool, cast, bounce, maxBounces)
    ensures ChildrenSound(pool, t.pool, cast, bounce, maxBounces, opts, scatter)
    ensures ChildrenComplete(t.pool, cast, bounce, maxBounces, opts, scatter)
    ensures bounce > maxBounces ==> t == Trace(pool, [])
  {
    if bounce > maxBounces then
      Trace(pool, [])
    else
      var st := LevelStep(pool, cast, bounce, opts, scatter);
      var rest := TraceFrom(pool + st.children, cast, bounce + 1, maxBounces, opts, scatter);
      TraceFromStep(pool, cast, bounce, maxBounces, opts, scatter, st, rest);
      Trace(rest.pool, st.segments + rest.segments)
  }

  /** A ray the trace produces: one of the sources, or a later ray at a level in `lo .. hi`. */
  ghost predicate Grows(before: seq<Ray>, after: seq<Ray>, lo: int, hi: int)
  {
    && |after| >= |before| && after[..|before|] == before
    && forall k :: |before| <= k < |after| ==> lo <= after[k].bounceLevel <= hi
  }

  /** Segments that each belong to a ray of `pool` cast at a level in `lo .. hi`. */
  ghost predicate SegmentsSound(segs: seq<Segment>, pool: seq<Ray>, cast: Ray -> Option<Hit>, lo: int, hi: int)
  {
    forall s :: s in segs ==> exists r :: (r in pool && lo <= r.bounceLevel <= hi &&
      Casts(r, cast, r.bounceLevel) && s == SegmentFor(r, cast))
  }

  /** Every ray of `pool` at a level in `lo .. hi` that hits has its segment in `segs`. */
  ghost predicate SegmentsComplete(segs: seq<Segment>, pool: seq<Ray>, cast: Ray -> Option<Hit>, lo: int, hi: int)
  {
    forall r :: r in pool && lo <= r.bounceLevel <= hi && cast(r).Some? ==> SegmentFor(r, cast) in segs
  }

  /** `c` was spawned by a ray of `pool` cast at a level in `lo .. hi`. */
  ghost predicate Spawned(c: Ray, pool: seq<Ray>, cast: Ray -> Option<Hit>, lo: int, hi: int,
                          opts: Options, scatter: (Vector, nat) -> Vector)
  {
    exists r :: r in pool && lo <= r.bounceLevel <= hi && ChildOf(c, r, cast, opts, scatter)
  }

  /** Every ray added after `before` was spawned by a ray of `after` cast at a level in `lo .. hi`. */
  ghost predicate ChildrenSound(before: seq<Ray>, after: seq<Ray>, cast: Ray -> Option<Hit>, lo: int, hi: int,
                                opts: Options, scatter: (Vector, nat) -> Vector)
  {
    forall k :: |before| <= k < |after| ==> Spawned(after[k], after, cast, lo, hi, opts, scatter)
  }

  /** Every ray of `pool` at a level in `lo .. hi` that hits has all its children in `pool`. */
  ghost predicate ChildrenComplete(pool: seq<Ray>, cast: Ray -> Option<Hit>, lo: int, hi: int,
                                   opts: Options, scatter: (Vector, nat) -> Vector)
  {
    forall r, c :: r in pool && lo <= r.bounceLevel <= hi && ChildOf(c, r, cast, opts, scatter) ==> c in pool
  }

  /** The inductive step of `TraceFrom`, given the level's result and the rest of the trace. */
  lemma TraceFromStep(pool: seq<Ray>, cast: Ray -> Option<Hit>, bounce: int, maxBounces: int, opts: Options,
                      scatter: (Vector, nat) -> Vector, st: Level, rest: Trace)
    requires bounce <= maxBounces
    requires st == LevelStep(pool, cast, bounce, opts, scatter)
    requires Grows(pool + st.children, rest.pool, bounce + 2, maxBounces + 1)
    requires SegmentsSound(rest.segments, rest.pool, cast, bounce + 1, maxBounces)
    requires SegmentsComplete(rest.segments, rest.pool, cast, bounce + 1, maxBounces)
    requires ChildrenSound(pool + st.children, rest.pool, cast, bounce + 1, maxBounces, opts, scatter)
    requires ChildrenComplete(rest.pool, cast, bounce + 1, maxBounces, opts, scatter)
    ensures Grows(pool, rest.pool, bounce + 1, maxBounces + 1)
    ensures SegmentsSound(st.segments + rest.segments, rest.pool, cast, bounce, maxBounces)
    ensures SegmentsComplete(st.segments + rest.segments, rest.pool, cast, bounce, maxBounces)
    ensures ChildrenSound(pool, rest.pool, cast, bounce, maxBounces, opts, scatter)
    ensures ChildrenComplete(rest.pool, cast, bounce, maxBounces, opts, scatter)
  {
    LevelCounts(pool, cast, bounce, opts, scatter);
    StepGrows(pool, st.children, rest.pool, bounce, maxBounces);
    StepSound(pool, cast, bounce, maxBounces, opts, scatter, st, rest);
    StepComplete(pool, cast, bounce, maxBounces, opts, scatter, st, rest);
    LevelChildrenSpawned(pool, cast, bounce, maxBounces, opts, scatter, st, rest.pool);
    StepChildrenSound(pool, st.children, rest.pool, cast, bounce, maxBounces, opts, scatter);
    StepChildrenComplete(pool, cast, bounce, maxBounces, opts, scatter, st, rest);
  }

  lemma StepGrows(pool: seq<Ray>, children: seq<Ray>, after: seq<Ray>, bounce: int, maxBounces: int)
    requires bounce <= maxBounces
    requires forall c :: c in children ==> c.bounceLevel == bounce + 1
    requires Grows(pool + children, after, bounce + 2, maxBounces + 1)
    ensures Grows(pool, after, bounce + 1, maxBounces + 1)
  {
    var grown := pool + children;
    assert after[..|pool|] == grown[..|pool|] == pool;
    forall k | |pool| <= k < |after|
      ensures bounce + 1 <= after[k].bounceLevel <= maxBounces + 1
    {
      if k < |grown| {
        assert after[k] == children[k - |pool|];
        assert children[k - |pool|] in children;
      }
    }
  }

  lemma StepSound(pool: seq<Ray>, cast: Ray -> Option<Hit>, bounce: int, maxBounces: int, opts: Options,
                  scatter: (Vector, nat) -> Vector, st: Level, rest: Trace)
    requires bounce <= maxBounces
    requires st == LevelStep(pool, cast, bounce, opts, scatter)
    requires Grows(pool + st.children, rest.pool, bounce + 2, maxBounces + 1)
    requires SegmentsSound(rest.segments, rest.pool, cast, bounce + 1, maxBounces)
    ensures SegmentsSound(st.segments + rest.segments, rest.pool, cast, bounce, maxBounces)
  {
    var hs := Hitting(pool, cast, bounce);
    var grown := pool + st.children;
    assert rest.pool[..|pool|] == grown[..|pool|] == pool;
    forall s | s in st.segments + rest.segments
      ensures exists r :: (r in rest.pool && bounce <= r.bounceLevel <= maxBounces &&
        Casts(r, cast, r.bounceLevel) && s == SegmentFor(r, cast))
    {
      if s in st.segments {
        var k :| 0 <= k < |st.segments| && st.segments[k] == s;
        var r := hs[k];
        InPrefix(pool, rest.pool, r);
      }
    }
  }

  lemma StepComplete(pool: seq<Ray>, cast: Ray -> Option<Hit>, bounce: int, maxBounces: int, opts: Options,
                     scatter: (Vector, nat) -> Vector, st: Level, rest: Trace)
    requires bounce <= maxBounces
    requires st == LevelStep(pool, cast, bounce, opts, scatter)
    requires Grows(pool + st.children, rest.pool, bounce + 2, maxBounces + 1)
    requires SegmentsComplete(rest.segments, rest.pool, cast, bounce + 1, maxBounces)
    ensures SegmentsComplete(st.segments + rest.segments, rest.pool, cast, bounce, maxBounces)
  {
    var hs := Hitting(pool, cast, bounce);
    var grown := pool + st.children;
    LevelCounts(pool, cast, bounce, opts, scatter);
    StepGrows(pool, st.children, rest.pool, bounce, maxBounces);
    forall r | r in rest.pool && bounce <= r.bounceLevel <= maxBounces && cast(r).Some?
      ensures SegmentFor(r, cast) in st.segments + rest.segments
    {
      if r.bounceLevel == bounce {
        var k :| 0 <= k < |rest.pool| && rest.pool[k] == r;
        assert k < |pool|;
        assert rest.pool[k] == grown[k] == pool[k];
        assert r in hs;
        var j :| 0 <= j < |hs| && hs[j] == r;
        assert st.segments[j] == SegmentFor(r, cast);
      }
    }
  }

  /**
    If the rays `children` appended after `pool` were spawned at level
    `bounce`, and the later ones at levels from `bounce + 1`, then all rays
    after `pool` were spawned at levels from `bounce`.
   */
  lemma StepChildrenSound(pool: seq<Ray>, children: seq<Ray>, after: seq<Ray>, cast: Ray -> Option<Hit>,
                          bounce: int, maxBounces: int, opts: Options, scatter: (Vector, nat) -> Vector)
    requires |after| >= |pool| + |children| && after[..|pool| + |children|] == pool + children
    requires forall c :: c in children ==> Spawned(c, after, cast, bounce, maxBounces, opts, scatter)
    requires ChildrenSound(pool + children, after, cast, bounce + 1, maxBounces, opts, scatter)
    ensures ChildrenSound(pool, after, cast, bounce, maxBounces, opts, scatter)
  {
    var grown := pool + children;
    forall k | |pool| <= k < |after|
      ensures Spawned(after[k], after, cast, bounce, maxBounces, opts, scatter)
    {
      var c := after[k];
      if k < |grown| {
        assert c == grown[k] == children[k - |pool|];
      } else {
        assert Spawned(c, after, cast, bounce + 1, maxBounces, opts, scatter);
        SpawnedWiden(c, after, cast, bounce, maxBounces, opts, scatter);
      }
    }
  }

  /** Every child the level adds was spawned by a pool ray the level casts, in every pool that extends the pool. */
  lemma LevelChildrenSpawned(pool: seq<Ray>, cast: Ray -> Option<Hit>, bounce: int, maxBounces: int, opts: Options,
                             scatter: (Vector, nat) -> Vector, st: Level, after: seq<Ray>)
    requires bounce <= maxBounces
    requires st == LevelStep(pool, cast, bounce, opts, scatter)
    requires |after| >= |pool| + |st.children| && after[..|pool| + |st.children|] == pool + st.children
    ensures forall c :: c in st.children ==> Spawned(c, after, cast, bounce, maxBounces, opts, scatter)
  {
    var hs := Hitting(pool, cast, bounce);
    assert after[..|pool|] == (pool + st.children)[..|pool|] == pool;
    forall c | c in st.children
      ensures Spawned(c, after, cast, bounce, maxBounces, opts, scatter)
    {
      HitChildrenSound(hs, cast, opts, scatter, c);
      var r :| r in hs && ChildOf(c, r, cast, opts, scatter);
      InPrefix(pool, after, r);
    }
  }

  /** A ray spawned at a level in `lo + 1 .. hi` was spawned at a level in `lo .. hi`. */
  lemma SpawnedWiden(c: Ray, pool: seq<Ray>, cast: Ray -> Option<Hit>, lo: int, hi: int,
                     opts: Options, scatter: (Vector, nat) -> Vector)
    requires Spawned(c, pool, cast, lo + 1, hi, opts, scatter)
    ensures Spawned(c, pool, cast, lo, hi, opts, scatter)
  {
    var r :| r in pool && lo + 1 <= r.bounceLevel <= hi && ChildOf(c, r, cast, opts, scatter);
    assert lo <= r.bounceLevel <= hi;
  }

  lemma StepChildrenComplete(pool: seq<Ray>, cast: Ray -> Option<Hit>, bounce: int, maxBounces: int, opts: Options,
                             scatter: (Vector, nat) -> Vector, st: Level, rest: Trace)
    requires bounce <= maxBounces
    requires st == LevelStep(pool, cast, bounce, opts, scatter)
    requires Grows(pool + st.children, rest.pool, bounce + 2, maxBounces + 1)
    requires ChildrenComplete(rest.pool, cast, bounce + 1, maxBounces, opts, scatter)
    ensures ChildrenComplete(rest.pool, cast, bounce, maxBounces, opts, scatter)
  {
    var grown := pool + st.children;
    LevelCounts(pool, cast, bounce, opts, scatter);
    StepGrows(pool, st.children, rest.pool, bounce, maxBounces);
    forall r, c | r in rest.pool && bounce <= r.bounceLevel <= maxBounces && ChildOf(c, r, cast, opts, scatter)
      ensures c in rest.pool
    {
      if r.bounceLevel == bounce {
        var k :| 0 <= k < |rest.pool| && rest.pool[k] == r;
        assert k < |pool|;
        assert pool[k] == r by {
          assert rest.pool[k] == grown[k];
        }
        LevelChildInPool(pool, cast, bounce, opts, scatter, st, rest.pool, r, c);
      }
    }
  }

  /** A child of a ray the level casts lands in every pool that extends the pool with the level's children. */
  lemma LevelChildInPool(pool: seq<Ray>, cast: Ray -> Option<Hit>, bounce: int, opts: Options,
                         scatter: (Vector, nat) -> Vector, st: Level, after: seq<Ray>, r: Ray, c: Ray)
    requires st == LevelStep(pool, cast, bounce, opts, scatter)
    requires |after| >= |pool| + |st.children| && after[..|pool| + |st.children|] == pool + st.children
    requires r in pool && r.bounceLevel == bounce && ChildOf(c, r, cast, opts, scatter)
    ensures c in after
  {
    var hs := Hitting(pool, cast, bounce);
    assert r in hs;
    HitChildrenComplete(hs, cast, opts, scatter, r, c);
    var j :| 0 <= j < |st.children| && st.children[j] == c;
    assert after[|pool| + j] == (pool + st.children)[|pool| + j];
  }

  /** Membership in a prefix carries over to the whole sequence. */
  lemma InPrefix(prefix: seq<Ray>, whole: seq<Ray>, r: Ray)
    requires |whole| >= |prefix| && whole[..|prefix|] == prefix && r in prefix
    ensures r in whole
  {
    var k :| 0 <= k < |prefix| && prefix[k] == r;
    assert whole[k] == r;
  }

  /** The nearest-hit search of `castAndDraw` against the scene's walls, as a cast function. */
  function NearestCast(walls: seq<Wall>): Ray -> Option<Hit>
  {
    ray => NearestHit(ray, walls)
  }

  /**
    `traceRays` of the main script: the final pool, which starts with the
    initial rays unchanged and continues with rays of levels
    `1 .. maxBounces + 1` only. Every added ray is a child of a pool ray
    cast at a level in `0 .. maxBounces` that hits a wall, and every child of
    every such ray is in the pool.
   */
  function TraceRays(initial: seq<Ray>, walls: seq<Wall>, maxBounces: int, opts: Options,
                     scatter: (Vector, nat) -> Vector): (pool: seq<Ray>)
    ensures |pool| >= |initial| && pool[..|initial|] == initial
    ensures forall k :: |initial| <= k < |pool| ==> (1 <= pool[k].bounceLevel <= maxBounces + 1 &&
      exists r :: (r in pool && 0 <= r.bounceLevel <= maxBounces &&
        NearestHit(r, walls).Some? && pool[k] in Children(r, NearestHit(r, walls).value, opts, scatter)))
    ensures forall r, c :: (r in pool && 0 <= r.bounceLevel <= maxBounces && NearestHit(r, walls).Some? &&
      c in Children(r, NearestHit(r, walls).value, opts, scatter)) ==> c in pool
  {
    var t := TraceFrom(initial, NearestCast(walls), 0, maxBounces, opts, scatter);
    NearestChildren(initial, walls, maxBounces, opts, scatter, t);
    t.pool
  }

  /** The children facts of `TraceFrom`, with the nearest-hit search as the cast. */
  lemma NearestChildren(initial: seq<Ray>, walls: seq<Wall>, maxBounces: int, opts: Options,
                        scatter: (Vector, nat) -> Vector, t: Trace)
    requires ChildrenSound(initial, t.pool, NearestCast(walls), 0, maxBounces, opts, scatter)
    requires ChildrenComplete(t.pool, NearestCast(walls), 0, maxBounces, opts, scatter)
    requires forall k :: |initial| <= k < |t.pool| ==> 1 <= t.pool[k].bounceLevel <= maxBounces + 1
    ensures forall k :: |initial| <= k < |t.pool| ==> (1 <= t.pool[k].bounceLevel <= maxBounces + 1 &&
      exists r :: (r in t.pool && 0 <= r.bounceLevel <= maxBounces &&
        NearestHit(r, walls).Some? && t.pool[k] in Children(r, NearestHit(r, walls).value, opts, scatter)))
    ensures forall r, c :: (r in t.pool && 0 <= r.bounceLevel <= maxBounces && NearestHit(r, walls).Some? &&
      c in Children(r, NearestHit(r, walls).value, opts, scatter)) ==> c in t.pool
  {
    var cast := NearestCast(walls);
    forall k | |initial| <= k < |t.pool|
      ensures (1 <= t.pool[k].bounceLevel <= maxBounces + 1 &&
        exists r :: (r in t.pool && 0 <= r.bounceLevel <= maxBounces &&
          NearestHit(r, walls).Some? && t.pool[k] in Children(r, NearestHit(r, walls).value, opts, scatter)))
    {
      var c := t.pool[k];
      assert Spawned(c, t.pool, cast, 0, maxBounces, opts, scatter);
      var r :| r in t.pool && 0 <= r.bounceLevel <= maxBounces && ChildOf(c, r, cast, opts, scatter);
      assert cast(r) == NearestHit(r, walls);
    }
    forall r, c | r in t.pool && 0 <= r.bounceLevel <= maxBounces && NearestHit(r, walls).Some? &&
                  c in Children(r, NearestHit(r, walls).value, opts, scatter)
      ensures c in t.pool
    {
      assert cast(r) == NearestHit(r, walls);
      assert ChildOf(c, r, cast, opts, scatter);
    }
  }

  /** The worker has no diffuse sampling; any direction function serves. */
  function NoScatter(n: Vector, i: nat): Vector
  {
    n
  }

  /**
    `traceRays` of the worker: the segments of the trace with reflection
    only. Each segment runs from the origin of a ray cast at a level in
    `0 .. maxBounces` to its nearest hit, in that ray's colour.
   */
  function TraceSegments(initial: seq<Ray>, walls: seq<Wall>, maxBounces: int): (segs: seq<Segment>)
    ensures forall s :: s in segs ==> exists r :: (r in TraceFrom(initial, NearestCast(walls), 0, maxBounces, WorkerOptions, NoScatter).pool &&
      0 <= r.bounceLevel <= maxBounces && NearestHit(r, walls).Some? &&
      s == Segment(r.origin, NearestHit(r, walls).value.point, r.color))
    ensures maxBounces < 0 ==> segs == []
  {
    TraceFrom(initial, NearestCast(walls), 0, maxBounces, WorkerOptions, NoScatter).segments
  }

  /** Every initial ray at a level in `0 .. maxBounces` that hits a wall has its segment recorded. */
  lemma TraceSegmentsComplete(initial: seq<Ray>, walls: seq<Wall>, maxBounces: int)
    ensures forall r :: r in initial && 0 <= r.bounceLevel <= maxBounces && NearestHit(r, walls).Some? ==>
      Segment(r.origin, NearestHit(r, walls).value.point, r.color) in TraceSegments(initial, walls, maxBounces)
  {
    var t := TraceFrom(initial, NearestCast(walls), 0, maxBounces, WorkerOptions, NoScatter);
    forall r | r in initial
      ensures r in t.pool
    {
      InPrefix(initial, t.pool, r);
    }
  }

  /**
    Each hitting ray of the worker spawns exactly one child: its reflection,
    one level deeper, in the colour `light`.
   */
  lemma WorkerOneChild(ray: Ray, hit: Hit)
    ensures var cs := Children(ray, hit, WorkerOptions, NoScatter);
      && |cs| == 1
      && cs[0] == Ray(OffsetOrigin(hit.point, FacingNormal(ray.direction, hit.wall.normal)),
                      Reflect(ray.direction, FacingNormal(ray.direction, hit.wall.normal)),
                      Light(ray.color, hit.wall.material), ray.bounceLevel + 1)
  {
    var cs := Children(ray, hit, WorkerOptions, NoScatter);
    ChildrenShape(ray, hit, WorkerOptions, NoScatter);
    assert cs[0] in cs;
  }
}
