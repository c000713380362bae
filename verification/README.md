# 2D ray tracer: ray propagation, modelled in Dafny

The ray tracer shoots rays from a light source into a scene of line-segment
walls. A ray is cast against every wall, and the nearest hit point is
found. The hit spawns child rays one bounce level deeper: the specular
reflection plus, optionally, diffuse samples. The children's colour is the
parent's, filtered by the wall. The main script runs this engine to draw.
A web worker runs a copy of it that collects one coloured line segment per
hit. The worker also has its own Cramer-rule `Ray.cast`. The main script
can cut the rays into chunks, one chunk per worker.

This project models that engine over exact reals instead of IEEE doubles.
The modules follow the program's structure:

- `Wrappers` holds the `Option` type.
- `Geometry` holds the `Point` and `Vector` classes: subtract, dot, cross,
  scale, reflect and normalize.
- `Scene` holds materials, `LineSegment` walls (the constructor and
  `calculateNormal`), rays, hits and segments.
- `Intersection` holds `LineSegment.intersect` and the worker's
  `Ray.cast`, both as written and corrected.
- `Selection` holds the "closest so far" scan that both nearest-hit
  searches use.
- `Nearest` holds the nearest-hit part of `Ray.castAndDraw`.
- `Propagation` holds `traceRays` from both files. Rays are cast level by
  level. Hitting rays spawn children, which are appended to the pool after
  each level. The worker variant also records segments.
- `Bounds` holds the bound on the number of segments the worker records.
- `Chunking` holds the partition of the rays in `traceRaysMultiThread`.

Parts of the source that cannot be computed over the reals, or that are
random, become parameters:

- `Math.hypot` is replaced by a `length` argument. It is required to be
  the true Euclidean length.
- The nearest-hit search compares squared distances. These order hits
  exactly as the distances do.
- The cast used by `traceRays` is a function parameter, so the bounce
  expansion is proved for any cast. The top-level functions instantiate it
  with the nearest-hit search.
- Diffuse sample directions (`Math.random`, `atan2`, `cos`, `sin`) are a
  caller-supplied function `scatter(normal, i)`.

Two details of the source are easy to misread:

- A child's alpha is the parent's alpha times the wall's alpha
  (script.js:299, worker.js:255).
- `traceRaysMultiThread` cuts `THREADS` slices, one per worker
  (script.js:416-425); trailing slices may be empty.

## Model

| member | source | states |
|---|---|---|
| Geometry.Sub | script.js:54-56 | `p - q` is the vector that carries `q` to `p`; it is zero exactly when the points coincide |
| Geometry.ScaleParallel | script.js:95-97 | a scaled vector is parallel to the original; its dot product with it scales by `k` and its squared length by `k^2` |
| Geometry.Reflect | script.js:99-107 | reflection keeps the component along the wall (cross with `n`); for a unit `n` it negates the component along `n` and keeps the length |
| Geometry.ReflectInvolution | script.js:99-107 | reflecting twice about the same unit normal gives the original direction back |
| Geometry.Normalize | script.js:80-83 | given the true length of a non-zero vector, the result has unit length and points the same way (parallel, positive dot product) |
| Geometry.NormalizeUnit | script.js:80-83 | normalising a unit vector leaves it unchanged |
| Scene.CalculateNormal | worker.js:77-83 | for distinct end points the normal is a unit vector perpendicular to `end - start`; it is the zero vector exactly when the end points coincide (where the source gets NaN) |
| Scene.MakeWall | script.js:113-119 | a wall keeps its end points and colour, gets reflectivity 1 and absorption 0.5, and a well-formed unit normal when its end points differ |
| Scene.MakeRay | script.js:175-181 | a ray keeps origin, colour and level; its direction is a unit vector pointing the same way as the given one |
| Selection.FirstMin | script.js:197-214 | the scan returns a qualifying candidate below the start bound that is no farther than any other and strictly nearer than every earlier one (ties keep the first); none exactly when nothing qualifies |
| Selection.FirstMinUnique | script.js:202-214 | those properties determine the scan's result uniquely |
| Selection.FirstMinStep | script.js:202-212 | one more candidate replaces the choice exactly when its key is strictly below the running best |
| Intersection.Intersect | script.js:132-159 | no hit below the `1e-8` parallel guard or for a degenerate wall; a returned point is `p + d t1` with `t1 >= 0` and equally `p1 + (p2 - p1) t2` with `0 <= t2 <= 1` |
| Intersection.CrossingOnBoth | script.js:148-155 | away from parallel, `p + d t1` and `p1 + (p2 - p1) t2` are the same point |
| Intersection.ParamsOfCommonPoint | script.js:148-149 | `t1` and `t2` are the true parameters of any point common to the ray's and the wall's lines |
| Intersection.IntersectComplete | script.js:143-156 | conversely, every point on the ray (`t >= 0`) and on the closed wall is returned whenever ray and wall are not nearly parallel |
| Intersection.IntersectInRange | script.js:152-155 | parameters in range give a hit at `p + d t1` |
| Intersection.IntersectBehind | script.js:152 | a crossing behind the ray's origin is no hit |
| Intersection.Cramer | worker.js:193-200 | the corrected per-wall solver answers exactly when `|denom| >= 1e-6`, with the wall parameter and ray parameter of `intersect` |
| Intersection.CramerMatchesIntersect | worker.js:193-200 | the coordinates of `cast` compute the denominator and wall parameter of `intersect`, and the negated ray parameter |
| Intersection.CramerSolution | worker.js:193-200 | away from the guard the corrected solver returns the parameters of `intersect` |
| Intersection.CramerAsWrittenNegatesRayParam | worker.js:197-200 | the solver as written answers in the same cases as the corrected one, with the same `t` and the opposite `u` |
| Intersection.ClosestIndex | worker.js:190-210 | the chosen wall has `0 <= t <= 1` and `0 < u < maxDist`, the least such `u`, and is the first of equal ones; none exactly when no wall is accepted |
| Intersection.CastAsWritten | worker.js:187-213 | `cast` as written returns `origin + dir u` for the least accepted `u` below `maxDist`, or nothing exactly when no wall is accepted |
| Intersection.Cast | worker.js:187-213 | the corrected `cast` returns the first crossing in front of the ray closer than `maxDist`, which lies on the returned wall, or nothing exactly when no wall is accepted |
| Intersection.CastWithSingle | worker.js:192-212 | against one wall `cast` returns that wall's accepted solution or nothing |
| Intersection.ProbeCrossing | script.js:148-149 | the ray along the x axis meets the vertical wall at `x` at ray parameter `x`, mid-wall |
| Intersection.ProbeParams | worker.js:197-200 | the corrected solver finds that crossing at `u = x` |
| Intersection.ProbeParamsAsWritten | worker.js:199-200 | the solver as written finds it at `u = -x` |
| Intersection.CastAsWrittenMissesWallAhead | worker.js:199-209 | a wall straight ahead is missed by `cast` as written and found by the corrected `cast` |
| Intersection.CastAsWrittenHitsBehind | worker.js:199-209 | a wall behind the ray is reported by `cast` as written, at a mirrored point not on that wall; the corrected `cast` reports nothing |
| Nearest.NearestIndex | script.js:202-214 | the chosen wall's hit lies beyond `1e-8`, no farther than any other such hit, strictly nearer than every earlier one; none exactly when no wall qualifies |
| Nearest.NearestHit | script.js:196-229 | `[null, null]` exactly when no wall has a hit beyond `1e-8`; otherwise the hit point is what `intersect` returns for the chosen wall, beyond `1e-8` and no farther than any qualifying hit |
| Nearest.CastAndDraw | worker.js:151-184 | the loop with `Infinity` as the start distance returns `[null, null]` exactly when `NearestHit` finds nothing, and otherwise the nearest hit point together with its wall |
| Nearest.NearestStep | script.js:208-212 | scanning one more wall keeps the previous choice or takes the new wall, exactly when its distance is strictly smaller |
| Propagation.ChannelDecays | script.js:296 | with absorption 0.5, an RGB channel against a wall channel in `0..255` keeps at most `0.495` of its value |
| Propagation.LightDecays | script.js:295-300 | each bounce at least halves the three RGB channels and multiplies alpha by the wall's alpha |
| Propagation.FacingNormalFaces | script.js:304-307 | the flipped normal faces the incoming ray (`d . n <= 0`), stays parallel to the wall normal and keeps its length |
| Propagation.OffsetOnIncomingSide | script.js:309-312 | the child origin lies on the side of the wall the ray came from |
| Propagation.Spawn | script.js:317-336 | `(reflect ? 1 : 0) + (diffuse ? samples : 0)` rays sharing origin, colour and level; the reflected one first, then the diffuse ones in sample order |
| Propagation.Children | script.js:309-336 | a hit spawns exactly the child count of the options, all one level below the parent |
| Propagation.ChildrenShape | script.js:309-336 | every child starts at `hit + n * 0.0001` and carries `light`; the first is the reflection about the facing normal when reflection is on |
| Propagation.ReflectedChild | script.js:315-321 | for a unit ray and a well-formed wall the reflected child has unit direction (normalising it changes nothing) and leaves on the incoming side |
| Propagation.Hitting | script.js:287-292 | a ray is cast at level `bounce` and hits exactly when it is in the pool, sits at that level and the cast returns a hit; no more rays than the pool |
| Propagation.LevelStep | worker.js:240-286 | one level's inner loop yields the children and segments of the hitting rays, in pool order |
| Propagation.HitChildrenCount | script.js:318-336 | the hitting rays spawn `ChildCount` children each |
| Propagation.HitChildrenLevels | script.js:320 | all children of level `bounce` are at level `bounce + 1` |
| Propagation.LevelCounts | worker.js:240-289 | a level records one segment per hitting ray and spawns `ChildCount` children per hitting ray, all one level deeper |
| Propagation.HitChildrenSound | script.js:287-337 | every ray the hitting rays spawn is a child of one of them |
| Propagation.HitChildrenComplete | script.js:287-337 | every child of every hitting ray is among the rays they spawn |
| Propagation.NotCastAddsNothing | script.js:289-292 | a ray at another level, or one that misses, adds no children and no segment |
| Propagation.TraceFrom | script.js:284-341 | the pool keeps its rays in place and only grows; added rays sit at levels `bounce+1 .. maxBounces+1`; segments belong exactly to the hitting rays cast at levels `bounce .. maxBounces`; every added ray is a child of a pool ray cast at such a level, and every child of such a ray is in the pool |
| Propagation.TraceFromStep | script.js:284-341 | one level followed by the rest of the trace keeps those five invariants |
| Propagation.StepChildrenSound | script.js:284-341 | a level's children, spawned at `bounce`, followed by rays spawned at later levels, are all spawned at levels from `bounce` |
| Propagation.LevelChildrenSpawned | script.js:287-340 | each ray a level appends was spawned by a pool ray cast at that level, whatever is appended later |
| Propagation.StepChildrenComplete | script.js:284-341 | after one level and the rest of the trace, every child of a pool ray cast at a level from `bounce` is in the pool |
| Propagation.LevelChildInPool | script.js:287-340 | a child of a ray cast at this level lands in the pool after the level is merged |
| Propagation.TraceRays | script.js:281-344 | the returned pool starts with the initial rays unchanged; each later ray is at a level `1 .. maxBounces + 1` and is a child of a pool ray cast at a level `0 .. maxBounces` that hits a wall; every child of every such ray is in the pool |
| Propagation.NearestChildren | script.js:284-341 | with the nearest-hit search as the cast, the trace's children invariants become the statement about `TraceRays` |
| Propagation.TraceSegments | worker.js:233-293 | every segment runs from the origin of a ray cast at a level in `0 .. maxBounces` to its nearest hit, in that ray's own colour; none for negative `maxBounces` |
| Propagation.TraceSegmentsComplete | worker.js:240-263 | every initial ray at a level in `0 .. maxBounces` that hits has its segment recorded |
| Propagation.WorkerOneChild | worker.js:266-286 | each hitting ray of the worker spawns exactly one child: its reflection from the offset origin, one level deeper, in colour `light` |
| Bounds.LevelWithinWeight | worker.js:240-289 | with at most one child per hit, a level's segments plus its children's remaining casts fit in the casts the level uses up |
| Bounds.SegmentsWithinWeight | worker.js:237-290 | with at most one child per hit, a trace records no more segments than the casts left to its pool |
| Bounds.InitialWeight | worker.js:237 | initial rays have at most `maxBounces + 1` casts ahead of them each |
| Bounds.TraceSegmentsBound | worker.js:233-293 | the worker records at most `|initialRays| * (maxBounces + 1)` segments |
| Chunking.ThreadCount | script.js:416 | the thread count is positive, and is the hardware count when that is non-zero |
| Chunking.ChunkSize | script.js:420 | `ceil(n / THREADS)`: the least size whose `THREADS` chunks hold `n` rays |
| Chunking.Slice | script.js:425 | `slice` with clamped bounds: the exact sub-sequence when in range, the rest from `start` when only the end is past the length (the short last chunk), empty when the start is past the end or the end |
| Chunking.Chunks | script.js:424-425 | one slice per worker index, in worker order |
| Chunking.LastChunkBounds | script.js:425 | the slice of worker `k - 1` is the rays from `(k - 1) * chunkSize` to `k * chunkSize`, both clamped to the length |
| Chunking.ChunksPrefixStep | script.js:424-425 | if `k - 1` slices join to the first `(k - 1) * chunkSize` rays, then `k` slices join to the first `k * chunkSize` |
| Chunking.ChunksPrefix | script.js:424-425 | the first `k` slices put back together are the first `k * chunkSize` rays |
| Chunking.ChunksPartition | script.js:419-425 | the `THREADS` slices, none longer than `chunkSize`, concatenate back to exactly the rays |
| Chunking.ChunkLength | script.js:425 | no slice is longer than `chunkSize` |

## Left out

- Drawing is not modelled: canvas output, the ImGui widgets, the animation and progress loop, the resize handler and every `draw` method. This is user interface only.
- The `maxLength` / `drawLength` clamp of `castAndDraw` is not modelled. It only shortens the drawn line.
- Random ray seeding is not modelled. Diffuse directions (`Math.random`, `atan2`, `cos`, `sin`) are the caller's `scatter` function. Only their count, origin, level and colour are modelled.
- `Math.hypot` cannot be computed over the reals. `Normalize`, `CalculateNormal` and `MakeRay` take the length as an argument and require it to be the true one.
- Floating-point rounding is not modelled; every value is an exact real.
- Propagation.Children: the child ray constructor normalises the reflected direction again. The model keeps the reflected vector as is, which is unit-length already for a unit ray off a well-formed wall (`ReflectedChild`).
- Scene.CalculateNormal: for a wall whose end points coincide the source stores a NaN normal. The model stores the zero vector, which no cast ever reads.
- Worker message passing is not modelled: posting chunks, `onmessage`, the completion counter and the merging of results. It is concurrency and plumbing, and the order in which workers finish is not determined. The `workers` array it iterates over is commented out in the source.
- The worker's rebuild of walls passes the whole `Material` object where `LineSegment` expects a colour, so rebuilt walls have no usable colour. The model gives walls their colour directly.
- `bounceLevel ?? 0` in the message builder is not modelled; every modelled ray has a level.
- `Material.getRefractiveIndex` is not modelled. Its function is the number `1` and is never called.
- Bounds.SegmentsWithinWeight: the bound is proved only for at most one child per hit, which covers the worker. With diffuse samples the pool can grow geometrically.

## Findings

| source | as written | input that shows it | evidently intended | confidence | as-written member | corrected member |
|---|---|---|---|---|---|---|
| worker.js:199-200 | `u` is computed as `((sx - ox)(sy - ey) - (sy - oy)(sx - ex)) / denom`, which is minus the distance along the ray, so `cast` accepts only walls behind the ray and reports the point mirrored through the origin | ray from `(0, 0)` along `(1, 0)`, wall `(-5, -1)`–`(-5, 1)`, `maxDist = 1000`: returns `(5, 0)`, which is not on the wall; the wall `(5, -1)`–`(5, 1)` straight ahead is missed (`cast` has no caller in the worker's `traceRays`, which uses `castAndDraw`) | `u` is the ray parameter of the crossing, as `intersect` computes it (numerator negated), so `cast` returns the first wall in front of the ray | not executed | Intersection.CastAsWrittenHitsBehind | Intersection.Cast |
