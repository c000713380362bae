/**
  How many segments a trace can record. When each hit spawns at most one
  child (as in the worker, which only reflects), a ray at level `l` starts
  a chain of at most `maxBounces - l + 1` casts, so the trace records at
  most `|initial| * (maxBounces + 1)` segments.

  The proof weighs every ray of the pool by the casts still ahead of it
  and shows that one level never records more than the weight it uses up.
 */
module Bounds {
  import opened Wrappers
  import opened Geometry
  import opened Scene
  import opened Propagation
  import opened Arithmetic

  /** Casts still ahead of a ray when the trace is at level `bounce`. */
  function Weight(r: Ray, bounce: int, maxBounces: int): nat
  {
    if bounce <= r.bounceLevel <= maxBounces then maxBounces - r.bounceLevel + 1 else 0
  }

  /** The total weight of a pool. */
  function PoolWeight(pool: seq<Ray>, bounce: int, maxBounces: int): nat
  {
    if |pool| == 0 then 0
    else PoolWeight(pool[..|pool| - 1], bounce, maxBounces) + Weight(pool[|pool| - 1], bounce, maxBounces)
  }

  lemma {:induction false} PoolWeightAppend(a: seq<Ray>, c: seq<Ray>, bounce: int, maxBounces: int)
    ensures PoolWeight(a + c, bounce, maxBounces) == PoolWeight(a, bounce, maxBounces) + PoolWeight(c, bounce, maxBounces)
  {
    if |c| == 0 {
      assert a + c == a;
    } else {
      var init := c[..|c| - 1];
      PoolWeightAppend(a, init, bounce, maxBounces);
      assert (a + c)[..|a + c| - 1] == a + init;
    }
  }

  /** No ray weighs more than `maxBounces + 1` at level 0. */
  lemma {:induction false} InitialWeight(pool: seq<Ray>, maxBounces: int)
    requires maxBounces >= 0
    ensures PoolWeight(pool, 0, maxBounces) <= |pool| * (maxBounces + 1)
  {
    if |pool| > 0 {
      InitialWeight(pool[..|pool| - 1], maxBounces);
      MulSucc(maxBounces + 1, |pool| - 1);
    }
  }

  /** At most one ray, at level `bounce + 1`, weighs at most `maxBounces - bounce`. */
  lemma SingleChildWeight(cs: seq<Ray>, bounce: int, maxBounces: int)
    requires |cs| <= 1 && bounce <= maxBounces
    requires forall c :: c in cs ==> c.bounceLevel == bounce + 1
    ensures PoolWeight(cs, bounce + 1, maxBounces) <= maxBounces - bounce
  {
    if |cs| == 1 {
      assert cs[0] in cs;
      assert cs[..0] == [];
    }
  }

  /**
    With at most one child per hit, a level's segments plus the weight of
    the children it spawns fit in the weight the level uses up: a ray cast
    at level `bounce` gives up `maxBounces - bounce + 1`, and spends one on
    its segment and at most `maxBounces - bounce` on its child.
   */
  lemma {:induction false} LevelWithinWeight(pool: seq<Ray>, cast: Ray -> Option<Hit>, bounce: int, maxBounces: int,
                                             opts: Options, scatter: (Vector, nat) -> Vector)
    requires ChildCount(opts) <= 1 && bounce <= maxBounces
    ensures var st := LevelStep(pool, cast, bounce, opts, scatter);
      |st.segments| + PoolWeight(st.children, bounce + 1, maxBounces) + PoolWeight(pool, bounce + 1, maxBounces)
        <= PoolWeight(pool, bounce, maxBounces)
  {
    if |pool| > 0 {
      var init, r := pool[..|pool| - 1], pool[|pool| - 1];
      var prev := LevelStep(init, cast, bounce, opts, scatter);
      var st := LevelStep(pool, cast, bounce, opts, scatter);
      LevelWithinWeight(init, cast, bounce, maxBounces, opts, scatter);
      assert PoolWeight(pool, bounce, maxBounces) == PoolWeight(init, bounce, maxBounces) + Weight(r, bounce, maxBounces);
      assert PoolWeight(pool, bounce + 1, maxBounces) == PoolWeight(init, bounce + 1, maxBounces) + Weight(r, bounce + 1, maxBounces);
      if Casts(r, cast, bounce) {
        var cs := Children(r, cast(r).value, opts, scatter);
        assert |st.segments| == |prev.segments| + 1 && st.children == prev.children + cs;
        assert PoolWeight(st.children, bounce + 1, maxBounces) <= PoolWeight(prev.children, bounce + 1, maxBounces) + maxBounces - bounce by {
          PoolWeightAppend(prev.children, cs, bounce + 1, maxBounces);
          SingleChildWeight(cs, bounce, maxBounces);
        }
      } else {
        assert st == prev;
      }
    }
  }

  /**
    With at most one child per hit, the trace from level `bounce` records
    no more segments than the pool's weight.
   */
  lemma {:induction false} SegmentsWithinWeight(pool: seq<Ray>, cast: Ray -> Option<Hit>, bounce: int, maxBounces: int,
                                                opts: Options, scatter: (Vector, nat) -> Vector)
    requires ChildCount(opts) <= 1
    ensures |TraceFrom(pool, cast, bounce, maxBounces, opts, scatter).segments| <= PoolWeight(pool, bounce, maxBounces)
    decreases LevelsLeft(bounce, maxBounces)
  {
    if bounce <= maxBounces {
      var st := LevelStep(pool, cast, bounce, opts, scatter);
      var rest := TraceFrom(pool + st.children, cast, bounce + 1, maxBounces, opts, scatter);
      assert TraceFrom(pool, cast, bounce, maxBounces, opts, scatter).segments == st.segments + rest.segments;
      SegmentsWithinWeight(pool + st.children, cast, bounce + 1, maxBounces, opts, scatter);
      PoolWeightAppend(pool, st.children, bounce + 1, maxBounces);
      LevelWithinWeight(pool, cast, bounce, maxBounces, opts, scatter);
    }
  }

  /**
    The worker's trace records at most `|initial| * (maxBounces + 1)`
    segments: one per cast, and each initial ray leads to at most
    `maxBounces + 1` casts.
   */
  lemma TraceSegmentsBound(initial: seq<Ray>, walls: seq<Wall>, maxBounces: int)
    requires maxBounces >= 0
    ensures |TraceSegments(initial, walls, maxBounces)| <= |initial| * (maxBounces + 1)
  {
    SegmentsWithinWeight(initial, NearestCast(walls), 0, maxBounces, WorkerOptions, NoScatter);
    InitialWeight(initial, maxBounces);
  }
}
