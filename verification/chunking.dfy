/**
  The partition of `traceRaysMultiThread`: the rays are cut into `THREADS`
  consecutive slices of `chunkSize = ceil(n / THREADS)` rays, one per
  worker, with `rays.slice(index * chunkSize, (index + 1) * chunkSize)`.
  The last slices may be short or empty.
 */
module Chunking {
  import opened Arithmetic

  /** `navigator.hardwareConcurrency || 4`: a missing or zero count falls back to 4. */
  function ThreadCount(hardwareConcurrency: nat): (threads: nat)
    ensures threads > 0
    ensures hardwareConcurrency > 0 ==> threads == hardwareConcurrency
  {
    if hardwareConcurrency == 0 then 4 else hardwareConcurrency
  }

  /** `Math.ceil(n / threads)`: the least size whose `threads` chunks hold `n` items. */
  function ChunkSize(n: nat, threads: nat): (size: nat)
    requires threads > 0
    ensures size * threads >= n
    ensures size > 0 ==> (size - 1) * threads < n
  {
    (n + threads - 1) / threads
  }

  function Min(a: int, b: int): int
  {
    if a <= b then a else b
  }

  /**
    `Array.prototype.slice` for non-negative bounds: both are clamped to the
    length, and an end before the start gives the empty slice.
   */
  function Slice<T>(s: seq<T>, start: nat, end: nat): (r: seq<T>)
    ensures |r| <= |s|
    ensures start <= end <= |s| ==> r == s[start..end]
    ensures start <= |s| <= end ==> r == s[start..]
    ensures end <= start || |s| <= start ==> r == []
    ensures start <= end ==> |r| <= end - start
  {
    var lo, hi := Min(start, |s|), Min(end, |s|);
    if hi <= lo then [] else s[lo..hi]
  }

  /** `index * chunkSize`: the first item of the slice of worker `index`. */
  function Offset(index: nat, size: nat): nat
  {
    index * size
  }

  /** The slice the worker with index `i` receives. */
  function Chunk<T>(s: seq<T>, size: nat, i: nat): seq<T>
  {
    Slice(s, Offset(i, size), Offset(i + 1, size))
  }

  /** The slices of the first `count` workers, in worker order. */
  function Chunks<T>(s: seq<T>, size: nat, count: nat): (cs: seq<seq<T>>)
    ensures |cs| == count
    ensures forall i :: 0 <= i < count ==> cs[i] == Chunk(s, size, i)
  {
    if count == 0 then [] else Chunks(s, size, count - 1) + [Chunk(s, size, count - 1)]
  }

  /** The concatenation of a sequence of sequences. */
  function Flatten<T>(ss: seq<seq<T>>): seq<T>
  {
    if |ss| == 0 then [] else Flatten(ss[..|ss| - 1]) + ss[|ss| - 1]
  }

  /**
    The slice of the last of `count` workers runs from item `(count - 1) * size`
    to item `count * size`, both clamped to the length.
   */
  lemma LastChunkBounds<T>(s: seq<T>, size: nat, count: nat) returns (lo: nat, hi: nat)
    requires count > 0
    ensures lo == Min(Offset(count - 1, size), |s|) && hi == Min(Offset(count, size), |s|)
    ensures lo <= hi <= |s| && Chunk(s, size, count - 1) == s[lo..hi]
  {
    MulSucc(size, count - 1);
    lo, hi := Min(Offset(count - 1, size), |s|), Min(Offset(count, size), |s|);
  }

  /** The first `count` slices, put back together, are the first `count * size` items. */
  ghost predicate JoinsToPrefix<T>(s: seq<T>, size: nat, count: nat)
  {
    Flatten(Chunks(s, size, count)) == s[..Min(Offset(count, size), |s|)]
  }

  /** Every number of slices joins to the prefix it covers. */
  lemma {:induction false} ChunksPrefix<T>(s: seq<T>, size: nat, count: nat)
    ensures JoinsToPrefix(s, size, count)
  {
    if count > 0 {
      ChunksPrefix(s, size, count - 1);
      ChunksPrefixStep(s, size, count);
    }
  }

  /** One more slice extends the joined prefix up to the end of that slice. */
  lemma ChunksPrefixStep<T>(s: seq<T>, size: nat, count: nat)
    requires count > 0
    requires JoinsToPrefix(s, size, count - 1)
    ensures JoinsToPrefix(s, size, count)
  {
    var k := count - 1;
    var lo, hi := LastChunkBounds(s, size, count);
    assert Flatten(Chunks(s, size, count)) == Flatten(Chunks(s, size, k)) + s[lo..hi] by {
      var cs := Chunks(s, size, count);
      assert cs[..k] == Chunks(s, size, k);
      assert cs[k] == Chunk(s, size, k);
    }
    PrefixJoin(s, lo, hi);
  }

  lemma PrefixJoin<T>(s: seq<T>, lo: nat, hi: nat)
    requires lo <= hi <= |s|
    ensures s[..lo] + s[lo..hi] == s[..hi]
  {
  }

  /**
    The partition is exact: `threads` slices, none longer than `chunkSize`,
    that put back together in worker order give the rays unchanged.
   */
  lemma ChunksPartition<T>(s: seq<T>, threads: nat)
    requires threads > 0
    ensures var size := ChunkSize(|s|, threads);
            var cs := Chunks(s, size, threads);
      && |cs| == threads
      && Flatten(cs) == s
      && forall i :: 0 <= i < threads ==> |cs[i]| <= size
  {
    var size := ChunkSize(|s|, threads);
    ChunksPrefix(s, size, threads);
    CommuteCovers(size, threads, |s|);
    forall i | 0 <= i < threads
      ensures |Chunk(s, size, i)| <= size
    {
      ChunkLength(s, size, i);
    }
  }

  lemma CommuteCovers(size: nat, threads: nat, n: nat)
    requires size * threads >= n
    ensures Min(Offset(threads, size), n) == n
  {
  }

  /** No slice is longer than the chunk size. */
  lemma ChunkLength<T>(s: seq<T>, size: nat, i: nat)
    ensures |Chunk(s, size, i)| <= size
  {
    MulSucc(size, i);
  }
}
