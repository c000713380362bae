/**
  The "closest so far" scan shared by `Ray.castAndDraw` and the worker's
  `Ray.cast`: walk the candidates left to right, keep a running bound
  (`Infinity` or `maxDist` at the start) and take a candidate only when its
  key is strictly below the bound, which then becomes its key.

  A candidate's key is `None` when it does not qualify at all (no hit, or a
  hit the caller rejects), otherwise `Some(distance)`.
 */
module Selection {
  import opened Wrappers

  /** A qualifying key strictly below the bound; `None` as bound is `Infinity`. */
  predicate Below(k: Option<real>, bound: Option<real>)
  {
    k.Some? && (bound.None? || k.value < bound.value)
  }

  /**
    The index the scan ends with: a qualifying key below the initial bound
    that is no larger than any other such key and strictly smaller than
    every such key before it (the strict `<` keeps the first of equal
    keys). `None` exactly when no key is below the bound.
   */
  function FirstMin(keys: seq<Option<real>>, bound: Option<real>): (r: Option<nat>)
    ensures r.Some? ==> r.value < |keys| && Below(keys[r.value], bound)
    ensures r.None? <==> forall i :: 0 <= i < |keys| ==> !Below(keys[i], bound)
    ensures r.Some? ==> forall i :: 0 <= i < |keys| && Below(keys[i], bound) ==> keys[r.value].value <= keys[i].value
    ensures r.Some? ==> forall i :: 0 <= i < r.value && Below(keys[i], bound) ==> keys[r.value].value < keys[i].value
  {
    if |keys| == 0 then
      None
    else
      var prev := FirstMin(keys[..|keys| - 1], bound);
      var running := if prev.Some? then keys[prev.value] else bound;
      if Below(keys[|keys| - 1], running) then Some(|keys| - 1) else prev
  }

  /**
    The contract of `FirstMin` pins its result down: any index with the
    three properties (below the bound, minimal, strictly below every
    earlier qualifying key) is the one it returns.
   */
  lemma FirstMinUnique(keys: seq<Option<real>>, bound: Option<real>, j: nat)
    requires j < |keys| && Below(keys[j], bound)
    requires forall i :: 0 <= i < |keys| && Below(keys[i], bound) ==> keys[j].value <= keys[i].value
    requires forall i :: 0 <= i < j && Below(keys[i], bound) ==> keys[j].value < keys[i].value
    ensures FirstMin(keys, bound) == Some(j)
  {
  }

  /**
    One step of the scan: extending the candidates by one key either keeps
    the previous choice or takes the new key, exactly when it is below the
    running bound.
   */
  lemma FirstMinStep(keys: seq<Option<real>>, k: Option<real>, bound: Option<real>)
    ensures var prev := FirstMin(keys, bound);
            var running := if prev.Some? then keys[prev.value] else bound;
            FirstMin(keys + [k], bound) == if Below(k, running) then Some(|keys|) else prev
  {
    assert (keys + [k])[..|keys|] == keys;
  }
}
