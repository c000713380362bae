/** Small facts about natural-number products used by the counting proofs. */
module Arithmetic {

  /** One more factor adds the other factor once, on either side. */
  lemma MulSucc(a: nat, n: nat)
    ensures a * (n + 1) == a * n + a
    ensures (n + 1) * a == n * a + a
  {
  }
}
