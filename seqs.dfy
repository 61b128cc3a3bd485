/** Small facts about sequences shared by the page lists of the tools. */
module Seqs {

  /** Concatenation is associative; stated once so that proofs can cite it. */
  lemma ConcatAssoc<T>(x: seq<T>, y: seq<T>, z: seq<T>)
    ensures x + (y + z) == (x + y) + z
  {
    assert |x + (y + z)| == |(x + y) + z|;
  }
}
