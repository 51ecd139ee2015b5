/** Facts about sequences that the proofs use at specific types. */
module Sequences {
  /** Concatenation is associative; stated once so that proofs can use it on large
      terms without the solver proving it element by element. */
  lemma ConcatAssoc<T>(x: seq<T>, y: seq<T>, z: seq<T>)
    ensures x + (y + z) == (x + y) + z
  {
  }
}
