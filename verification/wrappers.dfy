/** Optional values, standing in for Java's null references, and a fact about sequences
    that several modules use. */
module Wrappers {

  datatype Option<+T> = None | Some(value: T)

  /** Concatenation is associative; stated once so that proofs can regroup a join. */
  lemma SeqAssoc<T>(a: seq<T>, b: seq<T>, c: seq<T>)
    ensures a + b + c == a + (b + c)
  {
  }

}
