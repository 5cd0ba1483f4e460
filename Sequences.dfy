/** Facts about sequence concatenation shared by both modules. */
module Sequences {
  /** Concatenation is associative; stated once so callers can regroup at a chosen point. */
  lemma AppendAssoc<T>(a: seq<T>, b: seq<T>, c: seq<T>)
    ensures a + (b + c) == (a + b) + c
  {
  }
}
