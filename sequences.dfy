/** Generic facts about sequences that several modules rely on. */
module Sequences {

  /** Concatenation can be regrouped. */
  lemma AppendAssociative<T>(a: seq<T>, b: seq<T>, c: seq<T>)
    ensures (a + b) + c == a + (b + c)
  {
  }
}
