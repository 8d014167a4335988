/** Facts about sequences that the other modules call on explicitly. */
module Seqs {

  /** Concatenation regrouped, stated once so that it is used only where called. */
  lemma AppendAssoc<T>(a: seq<T>, b: seq<T>, c: seq<T>)
    ensures a + (b + c) == (a + b) + c
  {
  }
}
