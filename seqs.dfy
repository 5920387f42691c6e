/** Facts about sequences that loops building their results step by step rely on. */
module Seqs {
  /** Concatenation can be regrouped. */
  lemma AppendAssoc<T>(a: seq<T>, b: seq<T>, c: seq<T>)
    ensures a + (b + c) == (a + b) + c
  {
  }

  /** Dropping the last element keeps the others where they were. */
  lemma InitAgrees<T>(s: seq<T>)
    requires s != []
    ensures forall k :: 0 <= k < |s| - 1 ==> s[..|s| - 1][k] == s[k]
  {
  }
}
