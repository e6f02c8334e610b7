/** Small facts about sequences that the queue and session proofs rest on. */
module Seqs {
  /** Concatenation regroups freely. */
  lemma ConcatAssoc<T>(a: seq<T>, b: seq<T>, c: seq<T>)
    ensures (a + b) + c == a + (b + c)
  {
  }

  /** A split of `s` is its prefix and suffix at the split point. */
  lemma PrefixSuffix<T>(a: seq<T>, b: seq<T>, s: seq<T>)
    requires a + b == s
    ensures a == s[..|a|] && b == s[|a|..]
  {
  }
}
