/** Small facts about sequences, stated once for every element type. */
module Seqs {
  /** The prefix of length `i + 1` is the prefix of length `i` and the element at `i`. */
  lemma PrefixSnoc<T>(s: seq<T>, i: nat)
    requires i < |s|
    ensures s[..i + 1] == s[..i] + [s[i]]
  {
  }

  lemma AppendSnoc<T>(a: seq<T>, b: seq<T>, x: T)
    ensures a + b + [x] == a + (b + [x])
  {
  }

  /** Dropping the last element of `a + b` drops the last element of `b`. */
  lemma AppendDropLast<T>(a: seq<T>, b: seq<T>)
    requires b != []
    ensures (a + b)[..|a + b| - 1] == a + b[..|b| - 1]
  {
  }
}
