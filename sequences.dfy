/** Facts about sequence slicing and concatenation that the proofs of the
    other modules use in small steps. */
module Sequences {

  /** A non-empty sequence is its front followed by its last element. */
  lemma LastSplit<T>(s: seq<T>)
    requires s != []
    ensures s == s[..|s| - 1] + [s[|s| - 1]]
  {
  }

  lemma AroundIndex<T>(b: seq<T>, j: nat)
    requires j < |b|
    ensures b == b[..j] + [b[j]] + b[j + 1..]
  {
  }

  lemma AppendAssoc<T>(a: seq<T>, b: seq<T>, c: seq<T>)
    ensures a + b + c == a + (b + c)
  {
  }

  lemma WholePrefix<T>(s: seq<T>)
    ensures s[..|s|] == s
  {
  }

  lemma MultisetMiddle<T>(l: seq<T>, y: T, r: seq<T>)
    ensures multiset(l + [y] + r) == multiset(l + r) + multiset{y}
  {
  }

  /** The prefix of length `n + 1` is the prefix of length `n` and the
      element at `n`. */
  lemma PrefixSnoc<T>(s: seq<T>, n: nat)
    requires n < |s|
    ensures s[..n + 1] == s[..n] + [s[n]]
  {
  }
}
