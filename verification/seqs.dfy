/** Facts about sequences that the proofs use in many places. */
module Seqs {

  /** Concatenation is associative. */
  lemma Assoc<T>(a: seq<T>, b: seq<T>, c: seq<T>)
    ensures a + b + c == a + (b + c)
  {
  }

  /** A slice that lies within a prefix reads the same from the prefix. */
  lemma SliceOfPrefix<T>(s: seq<T>, n: int, i: int, j: int)
    requires 0 <= i <= j <= n <= |s|
    ensures s[..n][i..j] == s[i..j]
  {
  }
}
