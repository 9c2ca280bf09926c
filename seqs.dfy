/** Order-preserving subsequences. */
module Seqs {

  /** `r` can be obtained from `s` by deleting elements, keeping the order of
      the rest. */
  predicate IsSubsequence<T(==)>(r: seq<T>, s: seq<T>)
    decreases |s|
  {
    || r == []
    || (s != [] && ((r[0] == s[0] && IsSubsequence(r[1..], s[1..])) || IsSubsequence(r, s[1..])))
  }

  /** A prefix of a subsequence is a subsequence. */
  lemma {:induction false} SubsequencePrefix<T>(r: seq<T>, s: seq<T>, k: nat)
    requires IsSubsequence(r, s) && k <= |r|
    ensures IsSubsequence(r[..k], s)
    decreases |s|
  {
    if k > 0 {
      if r[0] == s[0] && IsSubsequence(r[1..], s[1..]) {
        SubsequencePrefix(r[1..], s[1..], k - 1);
        assert r[..k][1..] == r[1..][..k - 1];
      } else {
        SubsequencePrefix(r, s[1..], k);
      }
    }
  }
}
