/** Order-preserving selection, the relation every filtered or pruned list of the
    task store has to the list it came from. */
module Seqs {

  /** r is a subsequence of s: the elements of r occur in s, in the same order. */
  predicate IsSubseq<T(==)>(r: seq<T>, s: seq<T>)
    decreases |s|
  {
    r == [] || (s != [] && ((r[0] == s[0] && IsSubseq(r[1..], s[1..])) || IsSubseq(r, s[1..])))
  }

  /** Leaving out the element at index k keeps the others in their order. */
  lemma {:induction false} DropOneIsSubseq<T>(s: seq<T>, k: nat)
    requires k < |s|
    ensures IsSubseq(s[..k] + s[k + 1..], s)
    decreases k
  {
    var r := s[..k] + s[k + 1..];
    if k == 0 {
      assert r == s[1..];
      SelfIsSubseq(s[1..]);
    } else {
      DropOneIsSubseq(s[1..], k - 1);
      assert r[1..] == s[1..][..k - 1] + s[1..][k..];
    }
  }

  lemma {:induction false} SelfIsSubseq<T>(s: seq<T>)
    ensures IsSubseq(s, s)
    decreases |s|
  {
    if s != [] {
      SelfIsSubseq(s[1..]);
    }
  }
}
