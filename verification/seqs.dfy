/** Order-preserving selection from a sequence. */
module Seqs {

  /** `a` is obtained from `b` by deleting elements, keeping the order of
      the rest. */
  predicate Subseq<T(==)>(a: seq<T>, b: seq<T>)
    decreases |b|
  {
    if a == [] then true
    else if b == [] then false
    else (a[0] == b[0] && Subseq(a[1..], b[1..])) || Subseq(a, b[1..])
  }

  /** A subsequence takes each element at most as often as it occurs. */
  lemma {:induction false} SubseqMultiset<T>(a: seq<T>, b: seq<T>)
    requires Subseq(a, b)
    ensures multiset(a) <= multiset(b)
    ensures |a| <= |b|
    decreases |b|
  {
    if a == [] {
    } else if a[0] == b[0] && Subseq(a[1..], b[1..]) {
      SubseqMultiset(a[1..], b[1..]);
      assert a == [a[0]] + a[1..];
      assert b == [b[0]] + b[1..];
    } else {
      SubseqMultiset(a, b[1..]);
      assert b == [b[0]] + b[1..];
    }
  }

  /** Every sequence is a subsequence of itself. */
  lemma {:induction false} SubseqRefl<T>(a: seq<T>)
    ensures Subseq(a, a)
    decreases |a|
  {
    if a != [] {
      SubseqRefl(a[1..]);
    }
  }
}
