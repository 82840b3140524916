/**
  Ordering rooms by confidence, highest first, the way Python's stable
  `sorted(..., key=confidence, reverse=True)` does: rooms of equal
  confidence keep their input order.
 */
module Ranking {
  import opened Seqs
  import opened Rooms

  /** Confidence never increases along the sequence. */
  predicate SortedDesc(s: seq<Room>) {
    forall i, j :: 0 <= i < j < |s| ==> s[i].confidence >= s[j].confidence
  }

  /** The rooms of `s` whose confidence is exactly `c`, in their order in `s`. */
  function WithConfidence(s: seq<Room>, c: real): (r: seq<Room>)
    ensures forall i :: 0 <= i < |r| ==> r[i].confidence == c
    decreases |s|
  {
    if s == [] then []
    else if s[0].confidence == c then [s[0]] + WithConfidence(s[1..], c)
    else WithConfidence(s[1..], c)
  }

  /** `r` is the stable reordering of `s` by descending confidence: within
      each confidence the rooms appear exactly as in `s`. Together with
      sortedness this pins the order down completely (`StableSortUnique`). */
  ghost predicate StableFor(r: seq<Room>, s: seq<Room>) {
    forall c :: WithConfidence(r, c) == WithConfidence(s, c)
  }

  /** Puts `x` in front of the first room of `s` whose confidence is not
      above its own; `x` stands for a room that came before all of `s`. */
  function Insert(x: Room, s: seq<Room>): (r: seq<Room>)
    ensures multiset(r) == multiset([x] + s)
    decreases |s|
  {
    if s == [] || x.confidence >= s[0].confidence then [x] + s
    else
      assert s == [s[0]] + s[1..];
      [s[0]] + Insert(x, s[1..])
  }

  /** No room of `s` has confidence above `c`. */
  predicate AtMost(s: seq<Room>, c: real) {
    forall i :: 0 <= i < |s| ==> s[i].confidence <= c
  }

  lemma {:induction false} InsertAtMost(x: Room, s: seq<Room>, c: real)
    requires AtMost(s, c) && x.confidence <= c
    ensures AtMost(Insert(x, s), c)
    decreases |s|
  {
    if s != [] && x.confidence < s[0].confidence {
      InsertAtMost(x, s[1..], c);
    }
  }

  /** Inserting into a sorted sequence keeps it sorted. */
  lemma {:induction false} InsertSorted(x: Room, s: seq<Room>)
    requires SortedDesc(s)
    ensures SortedDesc(Insert(x, s))
    decreases |s|
  {
    if s == [] || x.confidence >= s[0].confidence {
    } else {
      var t := Insert(x, s[1..]);
      InsertSorted(x, s[1..]);
      InsertAtMost(x, s[1..], s[0].confidence);
      var r := [s[0]] + t;
      assert r == Insert(x, s);
      forall i, j | 0 <= i < j < |r|
        ensures r[i].confidence >= r[j].confidence
      {
        assert r[j] == t[j - 1];
        if i > 0 {
          assert r[i] == t[i - 1];
        }
      }
    }
  }

  /** Insertion keeps every confidence group in the order "`x` first, then
      the rest of `s`". */
  lemma {:induction false} InsertStable(x: Room, s: seq<Room>, c: real)
    ensures WithConfidence(Insert(x, s), c) == WithConfidence([x] + s, c)
    decreases |s|
  {
    if s == [] || x.confidence >= s[0].confidence {
    } else {
      InsertStable(x, s[1..], c);
      var r := Insert(x, s);
      assert r[1..] == Insert(x, s[1..]);
      assert ([x] + s)[1..] == s;
      assert ([x] + s[1..])[1..] == s[1..];
    }
  }

  /** The stable descending sort: a permutation of `s`, sorted by
      descending confidence, with ties in input order. */
  function SortByConfidence(s: seq<Room>): (r: seq<Room>)
    ensures multiset(r) == multiset(s) && |r| == |s|
    ensures SortedDesc(r)
    decreases |s|
  {
    if s == [] then []
    else
      var t := SortByConfidence(s[1..]);
      assert s == [s[0]] + s[1..];
      InsertSorted(s[0], t);
      var r := Insert(s[0], t);
      assert |r| == |multiset(r)|;
      r
  }

  /** Each confidence group of the sorted sequence is that group of the
      input, in input order: the sort is stable. */
  lemma {:induction false} SortStable(s: seq<Room>)
    ensures StableFor(SortByConfidence(s), s)
    decreases |s|
  {
    if s != [] {
      SortStable(s[1..]);
      var t := SortByConfidence(s[1..]);
      assert s == [s[0]] + s[1..];
      forall c
        ensures WithConfidence(SortByConfidence(s), c) == WithConfidence(s, c)
      {
        InsertStable(s[0], t, c);
        assert ([s[0]] + t)[1..] == t;
      }
    }
  }

  /** Sorting an already sorted sequence leaves it as it is. */
  lemma {:induction false} SortSorted(s: seq<Room>)
    requires SortedDesc(s)
    ensures SortByConfidence(s) == s
    decreases |s|
  {
    if s != [] {
      SortSorted(s[1..]);
    }
  }

  /** Deleting elements from a sorted sequence leaves it sorted. */
  lemma {:induction false} SubseqSorted(a: seq<Room>, b: seq<Room>)
    requires Subseq(a, b) && SortedDesc(b)
    ensures SortedDesc(a)
    decreases |b|
  {
    if a == [] {
    } else if a[0] == b[0] && Subseq(a[1..], b[1..]) {
      SubseqSorted(a[1..], b[1..]);
      SubseqMultiset(a[1..], b[1..]);
      forall j | 0 < j < |a|
        ensures a[0].confidence >= a[j].confidence
      {
        assert a[j] in multiset(a[1..]);
        assert a[j] in multiset(b[1..]);
        var k :| 0 <= k < |b[1..]| && b[1..][k] == a[j];
        assert b[k + 1] == a[j];
      }
    } else {
      SubseqSorted(a, b[1..]);
    }
  }

  /** Leading room of a non-empty sequence with confidence `c` is the
      first element of its `c`-group. */
  lemma WithConfidenceHead(s: seq<Room>)
    requires s != []
    ensures WithConfidence(s, s[0].confidence) != []
    ensures WithConfidence(s, s[0].confidence)[0] == s[0]
  {
  }

  /** Dropping the head removes it from its own group and leaves the
      others untouched. */
  lemma WithConfidenceTail(s: seq<Room>, c: real)
    requires s != []
    ensures c == s[0].confidence ==> WithConfidence(s[1..], c) == WithConfidence(s, c)[1..]
    ensures c != s[0].confidence ==> WithConfidence(s[1..], c) == WithConfidence(s, c)
  {
  }

  /** A room with confidence `c` lies in `s` exactly when `s` has a
      `c`-group containing it. */
  lemma {:induction false} WithConfidenceMembers(s: seq<Room>, x: Room)
    ensures x in WithConfidence(s, x.confidence) <==> x in s
    decreases |s|
  {
    if s != [] {
      WithConfidenceMembers(s[1..], x);
      assert s == [s[0]] + s[1..];
    }
  }

  /** The stable descending sort is the only sorted arrangement that keeps
      each confidence group in input order. */
  lemma {:induction false} StableSortUnique(s: seq<Room>, r: seq<Room>)
    requires SortedDesc(r) && StableFor(r, s)
    ensures r == SortByConfidence(s)
  {
    SortStable(s);
    SortedStableEqual(r, SortByConfidence(s));
  }

  /** Two sorted sequences with the same confidence groups are equal. */
  lemma {:induction false} SortedStableEqual(r: seq<Room>, q: seq<Room>)
    requires SortedDesc(r) && SortedDesc(q)
    requires forall c :: WithConfidence(r, c) == WithConfidence(q, c)
    ensures r == q
    decreases |r|
  {
    if r == [] {
      if q != [] {
        WithConfidenceHead(q);
        assert false;
      }
    } else if q == [] {
      WithConfidenceHead(r);
      assert false;
    } else {
      var m, m' := r[0].confidence, q[0].confidence;
      WithConfidenceHead(r);
      WithConfidenceHead(q);
      // The top confidence of each occurs in the other, so they agree.
      assert m <= m' by {
        WithConfidenceMembers(q, r[0]);
        assert r[0] in WithConfidence(q, m);
        var k :| 0 <= k < |q| && q[k] == r[0];
      }
      assert m' <= m by {
        WithConfidenceMembers(r, q[0]);
        assert q[0] in WithConfidence(r, m');
        var k :| 0 <= k < |r| && r[k] == q[0];
      }
      assert r[0] == q[0];
      forall c
        ensures WithConfidence(r[1..], c) == WithConfidence(q[1..], c)
      {
        WithConfidenceTail(r, c);
        WithConfidenceTail(q, c);
      }
      SortedStableEqual(r[1..], q[1..]);
      assert r == [r[0]] + r[1..];
      assert q == [q[0]] + q[1..];
    }
  }
}
