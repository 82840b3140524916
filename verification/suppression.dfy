/**
  Greedy, confidence-ordered suppression of overlapping detections: rooms
  are visited from highest to lowest confidence and a room is kept only if
  its IoU with every room kept so far is at most the threshold.
 */
module Suppression {
  import opened Geometry
  import opened Seqs
  import opened Rooms
  import opened Ranking

  /** `room` overlaps no room of `kept` beyond threshold `t`. */
  predicate Admits(kept: seq<Room>, room: Room, t: real) {
    forall k :: 0 <= k < |kept| ==> Iou(room.bboxPixels, kept[k].bboxPixels) <= t
  }

  /** No two rooms at different positions overlap beyond threshold `t`. */
  predicate NonOverlapping(s: seq<Room>, t: real) {
    forall i, j :: 0 <= i < |s| && 0 <= j < |s| && i != j ==>
      Iou(s[i].bboxPixels, s[j].bboxPixels) <= t
  }

  /** The inner scan over the kept rooms, stopping at the first one whose
      IoU with `room` exceeds `t`. True exactly when `kept` does not admit
      `room`. */
  function Overlaps(room: Room, kept: seq<Room>, t: real): (b: bool)
    ensures b <==> !Admits(kept, room, t)
    decreases |kept|
  {
    if kept == [] then false
    else if Iou(room.bboxPixels, kept[0].bboxPixels) > t then true
    else
      assert forall k :: 1 <= k < |kept| ==> kept[k] == kept[1..][k - 1];
      Overlaps(room, kept[1..], t)
  }

  /** The default IoU threshold of the suppression step. */
  const DefaultIouThreshold: real := 0.3

  /** The outer loop: visits `pending` in order, extending `kept`. It only
      appends, at most one room per pending room. */
  function Sweep(pending: seq<Room>, kept: seq<Room>, t: real): (r: seq<Room>)
    ensures |kept| <= |r| <= |kept| + |pending|
    ensures r[..|kept|] == kept
    decreases |pending|
  {
    if pending == [] then kept
    else if Overlaps(pending[0], kept, t) then Sweep(pending[1..], kept, t)
    else
      var kept' := kept + [pending[0]];
      var r := Sweep(pending[1..], kept', t);
      assert r[..|kept|] == r[..|kept'|][..|kept|];
      r
  }

  /** Overlap removal as a whole: empty input gives empty output; otherwise
      the result is a selection, in order, from the rooms sorted by
      descending confidence, it always holds the most confident room, and
      none of its rooms overlap beyond `t`. */
  function RemoveOverlapping(rooms: seq<Room>, t: real): (r: seq<Room>)
    ensures rooms == [] ==> r == []
    ensures Subseq(r, SortByConfidence(rooms))
    ensures multiset(r) <= multiset(rooms) && |r| <= |rooms|
    ensures rooms != [] ==> r != [] && r[0] == SortByConfidence(rooms)[0]
    ensures SortedDesc(r)
    ensures NonOverlapping(r, t)
  {
    if rooms == [] then rooms
    else
      var sorted := SortByConfidence(rooms);
      SweepFromEmpty(sorted, t);
      Sweep(sorted, [], t)
  }

  /** The source's inner loop: scans the kept rooms and stops at the first
      one `room` overlaps beyond the threshold. */
  method ScanKept(room: Room, kept: seq<Room>, iouThreshold: real) returns (overlaps: bool)
    ensures overlaps <==> !Admits(kept, room, iouThreshold)
    ensures overlaps == Overlaps(room, kept, iouThreshold)
  {
    overlaps := false;
    for j := 0 to |kept|
      invariant Admits(kept[..j], room, iouThreshold)
    {
      if Iou(room.bboxPixels, kept[j].bboxPixels) > iouThreshold {
        overlaps := true;
        return;
      }
      assert kept[..j + 1] == kept[..j] + [kept[j]];
    }
    assert kept[..|kept|] == kept;
  }

  /** The source's outer loop: visit the rooms in the given order and keep
      each one the scan finds no overlap for. */
  method GreedyPass(sorted: seq<Room>, iouThreshold: real) returns (kept: seq<Room>)
    ensures kept == Sweep(sorted, [], iouThreshold)
  {
    kept := [];
    for i := 0 to |sorted|
      invariant Sweep(sorted[i..], kept, iouThreshold) == Sweep(sorted, [], iouThreshold)
    {
      var room := sorted[i];
      var overlaps := ScanKept(room, kept, iouThreshold);
      if !overlaps {
        kept := kept + [room];
      }
      assert sorted[i..][1..] == sorted[i + 1..];
    }
    assert sorted[|sorted|..] == [];
  }

  /** The source's procedure step by step: return an empty list as it is,
      otherwise sort and make the greedy pass. Computes exactly
      `RemoveOverlapping`. */
  method RemoveOverlappingRooms(rooms: seq<Room>, iouThreshold: real := DefaultIouThreshold) returns (kept: seq<Room>)
    ensures kept == RemoveOverlapping(rooms, iouThreshold)
    ensures NonOverlapping(kept, iouThreshold)
  {
    if rooms == [] {
      return rooms;
    }
    var sorted := SortByConfidence(rooms);
    kept := GreedyPass(sorted, iouThreshold);
  }

  /** A sweep from nothing keeps, in order, a sorted selection of
      non-overlapping rooms that starts with the first pending room. */
  lemma SweepFromEmpty(sorted: seq<Room>, t: real)
    requires SortedDesc(sorted)
    ensures var r := Sweep(sorted, [], t);
      && Subseq(r, sorted)
      && multiset(r) <= multiset(sorted) && |r| <= |sorted|
      && (sorted != [] ==> r != [] && r[0] == sorted[0])
      && SortedDesc(r)
      && NonOverlapping(r, t)
  {
    var r := Sweep(sorted, [], t);
    SweepShape(sorted, [], t);
    assert r[0..] == r;
    if sorted != [] {
      assert [] + [sorted[0]] == [sorted[0]];
      assert r == Sweep(sorted[1..], [sorted[0]], t);
      SweepShape(sorted[1..], [sorted[0]], t);
    }
    SubseqMultiset(r, sorted);
    SubseqSorted(r, sorted);
    SweepNonOverlapping(sorted, [], t);
  }

  /** The result of a sweep is the starting `kept` followed by a selection,
      in order, from `pending`. */
  lemma {:induction false} SweepShape(pending: seq<Room>, kept: seq<Room>, t: real)
    ensures |Sweep(pending, kept, t)| >= |kept|
    ensures Sweep(pending, kept, t)[..|kept|] == kept
    ensures Subseq(Sweep(pending, kept, t)[|kept|..], pending)
    decreases |pending|
  {
    var r := Sweep(pending, kept, t);
    if pending == [] {
    } else if Overlaps(pending[0], kept, t) {
      SweepShape(pending[1..], kept, t);
    } else {
      var kept' := kept + [pending[0]];
      SweepShape(pending[1..], kept', t);
      assert r[..|kept|] == r[..|kept'|][..|kept|];
      var tail := r[|kept|..];
      assert tail[0] == pending[0];
      assert tail[1..] == r[|kept'|..];
    }
  }

  /** A sweep started from non-overlapping rooms ends with non-overlapping
      rooms. */
  lemma {:induction false} SweepNonOverlapping(pending: seq<Room>, kept: seq<Room>, t: real)
    requires NonOverlapping(kept, t)
    ensures NonOverlapping(Sweep(pending, kept, t), t)
    decreases |pending|
  {
    if pending == [] {
    } else if Overlaps(pending[0], kept, t) {
      SweepNonOverlapping(pending[1..], kept, t);
    } else {
      var x := pending[0];
      var kept' := kept + [x];
      forall i, j | 0 <= i < |kept'| && 0 <= j < |kept'| && i != j
        ensures Iou(kept'[i].bboxPixels, kept'[j].bboxPixels) <= t
      {
        if i == |kept| {
          assert kept'[j] == kept[j];
        } else if j == |kept| {
          assert kept'[i] == kept[i];
          IouSymmetric(x.bboxPixels, kept[i].bboxPixels);
        } else {
          assert kept'[i] == kept[i] && kept'[j] == kept[j];
        }
      }
      SweepNonOverlapping(pending[1..], kept', t);
    }
  }

  /** Appending one more room to the input of a sweep decides that room
      alone: it is kept exactly when the rooms kept so far admit it. */
  lemma {:induction false} SweepSnoc(pending: seq<Room>, x: Room, kept: seq<Room>, t: real)
    ensures Sweep(pending + [x], kept, t) ==
      var p := Sweep(pending, kept, t);
      if Admits(p, x, t) then p + [x] else p
    decreases |pending|
  {
    if pending == [] {
      assert ([x])[1..] == [];
    } else {
      assert (pending + [x])[1..] == pending[1..] + [x];
      if Overlaps(pending[0], kept, t) {
        SweepSnoc(pending[1..], x, kept, t);
      } else {
        SweepSnoc(pending[1..], x, kept + [pending[0]], t);
      }
    }
  }

  /** The rooms kept after visiting the first `i` rooms in confidence order. */
  function KeptAfter(rooms: seq<Room>, i: nat, t: real): seq<Room>
    requires i <= |rooms|
  {
    Sweep(SortByConfidence(rooms)[..i], [], t)
  }

  /** The `i`-th room in confidence order is kept exactly when its IoU with
      every room kept before it is at most `t`. */
  lemma KeptExactlyWhenAdmitted(rooms: seq<Room>, i: nat, t: real)
    requires i < |rooms|
    ensures var s := SortByConfidence(rooms);
      var p := KeptAfter(rooms, i, t);
      KeptAfter(rooms, i + 1, t) == if Admits(p, s[i], t) then p + [s[i]] else p
  {
    SweepPrefixStep(SortByConfidence(rooms), i, t);
  }

  lemma SweepPrefixStep(s: seq<Room>, i: nat, t: real)
    requires i < |s|
    ensures var p := Sweep(s[..i], [], t);
      Sweep(s[..i + 1], [], t) == if Admits(p, s[i], t) then p + [s[i]] else p
  {
    assert s[..i + 1] == s[..i] + [s[i]];
    SweepSnoc(s[..i], s[i], [], t);
  }

  /** After the last room the kept rooms are the result. */
  lemma KeptAfterAll(rooms: seq<Room>, t: real)
    ensures KeptAfter(rooms, |rooms|, t) == RemoveOverlapping(rooms, t)
  {
    var s := SortByConfidence(rooms);
    assert s[..|rooms|] == s;
  }

  /** Rooms that already pairwise respect the threshold all survive a sweep. */
  lemma {:induction false} SweepKeepsNonOverlapping(pending: seq<Room>, kept: seq<Room>, t: real)
    requires NonOverlapping(kept + pending, t)
    ensures Sweep(pending, kept, t) == kept + pending
    decreases |pending|
  {
    if pending != [] {
      var all := kept + pending;
      var x := pending[0];
      assert Admits(kept, x, t) by {
        forall k | 0 <= k < |kept|
          ensures Iou(x.bboxPixels, kept[k].bboxPixels) <= t
        {
          assert all[|kept|] == x && all[k] == kept[k];
        }
      }
      assert kept + [x] + pending[1..] == all;
      SweepKeepsNonOverlapping(pending[1..], kept + [x], t);
    }
  }

  /** Running overlap removal on its own output changes nothing. */
  lemma RemoveOverlappingIdempotent(rooms: seq<Room>, t: real)
    ensures RemoveOverlapping(RemoveOverlapping(rooms, t), t) == RemoveOverlapping(rooms, t)
  {
    var r := RemoveOverlapping(rooms, t);
    if r != [] {
      assert SortedDesc(r) && NonOverlapping(r, t);
      SortSorted(r);
      assert [] + r == r;
      SweepKeepsNonOverlapping(r, [], t);
      assert RemoveOverlapping(r, t) == Sweep(r, [], t);
    }
  }
}
