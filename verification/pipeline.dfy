/**
  The pure part of one detection request: drop low-confidence detections,
  build room records, remove overlapping rooms, number the survivors and
  assemble the response.
 */
module Pipeline {
  import opened Seqs
  import opened Rooms
  import opened Ranking
  import opened Suppression

  datatype Response = Response(imageSize: ImageSize, totalRooms: nat, rooms: seq<Room>)

  /** The request's defaults for the confidence and overlap thresholds. */
  const DefaultThreshold: real := 0.7
  const DefaultOverlapThreshold: real := 0.3

  /** The detections scoring at least `threshold`, in their original
      order. */
  function ConfidenceFilter(dets: seq<Detection>, threshold: real): (r: seq<Detection>)
    ensures Subseq(r, dets)
    ensures forall i :: 0 <= i < |r| ==> r[i].score >= threshold
    decreases |dets|
  {
    if dets == [] then []
    else
      var rest := ConfidenceFilter(dets[1..], threshold);
      if dets[0].score < threshold then rest
      else
        assert ([dets[0]] + rest)[1..] == rest;
        [dets[0]] + rest
  }

  /** Each detection scoring at least the threshold is passed on as often
      as it occurs in the input, and no other detection is. */
  lemma {:induction false} ConfidenceFilterCounts(dets: seq<Detection>, threshold: real, d: Detection)
    ensures multiset(ConfidenceFilter(dets, threshold))[d] ==
      if d.score >= threshold then multiset(dets)[d] else 0
    decreases |dets|
  {
    if dets != [] {
      ConfidenceFilterCounts(dets[1..], threshold, d);
      assert dets == [dets[0]] + dets[1..];
    }
  }

  /** A detection is passed on exactly when it scores at least the threshold. */
  lemma ConfidenceFilterMembers(dets: seq<Detection>, threshold: real, d: Detection)
    ensures d in ConfidenceFilter(dets, threshold) <==> d in dets && d.score >= threshold
  {
    ConfidenceFilterCounts(dets, threshold, d);
    var r := ConfidenceFilter(dets, threshold);
    assert d in r <==> multiset(r)[d] > 0;
    assert d in dets <==> multiset(dets)[d] > 0;
  }

  /** Filtering one more detection appends it or not, by its score alone. */
  lemma {:induction false} ConfidenceFilterSnoc(dets: seq<Detection>, d: Detection, threshold: real)
    ensures ConfidenceFilter(dets + [d], threshold) ==
      ConfidenceFilter(dets, threshold) + if d.score < threshold then [] else [d]
    decreases |dets|
  {
    if dets == [] {
      assert [d][1..] == [];
    } else {
      assert (dets + [d])[1..] == dets[1..] + [d];
      ConfidenceFilterSnoc(dets[1..], d, threshold);
    }
  }

  function RoomsOf(dets: seq<Detection>, size: ImageSize): (r: seq<Room>)
    ensures |r| == |dets|
    ensures forall i :: 0 <= i < |dets| ==> r[i] == ToRoom(dets[i], size)
  {
    seq(|dets|, i requires 0 <= i < |dets| => ToRoom(dets[i], size))
  }

  /** The rooms handed to overlap removal: one per detection that passes
      the filter, none more than there are detections. */
  function Candidates(dets: seq<Detection>, size: ImageSize, threshold: real): (r: seq<Room>)
    ensures |r| <= |dets|
    ensures forall i :: 0 <= i < |r| ==> r[i].confidence >= threshold
  {
    var f := ConfidenceFilter(dets, threshold);
    SubseqMultiset(f, dets);
    RoomsOf(f, size)
  }

  /** One more detection adds its room record at the end, or nothing. */
  lemma CandidatesSnoc(dets: seq<Detection>, d: Detection, size: ImageSize, threshold: real)
    ensures Candidates(dets + [d], size, threshold) ==
      Candidates(dets, size, threshold) + if d.score < threshold then [] else [ToRoom(d, size)]
  {
    ConfidenceFilterSnoc(dets, d, threshold);
    var f := ConfidenceFilter(dets, threshold);
    if d.score >= threshold {
      assert RoomsOf(f + [d], size) == RoomsOf(f, size) + [ToRoom(d, size)];
    }
  }

  /** The source's detection loop: skip a detection scoring below the
      threshold, otherwise append its room record. */
  method CollectCandidates(dets: seq<Detection>, size: ImageSize, threshold: real)
    returns (rooms: seq<Room>)
    ensures rooms == Candidates(dets, size, threshold)
    ensures forall i :: 0 <= i < |rooms| ==> rooms[i].confidence >= threshold
  {
    rooms := [];
    for i := 0 to |dets|
      invariant rooms == Candidates(dets[..i], size, threshold)
    {
      assert dets[..i + 1] == dets[..i] + [dets[i]];
      CandidatesSnoc(dets[..i], dets[i], size, threshold);
      var score := dets[i].score;
      if score < threshold {
        continue;
      }
      rooms := rooms + [ToRoom(dets[i], size)];
    }
    assert dets[..|dets|] == dets;
  }

  /** Numbers the rooms in order: the room at position `i` gets id
      `RoomId(i)` and nothing else about any room changes. */
  function AssignIds(rooms: seq<Room>): (r: seq<Room>)
    ensures |r| == |rooms|
    ensures forall i :: 0 <= i < |r| ==> r[i].id == RoomId(i)
    ensures forall i :: 0 <= i < |r| ==> r[i].(id := "") == rooms[i].(id := "")
  {
    seq(|rooms|, i requires 0 <= i < |rooms| => rooms[i].(id := RoomId(i)))
  }

  /** No two renumbered rooms share an id. */
  lemma AssignIdsDistinct(rooms: seq<Room>)
    ensures var r := AssignIds(rooms);
      forall i, j :: 0 <= i < |r| && 0 <= j < |r| && i != j ==> r[i].id != r[j].id
  {
    var r := AssignIds(rooms);
    forall i, j | 0 <= i < |r| && 0 <= j < |r| && i != j
      ensures r[i].id != r[j].id
    {
      RoomIdInjective(i, j);
    }
  }

  /** The source's renumbering loop, writing ids in place. */
  method RenumberRooms(rooms: seq<Room>) returns (r: seq<Room>)
    ensures r == AssignIds(rooms)
  {
    r := rooms;
    for i := 0 to |r|
      invariant |r| == |rooms|
      invariant forall k :: 0 <= k < i ==> r[k] == rooms[k].(id := RoomId(k))
      invariant forall k :: i <= k < |r| ==> r[k] == rooms[k]
    {
      r := r[i := rooms[i].(id := RoomId(i))];
    }
    assert forall k :: 0 <= k < |r| ==> r[k] == AssignIds(rooms)[k];
  }

  /** Renumbering leaves confidences, and so their order, alone. */
  lemma AssignIdsSorted(rooms: seq<Room>)
    requires SortedDesc(rooms)
    ensures SortedDesc(AssignIds(rooms))
  {
    var r := AssignIds(rooms);
    forall i | 0 <= i < |r|
      ensures r[i].confidence == rooms[i].confidence
    {
      assert r[i].(id := "").confidence == rooms[i].(id := "").confidence;
    }
  }

  /** Overlap is measured on pixel boxes, which renumbering leaves alone. */
  lemma AssignIdsNonOverlapping(rooms: seq<Room>, t: real)
    requires NonOverlapping(rooms, t)
    ensures NonOverlapping(AssignIds(rooms), t)
  {
    var r := AssignIds(rooms);
    forall i | 0 <= i < |r|
      ensures r[i].bboxPixels == rooms[i].bboxPixels
    {
      assert r[i].(id := "").bboxPixels == rooms[i].(id := "").bboxPixels;
    }
  }

  /** Overlap removal and renumbering keep only rooms built from the
      given detections, so a lower bound on their scores carries over, and
      each room's two boxes still describe one rectangle. */
  lemma KeptRooms(f: seq<Detection>, size: ImageSize, threshold: real, t: real)
    requires forall i :: 0 <= i < |f| ==> f[i].score >= threshold
    ensures var rooms := AssignIds(RemoveOverlapping(RoomsOf(f, size), t));
      forall i :: 0 <= i < |rooms| ==>
        rooms[i].confidence >= threshold && SameRectangle(rooms[i].boundingBox, rooms[i].bboxPixels, size)
  {
    var kept := RemoveOverlapping(RoomsOf(f, size), t);
    var rooms := AssignIds(kept);
    KeptFromDetections(f, size, t);
    forall i | 0 <= i < |rooms|
      ensures rooms[i].confidence >= threshold
      ensures SameRectangle(rooms[i].boundingBox, rooms[i].bboxPixels, size)
    {
      assert kept[i] in kept;
      assert rooms[i].(id := "") == kept[i].(id := "");
    }
  }

  /** The response for one image: every room scored at least `threshold`,
      carries the id of its position, has a normalized box that is its pixel
      box rescaled, and overlaps no other room beyond `overlapThreshold`; the
      rooms come in non-increasing confidence order;
      `totalRooms` is the number of rooms, never more than the number of
      detections. */
  function Detect(dets: seq<Detection>, size: ImageSize, threshold: real := DefaultThreshold,
                  overlapThreshold: real := DefaultOverlapThreshold)
    : (resp: Response)
    ensures resp.imageSize == size
    ensures resp.totalRooms == |resp.rooms| <= |dets|
    ensures dets == [] ==> resp.rooms == []
    ensures forall i :: 0 <= i < |resp.rooms| ==> resp.rooms[i].id == RoomId(i)
    ensures forall i, j :: 0 <= i < |resp.rooms| && 0 <= j < |resp.rooms| && i != j ==>
      resp.rooms[i].id != resp.rooms[j].id
    ensures forall i :: 0 <= i < |resp.rooms| ==> resp.rooms[i].confidence >= threshold
    ensures forall i :: 0 <= i < |resp.rooms| ==>
      SameRectangle(resp.rooms[i].boundingBox, resp.rooms[i].bboxPixels, size)
    ensures NonOverlapping(resp.rooms, overlapThreshold)
    ensures SortedDesc(resp.rooms)
  {
    var f := ConfidenceFilter(dets, threshold);
    var kept := RemoveOverlapping(RoomsOf(f, size), overlapThreshold);
    var rooms := AssignIds(kept);
    SubseqMultiset(f, dets);
    KeptRooms(f, size, threshold, overlapThreshold);
    AssignIdsDistinct(kept);
    AssignIdsNonOverlapping(kept, overlapThreshold);
    AssignIdsSorted(kept);
    Response(size, |rooms|, rooms)
  }

  /** Every room overlap removal keeps is the room record of one of the
      detections it was built from. */
  lemma KeptFromDetections(f: seq<Detection>, size: ImageSize, t: real)
    ensures forall r :: r in RemoveOverlapping(RoomsOf(f, size), t) ==>
      exists k :: 0 <= k < |f| && r == ToRoom(f[k], size)
  {
    var candidates := RoomsOf(f, size);
    var kept := RemoveOverlapping(candidates, t);
    forall r | r in kept
      ensures exists k :: 0 <= k < |f| && r == ToRoom(f[k], size)
    {
      assert r in multiset(candidates);
      var k :| 0 <= k < |candidates| && candidates[k] == r;
    }
  }

  /** The response has rooms exactly when some detection passes the
      filter, and then room_001 is the most confident candidate: the first
      room in confidence order is never suppressed. */
  lemma DetectKeepsBest(dets: seq<Detection>, size: ImageSize, threshold: real,
                        overlapThreshold: real)
    ensures var rooms := Detect(dets, size, threshold, overlapThreshold).rooms;
      rooms != [] <==> exists k :: 0 <= k < |dets| && dets[k].score >= threshold
    ensures var rooms := Detect(dets, size, threshold, overlapThreshold).rooms;
      var c := Candidates(dets, size, threshold);
      c != [] ==> rooms != [] && rooms[0] == SortByConfidence(c)[0].(id := RoomId(0))
  {
    var f := ConfidenceFilter(dets, threshold);
    var c := Candidates(dets, size, threshold);
    var kept := RemoveOverlapping(c, overlapThreshold);
    var rooms := AssignIds(kept);
    assert Detect(dets, size, threshold, overlapThreshold).rooms == rooms;
    assert |c| == |f|;
    if f != [] {
      ConfidenceFilterMembers(dets, threshold, f[0]);
      assert f[0] in f;
      var k :| 0 <= k < |dets| && dets[k] == f[0];
      assert rooms[0].(id := "") == kept[0].(id := "");
      assert rooms[0] == kept[0].(id := RoomId(0));
    } else {
      forall k | 0 <= k < |dets|
        ensures dets[k].score < threshold
      {
        ConfidenceFilterMembers(dets, threshold, dets[k]);
      }
    }
  }

  /** Every room of the response is the room record of a detection in the
      input that scored at least the threshold, under its new id. */
  lemma DetectRoomsFromDetections(dets: seq<Detection>, size: ImageSize, threshold: real,
                                  overlapThreshold: real)
    ensures var rooms := Detect(dets, size, threshold, overlapThreshold).rooms;
      forall i :: 0 <= i < |rooms| ==> RecordOf(rooms[i], i, dets, size, threshold)
  {
    var f := ConfidenceFilter(dets, threshold);
    var kept := RemoveOverlapping(RoomsOf(f, size), overlapThreshold);
    assert Detect(dets, size, threshold, overlapThreshold).rooms == AssignIds(kept);
    KeptFromDetections(f, size, overlapThreshold);
    SubseqMultiset(f, dets);
    RenumberedFromDetections(dets, f, kept, size, threshold);
  }

  /** `room`, numbered `i`, is the record of a detection in `dets` scoring
      at least `threshold`. */
  predicate RecordOf(room: Room, i: nat, dets: seq<Detection>, size: ImageSize, threshold: real) {
    exists d :: d in dets && d.score >= threshold && room == ToRoom(d, size).(id := RoomId(i))
  }

  /** Renumbering rooms built from passing detections gives rooms that are
      those records under their new ids. */
  lemma RenumberedFromDetections(dets: seq<Detection>, f: seq<Detection>, kept: seq<Room>,
                                 size: ImageSize, threshold: real)
    requires multiset(f) <= multiset(dets)
    requires forall k :: 0 <= k < |f| ==> f[k].score >= threshold
    requires forall r :: r in kept ==> exists k :: 0 <= k < |f| && r == ToRoom(f[k], size)
    ensures forall i :: 0 <= i < |kept| ==> RecordOf(AssignIds(kept)[i], i, dets, size, threshold)
  {
    forall i | 0 <= i < |kept|
      ensures RecordOf(AssignIds(kept)[i], i, dets, size, threshold)
    {
      assert kept[i] in kept;
      var k :| 0 <= k < |f| && kept[i] == ToRoom(f[k], size);
      var d := f[k];
      assert d in multiset(f);
      assert multiset(f)[d] <= multiset(dets)[d];
      var room := AssignIds(kept)[i];
      assert room.(id := "") == kept[i].(id := "");
      assert room == ToRoom(d, size).(id := RoomId(i));
    }
  }

  /** The request handler's pure steps in the source's order. */
  method DetectRooms(dets: seq<Detection>, size: ImageSize, threshold: real := DefaultThreshold,
                     overlapThreshold: real := DefaultOverlapThreshold)
    returns (resp: Response)
    ensures resp == Detect(dets, size, threshold, overlapThreshold)
  {
    var rooms := CollectCandidates(dets, size, threshold);
    rooms := RemoveOverlappingRooms(rooms, overlapThreshold);
    rooms := RenumberRooms(rooms);
    resp := Response(size, |rooms|, rooms);
  }
}
