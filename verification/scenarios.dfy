/** Concrete requests worked through the model. */
module Scenarios {
  import opened Geometry
  import opened Rooms
  import opened Ranking
  import opened Suppression
  import opened Pipeline

  const Square: ImageSize := ImageSize(1000, 1000)

  /** No detections: an empty, valid response. */
  lemma NoDetections(size: ImageSize, threshold: real, overlapThreshold: real)
    ensures Detect([], size, threshold, overlapThreshold) == Response(size, 0, [])
  {
  }

  lemma FilterPair(a: Detection, b: Detection, threshold: real)
    requires a.score >= threshold && b.score >= threshold
    ensures ConfidenceFilter([a, b], threshold) == [a, b]
  {
    assert [a, b][1..] == [b];
    assert [b][1..] == [];
  }

  lemma SortPair(ra: Room, rb: Room)
    requires ra.confidence >= rb.confidence
    ensures SortByConfidence([ra, rb]) == [ra, rb]
  {
    assert [ra, rb][1..] == [rb];
    assert [rb][1..] == [];
  }

  /** Overlap removal on two rooms already in confidence order. */
  lemma RemovePair(ra: Room, rb: Room, t: real)
    requires ra.confidence >= rb.confidence
    ensures RemoveOverlapping([ra, rb], t) ==
      if Iou(rb.bboxPixels, ra.bboxPixels) > t then [ra] else [ra, rb]
  {
    SortPair(ra, rb);
    assert [ra, rb][1..] == [rb];
    assert [rb][1..] == [];
    assert [] + [ra] == [ra];
    assert Sweep([ra, rb], [], t) == Sweep([rb], [ra], t);
    assert Overlaps(rb, [ra], t) <==> Iou(rb.bboxPixels, ra.bboxPixels) > t;
    assert Sweep([rb], [ra], t) ==
      if Overlaps(rb, [ra], t) then Sweep([], [ra], t) else Sweep([], [ra] + [rb], t);
    assert [ra] + [rb] == [ra, rb];
  }

  /** The response for two detections that both pass the filter, the
      first at least as confident as the second. */
  lemma DetectPair(a: Detection, b: Detection, size: ImageSize, threshold: real, t: real)
    requires a.score >= threshold && b.score >= threshold && a.score >= b.score
    ensures var ra, rb := ToRoom(a, size), ToRoom(b, size);
      Detect([a, b], size, threshold, t).rooms ==
        if Iou(b.box, a.box) > t then AssignIds([ra]) else AssignIds([ra, rb])
  {
    FilterPair(a, b, threshold);
    var ra, rb := ToRoom(a, size), ToRoom(b, size);
    assert Candidates([a, b], size, threshold) == [ra, rb];
    RemovePair(ra, rb, t);
  }

  /** Two heavily overlapping boxes under the default thresholds: IoU
      9025/10975, about 0.82, exceeds 0.3, so only the more confident
      detection survives, as room_001. */
  lemma TwoOverlappingBoxes()
    ensures var a := Detection(Box(10.0, 10.0, 110.0, 110.0), 0.9, []);
      var b := Detection(Box(15.0, 15.0, 115.0, 115.0), 0.8, []);
      var resp := Detect([a, b], Square);
      resp.totalRooms == 1 && resp.rooms == [ToRoom(a, Square).(id := "room_001")]
  {
    var a := Detection(Box(10.0, 10.0, 110.0, 110.0), 0.9, []);
    var b := Detection(Box(15.0, 15.0, 115.0, 115.0), 0.8, []);
    OverlappingBoxesKept(a, b);
    FirstId(ToRoom(a, Square));
  }

  lemma OverlappingBoxesKept(a: Detection, b: Detection)
    requires a == Detection(Box(10.0, 10.0, 110.0, 110.0), 0.9, [])
    requires b == Detection(Box(15.0, 15.0, 115.0, 115.0), 0.8, [])
    ensures Detect([a, b], Square, 0.7, 0.3).rooms == AssignIds([ToRoom(a, Square)])
  {
    OverlappingIou(a.box, b.box);
    DetectPair(a, b, Square, 0.7, 0.3);
  }

  lemma FirstId(r: Room)
    ensures AssignIds([r]) == [r.(id := "room_001")]
  {
    RoomIdExamples();
    assert AssignIds([r])[0] == r.(id := RoomId(0));
  }

  lemma OverlappingIou(a: Box, b: Box)
    requires a == Box(10.0, 10.0, 110.0, 110.0) && b == Box(15.0, 15.0, 115.0, 115.0)
    ensures Iou(b, a) == 9025.0 / 10975.0 > 0.3
  {
    assert Overlap(b, a) == Box(15.0, 15.0, 110.0, 110.0);
    assert Overlap(b, a).Area() == 9025.0;
    assert UnionArea(b, a) == 10975.0;
  }

  /** Two distant boxes on a 1000 x 1000 image: IoU 0, both survive in
      input order (equal scores), with normalized boxes equal to the pixel
      boxes. */
  lemma TwoSeparateBoxes()
    ensures var a := Detection(Box(0.0, 0.0, 50.0, 50.0), 0.95, []);
      var b := Detection(Box(500.0, 500.0, 550.0, 550.0), 0.95, []);
      var resp := Detect([a, b], Square, 0.7, 0.3);
      && resp.totalRooms == 2
      && resp.rooms[0].boundingBox == NormBox(0.0, 0.0, 50.0, 50.0)
      && resp.rooms[1].boundingBox == NormBox(500.0, 500.0, 550.0, 550.0)
      && resp.rooms[0].id == "room_001" && resp.rooms[1].id == "room_002"
  {
    var a := Detection(Box(0.0, 0.0, 50.0, 50.0), 0.95, []);
    var b := Detection(Box(500.0, 500.0, 550.0, 550.0), 0.95, []);
    var ra, rb := ToRoom(a, Square), ToRoom(b, Square);
    SeparateBoxesKept(a, b);
    var rooms := AssignIds([ra, rb]);
    FirstTwoIds([ra, rb]);
    NormalizedOnSquare(a);
    NormalizedOnSquare(b);
    assert rooms[0].(id := "").boundingBox == ra.boundingBox;
    assert rooms[1].(id := "").boundingBox == rb.boundingBox;
  }

  lemma SeparateBoxesKept(a: Detection, b: Detection)
    requires a == Detection(Box(0.0, 0.0, 50.0, 50.0), 0.95, [])
    requires b == Detection(Box(500.0, 500.0, 550.0, 550.0), 0.95, [])
    ensures Detect([a, b], Square, 0.7, 0.3).rooms == AssignIds([ToRoom(a, Square), ToRoom(b, Square)])
  {
    assert Iou(b.box, a.box) == 0.0 by {
      assert Disjoint(b.box, a.box);
    }
    DetectPair(a, b, Square, 0.7, 0.3);
  }

  /** On a 1000 x 1000 image normalized and pixel coordinates coincide. */
  lemma NormalizedOnSquare(d: Detection)
    ensures ToRoom(d, Square).boundingBox == NormBox(d.box.x1, d.box.y1, d.box.x2, d.box.y2)
  {
  }

  lemma FirstTwoIds(rooms: seq<Room>)
    requires |rooms| == 2
    ensures AssignIds(rooms)[0].id == "room_001" && AssignIds(rooms)[1].id == "room_002"
  {
    RoomIdExamples();
  }
}
