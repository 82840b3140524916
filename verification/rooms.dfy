/**
  The records the post-processing works on: raw detections as the model
  hands them over, the room records built from them, and the mapping of
  pixel coordinates into the 0..1000 normalized space.
 */
module Rooms {
  import opened Geometry
  import opened Decimal

  datatype Option<+T> = None | Some(value: T)

  /** An image dimension in pixels; a decoded image is never empty. */
  type Dim = n: int | n > 0 witness 1

  datatype ImageSize = ImageSize(width: Dim, height: Dim)

  datatype Point = Point(x: int, y: int)

  /** One raw detection: its pixel box, its confidence score, and the
      polygon that contour extraction produced from its mask. The polygon
      is carried through unchanged. */
  datatype Detection = Detection(box: Box, score: real, polygon: seq<Point>)

  /** A box in normalized coordinates: 0..1000 spans the image on each axis. */
  datatype NormBox = NormBox(xMin: real, yMin: real, xMax: real, yMax: real)

  /** One room of the response. */
  datatype Room = Room(
    id: string,
    boundingBox: NormBox,
    bboxPixels: Box,
    vertices: seq<Point>,
    confidence: real,
    nameHint: Option<string>)

  /** A pixel coordinate as a fraction of `dim`, scaled to 0..1000. Scaling
      back by `dim / 1000` recovers the pixel value exactly, and a
      coordinate inside the image lands inside 0..1000. */
  function Normalize(p: real, dim: Dim): (r: real)
    ensures r * (dim as real) / 1000.0 == p
    ensures 0.0 <= p <= dim as real ==> 0.0 <= r <= 1000.0
  {
    p / (dim as real) * 1000.0
  }

  /** Normalization keeps the order of coordinates on an axis. */
  lemma NormalizeMonotone(p: real, q: real, dim: Dim)
    ensures p < q ==> Normalize(p, dim) < Normalize(q, dim)
  {
    var d := dim as real;
    assert q / d - p / d == (q - p) / d;
  }

  /** `n` and `b` are the same rectangle, `n` in normalized and `b` in
      pixel coordinates: scaling `n` back by the image size gives `b`. */
  predicate SameRectangle(n: NormBox, b: Box, size: ImageSize) {
    && n.xMin * (size.width as real) / 1000.0 == b.x1
    && n.yMin * (size.height as real) / 1000.0 == b.y1
    && n.xMax * (size.width as real) / 1000.0 == b.x2
    && n.yMax * (size.height as real) / 1000.0 == b.y2
  }

  /** The normalized form of a pixel box: x through the width, y through
      the height. A well-formed box stays well-formed. */
  function NormalizeBox(b: Box, size: ImageSize): (n: NormBox)
    ensures SameRectangle(n, b, size)
    ensures b.WellFormed() ==> n.xMin < n.xMax && n.yMin < n.yMax
  {
    NormalizeMonotone(b.x1, b.x2, size.width);
    NormalizeMonotone(b.y1, b.y2, size.height);
    NormBox(Normalize(b.x1, size.width), Normalize(b.y1, size.height),
            Normalize(b.x2, size.width), Normalize(b.y2, size.height))
  }

  /** The room record built for a detection that passed the confidence
      filter. Its id is a placeholder that assembly overwrites. */
  function ToRoom(d: Detection, size: ImageSize): (r: Room)
    ensures r.bboxPixels == d.box && r.confidence == d.score
    ensures r.vertices == d.polygon && r.nameHint == None
    ensures SameRectangle(r.boundingBox, r.bboxPixels, size)
    ensures d.box.WellFormed() ==> r.boundingBox.xMin < r.boundingBox.xMax && r.boundingBox.yMin < r.boundingBox.yMax
  {
    Room("", NormalizeBox(d.box, size), d.box, d.polygon, d.score, None)
  }

  const RoomPrefix: string := "room_"

  /** The id of the room at 0-based position `i`: "room_" then `i + 1` in
      decimal, zero-padded to at least three digits. */
  function RoomId(i: nat): (id: string)
    ensures |id| >= |RoomPrefix| + 3 && id[..|RoomPrefix|] == RoomPrefix
    ensures AllDigits(id[|RoomPrefix|..]) && Value(id[|RoomPrefix|..]) == i + 1
    ensures |id| == |RoomPrefix| + if |Digits(i + 1)| >= 3 then |Digits(i + 1)| else 3
  {
    var digits := PadDecimal(i + 1, 3);
    assert (RoomPrefix + digits)[|RoomPrefix|..] == digits;
    RoomPrefix + digits
  }

  /** The prefix, the digits' value and the width `max(3, digits)` leave
      exactly one string: the id. */
  lemma RoomIdUnique(i: nat, s: string)
    requires |s| == |RoomPrefix| + (if |Digits(i + 1)| >= 3 then |Digits(i + 1)| else 3)
    requires s[..|RoomPrefix|] == RoomPrefix
    requires AllDigits(s[|RoomPrefix|..]) && Value(s[|RoomPrefix|..]) == i + 1
    ensures s == RoomId(i)
  {
    var id, n := RoomId(i), |RoomPrefix|;
    var digits, idDigits := s[n..], id[n..];
    assert |digits| == |idDigits|;
    ValueInjective(digits, idDigits);
    assert s == s[..n] + digits;
    assert id == id[..n] + idDigits;
  }

  /** Different positions get different ids. */
  lemma RoomIdInjective(i: nat, j: nat)
    requires i != j
    ensures RoomId(i) != RoomId(j)
  {
  }

  /** The first ids, and the first one that needs a fourth digit. */
  lemma RoomIdExamples()
    ensures RoomId(0) == "room_001"
    ensures RoomId(1) == "room_002"
    ensures RoomId(41) == "room_042"
    ensures RoomId(999) == "room_1000"
  {
    PaddedExamples();
  }

  lemma PaddedExamples()
    ensures PadDecimal(1, 3) == "001" && PadDecimal(2, 3) == "002"
    ensures PadDecimal(42, 3) == "042" && PadDecimal(1000, 3) == "1000"
  {
    assert Digits(1) == "1";
    assert Digits(2) == "2";
    assert Digits(42) == "42" by { assert Digits(4) == "4"; }
    assert Digits(1000) == "1000" by {
      assert Digits(1) == "1";
      assert Digits(10) == "10";
      assert Digits(100) == "100";
    }
  }
}
