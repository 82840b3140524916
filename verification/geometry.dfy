/**
  Axis-aligned pixel rectangles and their intersection-over-union (IoU),
  the overlap measure the detector's post-processing uses to decide that two
  detections describe the same room. Coordinates are exact reals.
 */
module Geometry {

  /** A pixel-space box: (x1, y1) is the top-left and (x2, y2) the
      bottom-right corner. Nothing forces x1 < x2 or y1 < y2; such a box is
      merely degenerate. */
  datatype Box = Box(x1: real, y1: real, x2: real, y2: real)
  {
    /** Positive width and positive height. */
    predicate WellFormed() {
      x1 < x2 && y1 < y2
    }

    /** Width times height, signed: a degenerate box can have a zero or a
        negative area. */
    function Area(): real {
      (x2 - x1) * (y2 - y1)
    }
  }

  function Max(a: real, b: real): real { if a >= b then a else b }

  function Min(a: real, b: real): real { if a <= b then a else b }

  /** The rectangle common to both boxes; inverted when they do not meet. */
  function Overlap(a: Box, b: Box): Box {
    Box(Max(a.x1, b.x1), Max(a.y1, b.y1), Min(a.x2, b.x2), Min(a.y2, b.y2))
  }

  /** The boxes share no interior: their overlap is empty on some axis. */
  predicate Disjoint(a: Box, b: Box) {
    var o := Overlap(a, b);
    o.x2 <= o.x1 || o.y2 <= o.y1
  }

  /** Area of the union as the source computes it: both areas minus the
      part counted twice. */
  function UnionArea(a: Box, b: Box): real {
    a.Area() + b.Area() - Overlap(a, b).Area()
  }

  /** Intersection-over-union of two boxes. Zero for disjoint boxes and
      (a case that turns out never to arise, see `OverlapBounds`) for a
      union that is not positive; otherwise the ratio of the overlap area
      to the union area, which lies in (0, 1]. */
  function Iou(a: Box, b: Box): (r: real)
    ensures 0.0 <= r <= 1.0
    ensures r == 0.0 <==> Disjoint(a, b)
    ensures UnionArea(a, b) <= 0.0 ==> r == 0.0
    ensures !Disjoint(a, b) ==> r * UnionArea(a, b) == Overlap(a, b).Area()
  {
    if Disjoint(a, b) then 0.0
    else
      var inter := Overlap(a, b).Area();
      var union := a.Area() + b.Area() - inter;
      OverlapBounds(a, b);
      if union > 0.0 then RatioBounds(inter, union); inter / union else 0.0
  }

  lemma RatioBounds(p: real, q: real)
    requires 0.0 < p <= q
    ensures 0.0 < p / q <= 1.0
    ensures p / q * q == p
  {
  }

  /** For non-negative factors, a product grows with each factor. */
  lemma ProductMonotone(w: real, h: real, bw: real, bh: real)
    requires 0.0 <= w <= bw && 0.0 <= h <= bh
    ensures w * h <= bw * bh
  {
    assert w * h <= bw * h;
    assert bw * h <= bw * bh;
  }

  /** When two boxes meet, the overlap area is positive and no larger than
      either box's area, so the union area is positive: the source's
      `union > 0` guard never fails on a non-empty overlap. */
  lemma OverlapBounds(a: Box, b: Box)
    requires !Disjoint(a, b)
    ensures 0.0 < Overlap(a, b).Area()
    ensures Overlap(a, b).Area() <= a.Area()
    ensures Overlap(a, b).Area() <= b.Area()
    ensures Overlap(a, b).Area() <= UnionArea(a, b)
    ensures 0.0 < UnionArea(a, b)
  {
    var o := Overlap(a, b);
    var w, h := o.x2 - o.x1, o.y2 - o.y1;
    assert 0.0 < w && 0.0 < h;
    assert 0.0 < w * h;
    ProductMonotone(w, h, a.x2 - a.x1, a.y2 - a.y1);
    ProductMonotone(w, h, b.x2 - b.x1, b.y2 - b.y1);
  }

  /** IoU does not depend on the order of its arguments. */
  lemma IouSymmetric(a: Box, b: Box)
    ensures Iou(a, b) == Iou(b, a)
  {
    assert Overlap(a, b) == Overlap(b, a);
  }

  /** A box with positive area overlaps itself completely. */
  lemma IouSelf(a: Box)
    requires a.WellFormed()
    ensures Iou(a, a) == 1.0
  {
    assert Overlap(a, a) == a;
    assert 0.0 < a.Area() by { ProductMonotone(0.0, 0.0, a.x2 - a.x1, a.y2 - a.y1); }
  }

  /** Two boxes that touch only along an edge, or are apart, have IoU 0. */
  lemma IouZeroWhenApart(a: Box, b: Box)
    requires Min(a.x2, b.x2) <= Max(a.x1, b.x1) || Min(a.y2, b.y2) <= Max(a.y1, b.y1)
    ensures Iou(a, b) == 0.0
  {
  }

  /** A box without positive width and height, flat or inverted, has IoU 0
      with every box, in either argument order. */
  lemma IouOfDegenerateBox(a: Box, b: Box)
    requires !a.WellFormed()
    ensures Iou(a, b) == 0.0 && Iou(b, a) == 0.0
  {
    IouSymmetric(a, b);
  }
}
