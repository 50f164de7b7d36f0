/**
 * Bounding boxes of detected faces and the overlap test that decides
 * whether two detections are the same face.
 */
module Boxes {

  /** `face.bbox`: corners (x1, y1) and (x2, y2) in image coordinates. */
  datatype Box = Box(x1: real, y1: real, x2: real, y2: real)

  /** Boxes whose intersection covers more than this share of the smaller box are duplicates. */
  const OverlapThreshold: real := 0.7

  function Max(a: real, b: real): real { if a >= b then a else b }

  function Min(a: real, b: real): real { if a <= b then a else b }

  function Area(b: Box): real
  {
    (b.x2 - b.x1) * (b.y2 - b.y1)
  }

  /** Intersection area, with each side clamped at zero. */
  function Intersection(a: Box, b: Box): real
  {
    Max(0.0, Min(a.x2, b.x2) - Max(a.x1, b.x1)) * Max(0.0, Min(a.y2, b.y2) - Max(a.y1, b.y1))
  }

  /**
   * The duplicate test `intersection / min(area_a, area_b) > 0.7`, written
   * without division. When the smaller area is not positive the quotient
   * in the source is 0/0 or 0/negative (see DegenerateBoxesDoNotIntersect),
   * which never exceeds 0.7; the `m > 0.0` guard says exactly that.
   */
  predicate IsDuplicate(a: Box, b: Box)
  {
    var m := Min(Area(a), Area(b));
    m > 0.0 && Intersection(a, b) > OverlapThreshold * m
  }

  /** For boxes of positive area the test is the ratio comparison itself. */
  lemma DuplicateIsRatioTest(a: Box, b: Box)
    requires Min(Area(a), Area(b)) > 0.0
    ensures IsDuplicate(a, b) <==> Intersection(a, b) / Min(Area(a), Area(b)) > OverlapThreshold
  {
    var m := Min(Area(a), Area(b));
    var i := Intersection(a, b);
    assert i / m * m == i;
    if i / m > OverlapThreshold {
      assert i > OverlapThreshold * m;
    }
  }

  /** A box of zero or negative area has a side of non-positive length. */
  lemma DegenerateSide(b: Box)
    requires Area(b) <= 0.0
    ensures b.x2 - b.x1 <= 0.0 || b.y2 - b.y1 <= 0.0
  {
    var p, q := b.x2 - b.x1, b.y2 - b.y1;
    assert p > 0.0 && q > 0.0 ==> p * q > 0.0;
  }

  /** A box of zero or negative area meets no other box in positive area. */
  lemma DegenerateBoxesDoNotIntersect(a: Box, b: Box)
    requires Min(Area(a), Area(b)) <= 0.0
    ensures Intersection(a, b) == 0.0
  {
    var w := Min(a.x2, b.x2) - Max(a.x1, b.x1);
    var h := Min(a.y2, b.y2) - Max(a.y1, b.y1);
    if Area(a) <= 0.0 {
      DegenerateSide(a);
      assert w <= a.x2 - a.x1 && h <= a.y2 - a.y1;
    } else {
      DegenerateSide(b);
      assert w <= b.x2 - b.x1 && h <= b.y2 - b.y1;
    }
    assert w <= 0.0 || h <= 0.0;
  }

  /** The test does not depend on which box was kept first. */
  lemma DuplicateSymmetric(a: Box, b: Box)
    ensures IsDuplicate(a, b) == IsDuplicate(b, a)
  {
    assert Intersection(a, b) == Intersection(b, a);
  }

  /** `bbox.astype(int)`: each corner truncated toward zero. */
  datatype IntBox = IntBox(x1: int, y1: int, x2: int, y2: int)

  function Truncate(x: real): (n: int)
    ensures x >= 0.0 ==> n as real <= x < n as real + 1.0
    ensures x < 0.0 ==> n as real - 1.0 < x <= n as real
  {
    if x >= 0.0 then x.Floor else -((-x).Floor)
  }

  function ToIntBox(b: Box): IntBox
  {
    IntBox(Truncate(b.x1), Truncate(b.y1), Truncate(b.x2), Truncate(b.y2))
  }
}
