/**
 * Planar geometry of detections: the boxes the detector reports, the
 * centroid the tracker follows for each box, and the squared distance the
 * greedy matcher compares against the distance gate.
 */
module Geometry {

  /** A pixel position; y grows downwards, as in image coordinates. */
  datatype Point = Point(x: int, y: int)

  /** A detection box as the detector reports it: (startX, startY, endX, endY). */
  datatype Box = Box(startX: int, startY: int, endX: int, endY: int)

  /**
   * Half of `n`, truncated toward zero: what `int(n / 2.0)` yields for an
   * integer `n` with `|n| <= 2^53`, where the float division is exact
   * (Dafny's own `/` rounds toward minus infinity on negatives).
   */
  function TruncHalf(n: int): (h: int)
    ensures n >= 0 ==> 0 <= 2 * h <= n < 2 * h + 2
    ensures n <= 0 ==> 2 * h - 2 < n <= 2 * h <= 0
  {
    if n >= 0 then n / 2 else -((-n) / 2)
  }

  /** The centroid of a box: the midpoint of each axis, truncated toward zero. */
  function Centroid(b: Box): Point
  {
    Point(TruncHalf(b.startX + b.endX), TruncHalf(b.startY + b.endY))
  }

  /**
   * The centroid lies inside a well-formed box, within half a pixel of the
   * exact midpoint, and on the side of it nearer zero.
   */
  lemma CentroidBounds(b: Box)
    ensures var c := Centroid(b);
            && (b.startX <= b.endX ==> b.startX <= c.x <= b.endX)
            && (b.startY <= b.endY ==> b.startY <= c.y <= b.endY)
            && b.startX + b.endX - 1 <= 2 * c.x <= b.startX + b.endX + 1
            && b.startY + b.endY - 1 <= 2 * c.y <= b.startY + b.endY + 1
            && (b.startX + b.endX >= 0 ==> 2 * c.x <= b.startX + b.endX)
            && (b.startX + b.endX <= 0 ==> 2 * c.x >= b.startX + b.endX)
            && (b.startY + b.endY >= 0 ==> 2 * c.y <= b.startY + b.endY)
            && (b.startY + b.endY <= 0 ==> 2 * c.y >= b.startY + b.endY)
  {
  }

  /**
   * The squared Euclidean distance between two points. Comparing it with
   * the square of a non-negative bound orders pairs exactly as comparing
   * the Euclidean distance with the bound itself.
   */
  function SqDist(p: Point, q: Point): (d: nat)
    ensures d == 0 <==> p == q
  {
    var dx := p.x - q.x;
    var dy := p.y - q.y;
    SquareNonNegative(dx);
    SquareNonNegative(dy);
    SquareZero(dx);
    SquareZero(dy);
    dx * dx + dy * dy
  }

  lemma SquareNonNegative(k: int)
    ensures k * k >= 0
  {
  }

  lemma SquareZero(k: int)
    ensures k * k == 0 <==> k == 0
    ensures k != 0 ==> k * k >= 1
  {
    if k > 0 {
      assert k * k >= k;
    } else if k < 0 {
      assert k * k == (-k) * (-k);
      assert (-k) * (-k) >= -k;
    }
  }

  /**
   * The distance gate: a pair at squared distance `d` may be matched when
   * its distance does not exceed `maxDistance`. A negative bound admits
   * nothing, since no distance is negative.
   */
  predicate WithinGate(d: nat, maxDistance: int)
  {
    maxDistance >= 0 && d <= maxDistance * maxDistance
  }
}
