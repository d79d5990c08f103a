/** The geometric primitives of the 2-d tree exercise: the contracts of the
    algs4 library's Point2D and RectHV classes, over exact reals. Distances
    are compared squared: the library's `distanceTo` is the square root of its
    `distanceSquaredTo`, and the square root is monotone on non-negative
    numbers, so every `<` between distances agrees with `<` between squares. */
module Geometry {

  /** Point2D: equality is exact coordinate equality. */
  datatype Point = Point(x: real, y: real)

  /** RectHV: the axis-aligned rectangle [xmin, xmax] x [ymin, ymax]. */
  datatype Rect = Rect(xmin: real, ymin: real, xmax: real, ymax: real)

  /** RectHV's constructor refuses xmax < xmin or ymax < ymin. */
  predicate WellFormed(r: Rect) {
    r.xmin <= r.xmax && r.ymin <= r.ymax
  }

  /** The whole area of the exercise: the closed unit square. */
  const UnitSquare: Rect := Rect(0.0, 0.0, 1.0, 1.0)

  /** RectHV.contains: boundary-inclusive. */
  predicate Contains(r: Rect, p: Point) {
    r.xmin <= p.x <= r.xmax && r.ymin <= p.y <= r.ymax
  }

  /** RectHV.intersects: touching boundaries count as intersecting. */
  predicate Intersects(a: Rect, b: Rect) {
    a.xmax >= b.xmin && a.ymax >= b.ymin && b.xmax >= a.xmin && b.ymax >= a.ymin
  }

  function Sq(a: real): real {
    a * a
  }

  /** Point2D.distanceSquaredTo. */
  function DistSq(p: Point, q: Point): real {
    Sq(p.x - q.x) + Sq(p.y - q.y)
  }

  /** How far `v` lies outside the interval [lo, hi] (0 inside it), as
      RectHV.distanceSquaredTo computes it per axis. */
  function Overshoot(v: real, lo: real, hi: real): real {
    if v < lo then v - lo else if v > hi then v - hi else 0.0
  }

  /** RectHV.distanceSquaredTo: squared distance from `p` to the nearest
      point of `r`. */
  function RectDistSq(r: Rect, p: Point): real {
    Sq(Overshoot(p.x, r.xmin, r.xmax)) + Sq(Overshoot(p.y, r.ymin, r.ymax))
  }

  /** A square is never negative, and positive away from 0. */
  lemma SquarePositive(a: real)
    ensures Sq(a) >= 0.0
    ensures a != 0.0 ==> Sq(a) > 0.0
  {
    if a > 0.0 {
      calc { Sq(a); == a * a; > 0.0; }
    } else if a < 0.0 {
      calc { Sq(a); == (-a) * (-a); > 0.0; }
    }
  }

  lemma SquareMonotone(a: real, b: real)
    requires 0.0 <= a <= b
    ensures Sq(a) <= Sq(b)
  {
    assert a * a <= a * b;
    assert a * b <= b * b;
  }

  /** A squared distance is never negative. */
  lemma DistSqNonNegative(p: Point, q: Point)
    ensures DistSq(p, q) >= 0.0
    ensures DistSq(p, q) == 0.0 <==> p == q
  {
    SquarePositive(p.x - q.x);
    SquarePositive(p.y - q.y);
  }

  /** The squared distance from a point to a rectangle is 0 exactly when the
      rectangle contains the point (stated as: 0 inside, positive outside). */
  lemma RectDistSqZeroIffContains(r: Rect, p: Point)
    ensures Contains(r, p) ==> RectDistSq(r, p) == 0.0
    ensures !Contains(r, p) ==> RectDistSq(r, p) > 0.0
  {
    SquarePositive(Overshoot(p.x, r.xmin, r.xmax));
    SquarePositive(Overshoot(p.y, r.ymin, r.ymax));
  }

  lemma OvershootBelowGap(v: real, lo: real, hi: real, w: real)
    requires lo <= w <= hi
    ensures Sq(Overshoot(v, lo, hi)) <= Sq(v - w)
  {
    var o := Overshoot(v, lo, hi);
    if v < lo {
      SquareMonotone(lo - v, w - v);
      SquarePositive(o);
      SquarePositive(v - w);
    } else if v > hi {
      SquareMonotone(v - hi, v - w);
    } else {
      SquarePositive(v - w);
    }
  }

  /** No point of a rectangle is closer to `p` than the rectangle itself:
      the fact that makes distance pruning in a nearest-neighbour search safe. */
  lemma RectDistSqBelowMembers(r: Rect, p: Point, q: Point)
    requires Contains(r, q)
    ensures RectDistSq(r, p) <= DistSq(p, q)
  {
    OvershootBelowGap(p.x, r.xmin, r.xmax, q.x);
    OvershootBelowGap(p.y, r.ymin, r.ymax, q.y);
  }

  /** Two well-formed rectangles intersect exactly when some point lies in
      both; hence a query that does not intersect a region misses all of its
      points. */
  lemma IntersectsIffCommonPoint(a: Rect, b: Rect)
    requires WellFormed(a) && WellFormed(b)
    ensures Intersects(a, b) <==> exists q :: Contains(a, q) && Contains(b, q)
  {
    if Intersects(a, b) {
      var q := Point(if a.xmin < b.xmin then b.xmin else a.xmin,
                     if a.ymin < b.ymin then b.ymin else a.ymin);
      assert Contains(a, q) && Contains(b, q);
    }
  }

  /** The direction of IntersectsIffCommonPoint that pruning uses, for any
      rectangles. */
  lemma CommonPointIntersects(a: Rect, b: Rect, q: Point)
    requires Contains(a, q) && Contains(b, q)
    ensures Intersects(a, b)
  {
  }

  /** The points of `s` that the rectangle contains (boundary included). */
  function InRange(s: set<Point>, r: Rect): set<Point> {
    set q | q in s && Contains(r, q)
  }

  /** Two points of the unit square are at squared distance at most 2. */
  lemma UnitSquareDistSq(p: Point, q: Point)
    requires Contains(UnitSquare, p) && Contains(UnitSquare, q)
    ensures DistSq(p, q) <= 2.0
  {
    UnitGap(p.x, q.x);
    UnitGap(p.y, q.y);
  }

  lemma UnitGap(a: real, b: real)
    requires 0.0 <= a <= 1.0 && 0.0 <= b <= 1.0
    ensures Sq(a - b) <= 1.0
  {
    if a >= b {
      SquareMonotone(a - b, 1.0);
    } else {
      SquareMonotone(b - a, 1.0);
      assert Sq(a - b) == Sq(b - a);
    }
  }

  // ---------------------------------------------------------------------
  // Point2D's natural order: by y, then by x. Sorted sets of points
  // iterate in this order.
  // ---------------------------------------------------------------------

  /** `a` comes no later than `b` in the natural order of points. */
  predicate Precedes(a: Point, b: Point) {
    a.y < b.y || (a.y == b.y && a.x <= b.x)
  }

  /** The natural order is a total order. */
  lemma PrecedesTotalOrder(a: Point, b: Point, c: Point)
    ensures Precedes(a, b) || Precedes(b, a)
    ensures Precedes(a, b) && Precedes(b, a) ==> a == b
    ensures Precedes(a, b) && Precedes(b, c) ==> Precedes(a, c)
  {
  }

  /** Every non-empty finite set of points has a first element. */
  lemma {:induction false} FirstExists(s: set<Point>)
    requires s != {}
    ensures exists m :: m in s && forall o :: o in s ==> Precedes(m, o)
    decreases |s|
  {
    var x :| x in s;
    var rest := s - {x};
    if rest == {} {
      forall o | o in s ensures Precedes(x, o) {
        assert o !in rest;
      }
    } else {
      FirstExists(rest);
      var m :| m in rest && forall o :: o in rest ==> Precedes(m, o);
      if Precedes(m, x) {
        assert forall o :: o in s ==> Precedes(m, o);
      } else {
        forall o | o in s ensures Precedes(x, o) {
          if o != x {
            PrecedesTotalOrder(x, m, o);
          }
        }
      }
    }
  }
}
