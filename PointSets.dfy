/** The brute-force point set (Week5 PointSET): a sorted set of points with
    linear-scan range and nearest-neighbour queries. It serves as the
    reference against which the 2-d tree's answers are judged. */
module PointSets {
  import opened Wrappers
  import opened Geometry

  /** nearest starts from a best distance of 2, i.e. a squared distance of 4:
      only points strictly closer than that can be returned. */
  const Cutoff: real := 4.0

  /** `n` is what nearest answers for query `p` over `s`: null when no point
      is closer than the cutoff, else a closest point, the first in the
      natural order among equally close ones. */
  predicate NearestWithin(s: set<Point>, p: Point, n: Option<Point>) {
    match n
    case None => forall q :: q in s ==> Cutoff <= DistSq(p, q)
    case Some(m) =>
      && m in s && DistSq(p, m) < Cutoff
      && (forall q :: q in s ==> DistSq(p, m) <= DistSq(p, q))
      && (forall q :: q in s && DistSq(p, q) == DistSq(p, m) ==> Precedes(m, q))
  }

  /** The answer of nearest is fully determined by the set and the query. */
  lemma NearestWithinUnique(s: set<Point>, p: Point, n1: Option<Point>, n2: Option<Point>)
    requires NearestWithin(s, p, n1) && NearestWithin(s, p, n2)
    ensures n1 == n2
  {
    if n1.Some? && n2.Some? {
      PrecedesTotalOrder(n1.value, n2.value, n2.value);
    }
  }

  /** For a query in the unit square over points of the unit square, the
      cutoff never applies, and nearest finds a point exactly as close as any
      point that is no farther than every stored point (for instance the
      2-d tree's answer). */
  lemma AgreesWithKdTree(s: set<Point>, p: Point, n: Option<Point>, k: Point)
    requires forall q :: q in s ==> Contains(UnitSquare, q)
    requires Contains(UnitSquare, p)
    requires k in s && forall q :: q in s ==> DistSq(p, k) <= DistSq(p, q)
    requires NearestWithin(s, p, n)
    ensures n.Some? && DistSq(p, n.value) == DistSq(p, k)
  {
    UnitSquareDistSq(p, k);
  }

  class PointSET {
    var points: set<Point>

    constructor ()
      ensures points == {}
    {
      points := {};
    }

    /** isEmpty. */
    function IsEmpty(): (e: bool)
      reads this
      ensures e <==> points == {}
    {
      |points| == 0
    }

    /** size: the number of distinct points. */
    function Size(): (n: nat)
      reads this
      ensures n == 0 <==> IsEmpty()
    {
      |points|
    }

    /** insert: null is refused; an equal point already present leaves the
        set as it was. */
    method Insert(p: Option<Point>) returns (r: Outcome)
      modifies this
      ensures p.None? ==> r == Fail(IllegalArgument) && points == old(points)
      ensures p.Some? ==> r == Pass && points == old(points) + {p.value}
    {
      if p.None? {
        return Fail(IllegalArgument);
      }
      points := points + {p.value};
      return Pass;
    }

    /** contains. */
    function ContainsPoint(p: Option<Point>): (r: Result<bool>)
      reads this
      ensures p.None? ==> r == Failure(IllegalArgument)
      ensures p.Some? ==> r.Success? && (r.value <==> p.value in points)
    {
      if p.None? then Failure(IllegalArgument) else Success(p.value in points)
    }

    /** range: scans every point in order and keeps the ones the rectangle
        contains (boundary included). */
    method Range(rect: Option<Rect>) returns (r: Result<set<Point>>)
      ensures rect.None? ==> r == Failure(IllegalArgument)
      ensures rect.Some? ==> r == Success(InRange(points, rect.value))
    {
      if rect.None? {
        return Failure(IllegalArgument);
      }
      var query := rect.value;
      var pointsInRange: set<Point> := {};
      var remaining := points;
      while remaining != {}
        invariant remaining <= points
        invariant pointsInRange == InRange(points - remaining, query)
        decreases |remaining|
      {
        FirstExists(remaining);
        var point :| point in remaining && forall o :: o in remaining ==> Precedes(point, o);
        ghost var seen := points - remaining;
        remaining := remaining - {point};
        assert points - remaining == seen + {point};
        if Contains(query, point) {
          pointsInRange := pointsInRange + {point};
        }
      }
      assert points - remaining == points;
      return Success(pointsInRange);
    }

    /** nearest: scans every point in order, replacing the candidate only by
        a strictly closer point. */
    method Nearest(point: Option<Point>) returns (r: Result<Option<Point>>)
      ensures point.None? ==> r == Failure(IllegalArgument)
      ensures point.Some? ==> r.Success? && NearestWithin(points, point.value, r.value)
    {
      if point.None? {
        return Failure(IllegalArgument);
      }
      var p := point.value;
      var nearest: Option<Point> := None;
      var minDist := Cutoff;
      var remaining := points;
      while remaining != {}
        invariant remaining <= points
        invariant forall v, o :: v in points - remaining && o in remaining ==> Precedes(v, o)
        invariant minDist == (if nearest.None? then Cutoff else DistSq(p, nearest.value))
        invariant NearestWithin(points - remaining, p, nearest)
        decreases |remaining|
      {
        FirstExists(remaining);
        var that :| that in remaining && forall o :: o in remaining ==> Precedes(that, o);
        ghost var seen := points - remaining;
        remaining := remaining - {that};
        assert points - remaining == seen + {that};
        var dist := DistSq(p, that);
        if dist < minDist {
          nearest := Some(that);
          minDist := dist;
        }
      }
      assert points - remaining == points;
      return Success(nearest);
    }
  }

  /** The first part of PointSET's main: an equal point inserted twice is
      stored once. */
  method DuplicateScenario() returns (emptyBefore: bool, sizeAfterDuplicate: nat)
    ensures emptyBefore && sizeAfterDuplicate == 1
  {
    var pointSet := new PointSET();
    emptyBefore := pointSet.IsEmpty();
    var _ := pointSet.Insert(Some(Point(0.1, 0.2)));
    var _ := pointSet.Insert(Some(Point(0.1, 0.2)));
    assert pointSet.points == {Point(0.1, 0.2)};
    sizeAfterDuplicate := pointSet.Size();
  }

  /** The range query of PointSET's main after it inserts its six points. */
  method RangeScenario() returns (inRange: Result<set<Point>>)
    ensures inRange == Success({Point(0.3, 0.3), Point(0.3, 0.6)})
  {
    var pointSet := new PointSET();
    var _ := pointSet.Insert(Some(Point(0.1, 0.2)));
    var _ := pointSet.Insert(Some(Point(0.2, 0.1)));
    var _ := pointSet.Insert(Some(Point(0.3, 0.3)));
    var _ := pointSet.Insert(Some(Point(0.3, 0.7)));
    var _ := pointSet.Insert(Some(Point(0.8, 0.4)));
    var _ := pointSet.Insert(Some(Point(0.3, 0.6)));
    inRange := pointSet.Range(Some(Rect(0.3, 0.3, 0.6, 0.6)));
    MainRangeAnswer(pointSet.points);
  }

  lemma MainRangeAnswer(s: set<Point>)
    requires s == {Point(0.1, 0.2), Point(0.2, 0.1), Point(0.3, 0.3), Point(0.3, 0.7),
                   Point(0.8, 0.4), Point(0.3, 0.6)}
    ensures InRange(s, Rect(0.3, 0.3, 0.6, 0.6)) == {Point(0.3, 0.3), Point(0.3, 0.6)}
  {
    var r := Rect(0.3, 0.3, 0.6, 0.6);
    forall q | q in InRange(s, r) ensures q == Point(0.3, 0.3) || q == Point(0.3, 0.6) {
      assert q in s && Contains(r, q);
    }
    assert Point(0.3, 0.3) in InRange(s, r);
    assert Point(0.3, 0.6) in InRange(s, r);
  }
}
