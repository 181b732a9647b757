/** Plane geometry shared by the four scripts: points, squared distances and
    the slope-based circumcircle construction `circle_from_points`, which is
    textually the same in count_circles.py, all.py, demo.py and visualize.py. */
module Geometry {

  /** The default `tolerance` argument of every copy of circle_from_points (1e-9). */
  const Tolerance: real := 0.000000001

  datatype Option<T> = None | Some(value: T)

  datatype Point = Point(x: real, y: real)

  /** A circle keeps its SQUARED radius: the scripts' radius is
      `np.linalg.norm(A - center)`, a square root this model does not compute.
      Every comparison of a distance with the radius is done on squares, which
      is sound because both are non-negative (see StrictLessUnderSquares). */
  datatype Circle = Circle(center: Point, radiusSq: real)

  function Abs(r: real): (a: real)
    ensures a >= 0.0
    ensures a == r || a == -r
  {
    if r < 0.0 then -r else r
  }

  /** Squared Euclidean distance, the square of `np.linalg.norm(p - q)`. */
  function DistSq(p: Point, q: Point): (d: real)
    ensures d >= 0.0
    ensures p == q ==> d == 0.0
  {
    (p.x - q.x) * (p.x - q.x) + (p.y - q.y) * (p.y - q.y)
  }

  /** `(P + Q) / 2`, the midpoint of segment pq. */
  function Midpoint(p: Point, q: Point): (m: Point)
    ensures m.x - p.x == q.x - m.x && m.y - p.y == q.y - m.y
  {
    Point((p.x + q.x) / 2.0, (p.y + q.y) / 2.0)
  }

  /** The bisector slope of segment pq exactly as the scripts compute it,
      `-(P[0] - Q[0]) / (P[1] - Q[1] + tolerance)`, and None when the segment is
      nearly horizontal (`abs(P[1] - Q[1]) <= tolerance`). The additive
      tolerance in the denominator is kept. */
  function BisectorSlope(p: Point, q: Point): (s: Option<real>)
    ensures s.None? <==> Abs(p.y - q.y) <= Tolerance
    // the denominator cannot vanish once the guard has passed
    ensures s.Some? ==> p.y - q.y + Tolerance != 0.0
    ensures s.Some? ==> s.value * (p.y - q.y + Tolerance) == q.x - p.x
  {
    if Abs(p.y - q.y) > Tolerance then Some(-(p.x - q.x) / (p.y - q.y + Tolerance)) else None
  }

  /** The bisector slope WITHOUT the additive tolerance, `-(P[0] - Q[0]) / (P[1] - Q[1])`,
      under the same guard: the slope of the true perpendicular bisector. */
  function ExactBisectorSlope(p: Point, q: Point): (s: Option<real>)
    ensures s.None? <==> Abs(p.y - q.y) <= Tolerance
    ensures s.Some? ==> s.value * (p.y - q.y) == q.x - p.x
  {
    if Abs(p.y - q.y) > Tolerance then Some(-(p.x - q.x) / (p.y - q.y)) else None
  }

  /** `mid[1] - slope * mid[0]`: the intercept of the line of the given slope through m. */
  function Intercept(m: Point, slope: real): real
  {
    m.y - slope * m.x
  }

  /** p lies on the line `y = slope * x + intercept`. */
  predicate OnLine(p: Point, slope: real, intercept: real)
  {
    p.y == slope * p.x + intercept
  }

  /** p lies on the line through the midpoint of segment ab whose slope is s. */
  predicate OnLineThroughMidpoint(p: Point, a: Point, b: Point, s: Option<real>)
  {
    s.Some? && OnLine(p, s.value, Intercept(Midpoint(a, b), s.value))
  }

  /** Three points on one straight line. */
  predicate Collinear(a: Point, b: Point, c: Point)
  {
    (a.x - b.x) * (b.y - c.y) == (b.x - c.x) * (a.y - b.y)
  }

  /** The body of circle_from_points once the two bisector slopes are known:
      intersect the bisector lines through the midpoints of ab and bc, unless a
      slope is missing or the slopes are within the tolerance of each other;
      the radius is measured to the first point. */
  function CircleFromSlopes(a: Point, b: Point, c: Point, sAB: Option<real>, sBC: Option<real>): (r: Option<Circle>)
    ensures sAB.None? || sBC.None? ==> r.None?
    ensures sAB.Some? && sBC.Some? ==> (r.None? <==> Abs(sAB.value - sBC.value) < Tolerance)
    ensures r.Some? ==> OnLineThroughMidpoint(r.value.center, a, b, sAB)
    ensures r.Some? ==> OnLineThroughMidpoint(r.value.center, b, c, sBC)
    ensures r.Some? ==> r.value.radiusSq == DistSq(r.value.center, a)
  {
    if sAB.Some? && sBC.Some? then
      var iA := Intercept(Midpoint(a, b), sAB.value);
      var iB := Intercept(Midpoint(b, c), sBC.value);
      if Abs(sAB.value - sBC.value) < Tolerance then None
      else
        var x := (iB - iA) / (sAB.value - sBC.value);
        var y := sAB.value * x + iA;
        LinesMeet(sAB.value, sBC.value, iA, iB, x);
        Some(Circle(Point(x, y), DistSq(Point(x, y), a)))
    else None
  }

  /** x = (i2 - i1) / (s1 - s2) is where the lines y = s1 x + i1 and y = s2 x + i2 cross. */
  lemma LinesMeet(s1: real, s2: real, i1: real, i2: real, x: real)
    requires s1 != s2 && x == (i2 - i1) / (s1 - s2)
    ensures s1 * x + i1 == s2 * x + i2
  {
    assert (s1 - s2) * x == i2 - i1;
  }

  /** circle_from_points(a, b, c) with its default tolerance. */
  function CircleFromPoints(a: Point, b: Point, c: Point): (r: Option<Circle>)
    ensures Abs(a.y - b.y) <= Tolerance ==> r.None?
    ensures Abs(b.y - c.y) <= Tolerance ==> r.None?
    ensures Abs(a.y - b.y) > Tolerance && Abs(b.y - c.y) > Tolerance ==>
              (r.None? <==> Abs(BisectorSlope(a, b).value - BisectorSlope(b, c).value) < Tolerance)
    ensures r.Some? ==> OnLineThroughMidpoint(r.value.center, a, b, BisectorSlope(a, b))
    ensures r.Some? ==> OnLineThroughMidpoint(r.value.center, b, c, BisectorSlope(b, c))
    ensures r.Some? ==> r.value.radiusSq == DistSq(r.value.center, a) && r.value.radiusSq >= 0.0
  {
    CircleFromSlopes(a, b, c, BisectorSlope(a, b), BisectorSlope(b, c))
  }

  /** The construction with the tolerance taken out of the slope denominators. */
  function ExactCircleFromPoints(a: Point, b: Point, c: Point): (r: Option<Circle>)
    ensures Abs(a.y - b.y) <= Tolerance || Abs(b.y - c.y) <= Tolerance ==> r.None?
    ensures r.Some? ==> r.value.radiusSq == DistSq(r.value.center, a)
  {
    CircleFromSlopes(a, b, c, ExactBisectorSlope(a, b), ExactBisectorSlope(b, c))
  }

  /** A strict comparison of two non-negative reals is the same comparison of
      their squares: `dist < radius` iff `dist^2 < radius^2`. */
  lemma StrictLessUnderSquares(u: real, v: real)
    requires u >= 0.0 && v >= 0.0
    ensures u < v <==> u * u < v * v
  {
    if u < v {
      assert (v - u) * u >= 0.0;
      assert (v - u) * v > 0.0;
    } else {
      assert (u - v) * v >= 0.0;
      assert (u - v) * u >= 0.0;
    }
  }

  /** A point on the exact perpendicular bisector of pq is as far from p as from q. */
  lemma EquidistantOnExactBisector(o: Point, p: Point, q: Point)
    requires OnLineThroughMidpoint(o, p, q, ExactBisectorSlope(p, q))
    ensures DistSq(o, p) == DistSq(o, q)
  {
    var dx, dy := p.x - q.x, p.y - q.y;
    var m := Midpoint(p, q);
    var s := ExactBisectorSlope(p, q).value;
    assert s * dy == -dx;
    assert o.y - m.y == s * (o.x - m.x);
    assert dy * (o.y - m.y) == -dx * (o.x - m.x) by {
      assert dy * (o.y - m.y) == (s * dy) * (o.x - m.x);
    }
    assert (o.x - p.x) * (o.x - p.x) - (o.x - q.x) * (o.x - q.x) == -2.0 * dx * (o.x - m.x);
    assert (o.y - p.y) * (o.y - p.y) - (o.y - q.y) * (o.y - q.y) == -2.0 * dy * (o.y - m.y);
  }

  /** The corrected construction puts all three points on its circle. */
  lemma ExactCircleThroughAll(a: Point, b: Point, c: Point)
    requires ExactCircleFromPoints(a, b, c).Some?
    ensures var o := ExactCircleFromPoints(a, b, c).value;
            DistSq(o.center, a) == o.radiusSq && DistSq(o.center, b) == o.radiusSq && DistSq(o.center, c) == o.radiusSq
  {
    var o := ExactCircleFromPoints(a, b, c).value;
    EquidistantOnExactBisector(o.center, a, b);
    EquidistantOnExactBisector(o.center, b, c);
  }

  /** The corrected construction refuses collinear points: their exact bisector
      slopes coincide. */
  lemma ExactRejectsCollinear(a: Point, b: Point, c: Point)
    requires Collinear(a, b, c)
    ensures ExactCircleFromPoints(a, b, c).None?
  {
    var sAB, sBC := ExactBisectorSlope(a, b), ExactBisectorSlope(b, c);
    if sAB.Some? && sBC.Some? {
      var s1, s2 := sAB.value, sBC.value;
      var dx1, dy1, dx2, dy2 := a.x - b.x, a.y - b.y, b.x - c.x, b.y - c.y;
      assert s1 * dy1 == -dx1 && s2 * dy2 == -dx2;
      SlopeDifference(s1, s2, dy1, dy2);
      assert (s1 - s2) * (dy1 * dy2) == 0.0;
      NonzeroProduct(dy1, dy2);
      CancelNonzero(s1 - s2, dy1 * dy2);
    }
  }

  lemma SlopeDifference(s1: real, s2: real, dy1: real, dy2: real)
    ensures (s1 - s2) * (dy1 * dy2) == (s1 * dy1) * dy2 - (s2 * dy2) * dy1
  {
  }

  lemma NonzeroProduct(u: real, w: real)
    requires u != 0.0 && w != 0.0
    ensures u * w != 0.0
  {
  }

  lemma CancelNonzero(u: real, w: real)
    requires u * w == 0.0 && w != 0.0
    ensures u == 0.0
  {
  }

  /** As written, circle_from_points accepts three collinear points: the
      tolerance in the slope denominators separates their slopes by far more
      than the tolerance. */
  lemma CollinearPointsGetCircle()
    ensures var a, b, c := Point(0.0, 0.0), Point(1.0, 0.000000002), Point(3.0, 0.000000006);
            Collinear(a, b, c) && CircleFromPoints(a, b, c).Some?
  {
    var a, b, c := Point(0.0, 0.0), Point(1.0, 0.000000002), Point(3.0, 0.000000006);
    assert BisectorSlope(a, b) == Some(-1000000000.0);
    assert BisectorSlope(b, c) == Some(-2.0 / 0.000000003);
  }

  /** Three collinear points on a line of slope one have no circle, as written. */
  lemma DiagonalHasNoCircle()
    ensures CircleFromPoints(Point(0.0, 0.0), Point(1.0, 1.0), Point(2.0, 2.0)).None?
  {
  }

  /** A right triangle with a horizontal leg gets no circle: the horizontal
      segment has no finite bisector slope. */
  lemma HorizontalLegHasNoCircle()
    ensures CircleFromPoints(Point(0.0, 0.0), Point(10.0, 0.0), Point(0.0, 10.0)).None?
  {
  }
}
