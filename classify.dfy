/** The list comprehensions the scripts use to classify points against a
    circle: the remaining points of a combination, the points strictly inside,
    the points not inside (count_circles.py) and the points strictly outside
    (all.py, demo.py, visualize.py). */
module Classify {
  import opened Geometry
  import opened Combinations

  /** `[x for x in s if keep(x)]`. */
  function Filter<T(!new)>(keep: T -> bool, s: seq<T>): (r: seq<T>)
    ensures |r| <= |s|
    ensures forall x :: x in r <==> x in s && keep(x)
  {
    if s == [] then [] else (if keep(s[0]) then [s[0]] else []) + Filter(keep, s[1..])
  }

  /** `is_inside_circle`: `norm(point - center) < radius`, on squares. */
  predicate IsInsideCircle(circle: Circle, p: Point)
  {
    DistSq(p, circle.center) < circle.radiusSq
  }

  /** `norm(p - center) > radius`, on squares. */
  predicate IsOutsideCircle(circle: Circle, p: Point)
  {
    DistSq(p, circle.center) > circle.radiusSq
  }

  predicate IsOnCircle(circle: Circle, p: Point)
  {
    DistSq(p, circle.center) == circle.radiusSq
  }

  /** The test of the remaining-points comprehension: p equals none of the
      three chosen points (value equality, as `p not in comb` and
      `np.array_equal` compare). */
  function NotChosen(comb: Comb): Point -> bool
  {
    p => p != comb.a && p != comb.b && p != comb.c
  }

  function Chosen(comb: Comb): Point -> bool
  {
    p => p == comb.a || p == comb.b || p == comb.c
  }

  function Inside(circle: Circle): Point -> bool
  {
    p => IsInsideCircle(circle, p)
  }

  function NotInside(circle: Circle): Point -> bool
  {
    p => !IsInsideCircle(circle, p)
  }

  function Outside(circle: Circle): Point -> bool
  {
    p => IsOutsideCircle(circle, p)
  }

  function OnBoundary(circle: Circle): Point -> bool
  {
    p => IsOnCircle(circle, p)
  }

  /** `remaining_points`: every point of the set not value-equal to a chosen one. */
  function Remaining(points: seq<Point>, comb: Comb): (r: seq<Point>)
    ensures forall p :: p in r <==> p in points && p != comb.a && p != comb.b && p != comb.c
  {
    Filter(NotChosen(comb), points)
  }

  /** The 1-1 split of all.py, demo.py and visualize.py: exactly one remaining
      point strictly inside and exactly one strictly outside. */
  predicate OneInOneOut(circle: Circle, remaining: seq<Point>)
  {
    |Filter(Inside(circle), remaining)| == 1 && |Filter(Outside(circle), remaining)| == 1
  }

  /** The loop body shared by all.py, demo.py and visualize.py for one
      combination: build its circle and, when there is one, split the remaining
      points into those strictly inside and those strictly outside. */
  method CheckCombination(points: seq<Point>, comb: Comb) returns (circle: Option<Circle>, valid: bool)
    ensures circle == CircleFromPoints(comb.a, comb.b, comb.c)
    ensures valid <==> circle.Some? && OneInOneOut(circle.value, Remaining(points, comb))
  {
    circle := CircleFromPoints(comb.a, comb.b, comb.c);
    if circle.None? {
      return circle, false;
    }
    var remaining := Remaining(points, comb);
    var inside := Filter(Inside(circle.value), remaining);
    var outside := Filter(Outside(circle.value), remaining);
    valid := |inside| == 1 && |outside| == 1;
  }

  /** The 1-1 split of count_circles.py, where "outside" is "not inside", so a
      point on the circle counts as outside. */
  predicate LooseOneInOneOut(circle: Circle, remaining: seq<Point>)
  {
    |Filter(Inside(circle), remaining)| == 1 && |Filter(NotInside(circle), remaining)| == 1
  }

  ghost predicate Distinct<T>(s: seq<T>)
  {
    forall p, q :: 0 <= p < q < |s| ==> s[p] != s[q]
  }

  /** Comparing norms is comparing squared norms: with `dist` and `radius` the
      non-negative roots the scripts compute, the squared tests agree with
      `dist < radius` and `dist > radius`. */
  lemma InsideMatchesNorm(circle: Circle, p: Point, dist: real, radius: real)
    requires dist >= 0.0 && radius >= 0.0
    requires dist * dist == DistSq(p, circle.center) && radius * radius == circle.radiusSq
    ensures IsInsideCircle(circle, p) <==> dist < radius
    ensures IsOutsideCircle(circle, p) <==> dist > radius
  {
    StrictLessUnderSquares(dist, radius);
    StrictLessUnderSquares(radius, dist);
  }

  /** `[x for x in s + [y] if keep(x)]` extends the filter of s by y when y passes. */
  lemma {:induction false} FilterSnoc<T(!new)>(keep: T -> bool, s: seq<T>, y: T)
    ensures Filter(keep, s + [y]) == Filter(keep, s) + (if keep(y) then [y] else [])
  {
    if s != [] {
      assert (s + [y])[1..] == s[1..] + [y];
      FilterSnoc(keep, s[1..], y);
    } else {
      assert s + [y] == [y];
    }
  }

  lemma PrefixSnoc<T>(s: seq<T>, q: nat)
    requires q < |s|
    ensures s[..q + 1] == s[..q] + [s[q]]
  {
  }

  lemma InitLast<T>(s: seq<T>)
    requires s != []
    ensures s == s[..|s| - 1] + [s[|s| - 1]]
  {
  }

  lemma {:induction false} FilterComplement<T(!new)>(keep: T -> bool, drop: T -> bool, s: seq<T>)
    requires forall x :: drop(x) == !keep(x)
    ensures |Filter(keep, s)| + |Filter(drop, s)| == |s|
  {
    if s != [] {
      FilterComplement(keep, drop, s[1..]);
    }
  }

  lemma {:induction false} FilterThreeWay<T(!new)>(f: T -> bool, g: T -> bool, h: T -> bool, s: seq<T>)
    requires forall x :: (f(x) ==> !g(x) && !h(x)) && (g(x) ==> !h(x)) && (f(x) || g(x) || h(x))
    ensures |Filter(f, s)| + |Filter(g, s)| + |Filter(h, s)| == |s|
  {
    if s != [] {
      FilterThreeWay(f, g, h, s[1..]);
    }
  }

  lemma {:induction false} FilterAgree<T(!new)>(f: T -> bool, g: T -> bool, s: seq<T>)
    requires forall x :: x in s ==> f(x) == g(x)
    ensures Filter(f, s) == Filter(g, s)
  {
    if s != [] {
      FilterAgree(f, g, s[1..]);
    }
  }

  lemma {:induction false} FilterDistinct<T(!new)>(f: T -> bool, s: seq<T>)
    requires Distinct(s)
    ensures Distinct(Filter(f, s))
  {
    if s != [] {
      FilterDistinct(f, s[1..]);
      var rest := Filter(f, s[1..]);
      assert s[0] !in s[1..];
      assert s[0] !in rest;
      var r := Filter(f, s);
      if f(s[0]) {
        assert r == [s[0]] + rest;
        forall p, q | 0 <= p < q < |r| ensures r[p] != r[q] {
          if p == 0 {
            assert r[q] == rest[q - 1];
          } else {
            assert r[p] == rest[p - 1] && r[q] == rest[q - 1];
          }
        }
      }
    }
  }

  lemma {:induction false} DistinctCard<T>(s: seq<T>)
    requires Distinct(s)
    ensures |set x | x in s| == |s|
  {
    if s != [] {
      assert Distinct(s[1..]) by {
        forall p, q | 0 <= p < q < |s[1..]| ensures s[1..][p] != s[1..][q] {
          assert s[1..][p] == s[p + 1] && s[1..][q] == s[q + 1];
        }
      }
      DistinctCard(s[1..]);
      assert s[0] !in s[1..];
      assert (set x | x in s) == {s[0]} + (set x | x in s[1..]);
    }
  }

  /** In count_circles.py a point on the circle counts as outside, so inside
      and outside together are all the remaining points. */
  lemma LooseSplitCoversAll(circle: Circle, remaining: seq<Point>)
    ensures |Filter(Inside(circle), remaining)| + |Filter(NotInside(circle), remaining)| == |remaining|
  {
    FilterComplement(Inside(circle), NotInside(circle), remaining);
  }

  /** In all.py, demo.py and visualize.py inside and outside are disjoint, a
      point on the circle is in neither, and the three kinds account for every
      remaining point. */
  lemma StrictSplitWithBoundary(circle: Circle, remaining: seq<Point>)
    ensures forall p :: !(p in Filter(Inside(circle), remaining) && p in Filter(Outside(circle), remaining))
    ensures forall p :: IsOnCircle(circle, p) ==>
              p !in Filter(Inside(circle), remaining) && p !in Filter(Outside(circle), remaining)
    ensures |Filter(Inside(circle), remaining)| + |Filter(Outside(circle), remaining)|
              + |Filter(OnBoundary(circle), remaining)| == |remaining|
  {
    FilterThreeWay(Inside(circle), Outside(circle), OnBoundary(circle), remaining);
  }

  /** When no remaining point lies exactly on the circle, the split of
      count_circles.py and the strict split of the other scripts agree. */
  lemma LooseAndStrictAgreeOffBoundary(circle: Circle, remaining: seq<Point>)
    requires forall p :: p in remaining ==> !IsOnCircle(circle, p)
    ensures LooseOneInOneOut(circle, remaining) <==> OneInOneOut(circle, remaining)
  {
    FilterAgree(NotInside(circle), Outside(circle), remaining);
  }

  /** For pairwise distinct points, a combination leaves exactly n - 3 remaining points. */
  lemma RemainingCount(points: seq<Point>, t: Triple)
    requires Distinct(points) && Increasing(t, |points|)
    ensures |Remaining(points, Comb(points[t.i], points[t.j], points[t.k]))| == |points| - 3
  {
    var comb := Comb(points[t.i], points[t.j], points[t.k]);
    FilterComplement(NotChosen(comb), Chosen(comb), points);
    ChosenCount(points, comb);
  }

  lemma ChosenCount(points: seq<Point>, comb: Comb)
    requires Distinct(points)
    requires comb.a in points && comb.b in points && comb.c in points
    requires comb.a != comb.b && comb.a != comb.c && comb.b != comb.c
    ensures |Filter(Chosen(comb), points)| == 3
  {
    var chosen := Filter(Chosen(comb), points);
    FilterDistinct(Chosen(comb), points);
    DistinctCard(chosen);
    ChosenSet(points, comb);
    assert |{comb.a, comb.b, comb.c}| == 3;
  }

  lemma ChosenSet(points: seq<Point>, comb: Comb)
    requires comb.a in points && comb.b in points && comb.c in points
    ensures (set x | x in Filter(Chosen(comb), points)) == {comb.a, comb.b, comb.c}
  {
    var chosen := Filter(Chosen(comb), points);
    forall x
      ensures x in chosen <==> x == comb.a || x == comb.b || x == comb.c
    {
      assert x in chosen <==> x in points && Chosen(comb)(x);
    }
  }
}
