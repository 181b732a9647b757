/** demo.py: `find_valid_circles`, which keeps only the combinations whose
    circle exists and splits the remaining points one strictly inside and one
    strictly outside, and the first four of them that `update_main_plot` shows. */
module Demo {
  import opened Geometry
  import opened Combinations
  import opened Classify
  import opened AnalyzeAll

  /** One element `(center, radius, comb)` of find_valid_circles' result. */
  datatype ValidCircle = ValidCircle(circle: Circle, comb: Comb)

  /** The test find_valid_circles applies to one combination. */
  predicate StrictValid(points: seq<Point>, comb: Comb)
  {
    var circle := CircleFromPoints(comb.a, comb.b, comb.c);
    circle.Some? && OneInOneOut(circle.value, Remaining(points, comb))
  }

  function StrictTest(points: seq<Point>): Comb -> bool
  {
    comb => StrictValid(points, comb)
  }

  /** The element find_valid_circles appends for one combination, if any. */
  function Select(points: seq<Point>, comb: Comb): Option<ValidCircle>
  {
    match CircleFromPoints(comb.a, comb.b, comb.c)
    case None => None
    case Some(circle) =>
      if OneInOneOut(circle, Remaining(points, comb)) then Some(ValidCircle(circle, comb)) else None
  }

  /** The elements appended while the loop runs over combs. */
  function ValidCircles(points: seq<Point>, combs: seq<Comb>): (r: seq<ValidCircle>)
    ensures |r| <= |combs|
  {
    if combs == [] then []
    else
      var init := ValidCircles(points, combs[..|combs| - 1]);
      match Select(points, combs[|combs| - 1])
      case None => init
      case Some(v) => init + [v]
  }

  /** Every valid circle comes from one of the combinations, is the circle
      circle_from_points builds for it, and has exactly one remaining point
      strictly inside and one strictly outside. */
  lemma {:induction false} ValidCirclesSound(points: seq<Point>, combs: seq<Comb>, v: ValidCircle)
    requires v in ValidCircles(points, combs)
    ensures v.comb in combs
    ensures CircleFromPoints(v.comb.a, v.comb.b, v.comb.c) == Some(v.circle)
    ensures |Filter(Inside(v.circle), Remaining(points, v.comb))| == 1
    ensures |Filter(Outside(v.circle), Remaining(points, v.comb))| == 1
  {
    var init, last := combs[..|combs| - 1], combs[|combs| - 1];
    if v in ValidCircles(points, init) {
      ValidCirclesSound(points, init, v);
    }
  }

  /** The result grows by one exactly for a combination that passes the test. */
  lemma ValidCirclesGrowth(points: seq<Point>, combs: seq<Comb>)
    requires combs != []
    ensures |ValidCircles(points, combs)|
            == |ValidCircles(points, combs[..|combs| - 1])| + (if StrictValid(points, combs[|combs| - 1]) then 1 else 0)
  {
  }

  /** One more combination appends its circle exactly when it passes the test. */
  lemma ValidCirclesStep(points: seq<Point>, combs: seq<Comb>, m: nat)
    requires m < |combs|
    ensures !StrictValid(points, combs[m]) ==> ValidCircles(points, combs[..m + 1]) == ValidCircles(points, combs[..m])
    ensures StrictValid(points, combs[m]) ==>
              var comb := combs[m];
              ValidCircles(points, combs[..m + 1])
              == ValidCircles(points, combs[..m]) + [ValidCircle(CircleFromPoints(comb.a, comb.b, comb.c).value, comb)]
  {
    assert combs[..m + 1][..m] == combs[..m];
  }

  /** find_valid_circles(points) as a value. */
  function ValidCirclesOf(points: seq<Point>): seq<ValidCircle>
  {
    ValidCircles(points, CombsOf(points))
  }

  /** The combinations the valid circles come from, in result order. */
  function CombsOfValid(r: seq<ValidCircle>): (cs: seq<Comb>)
    ensures |cs| == |r|
    ensures forall m :: 0 <= m < |r| ==> cs[m] == r[m].comb
  {
    if r == [] then [] else CombsOfValid(r[..|r| - 1]) + [r[|r| - 1].comb]
  }

  lemma SelectKeepsCombination(points: seq<Point>, comb: Comb)
    ensures Select(points, comb).Some? <==> StrictTest(points)(comb)
    ensures Select(points, comb).Some? ==> Select(points, comb).value.comb == comb
  {
  }

  lemma CombsOfValidAppend(r: seq<ValidCircle>, tail: seq<ValidCircle>)
    requires |tail| <= 1
    ensures CombsOfValid(r + tail) == CombsOfValid(r) + CombsOfValid(tail)
  {
    if tail != [] {
      assert (r + tail)[..|r + tail| - 1] == r;
    } else {
      assert r + tail == r;
    }
  }

  /** find_valid_circles yields, in combination order, exactly the
      combinations whose circle exists and whose remaining points split one
      strictly inside and one strictly outside. */
  lemma {:induction false} ValidCirclesFollowCombinations(points: seq<Point>, combs: seq<Comb>)
    ensures CombsOfValid(ValidCircles(points, combs)) == Filter(StrictTest(points), combs)
  {
    if combs != [] {
      var init, last := combs[..|combs| - 1], combs[|combs| - 1];
      var r := ValidCircles(points, init);
      var tail := match Select(points, last) case None => [] case Some(v) => [v];
      assert ValidCircles(points, combs) == r + tail;
      InitLast(combs);
      ValidCirclesFollowCombinations(points, init);
      FilterSnoc(StrictTest(points), init, last);
      SelectKeepsCombination(points, last);
      CombsOfValidAppend(r, tail);
    }
  }

  /** The valid elements of analyze_circles' result, without their flag. */
  function OnlyValid(results: seq<Analysis>): seq<ValidCircle>
  {
    if results == [] then []
    else
      var last := results[|results| - 1];
      OnlyValid(results[..|results| - 1]) + (if last.valid then [ValidCircle(last.circle, last.comb)] else [])
  }

  lemma OnlyValidAppend(results: seq<Analysis>, tail: seq<Analysis>)
    requires |tail| <= 1
    ensures OnlyValid(results + tail) == OnlyValid(results) + OnlyValid(tail)
  {
    if tail != [] {
      assert (results + tail)[..|results + tail| - 1] == results;
    } else {
      assert results + tail == results;
    }
  }

  /** find_valid_circles in demo.py is analyze_circles in all.py with the
      invalid results dropped. */
  lemma {:induction false} ValidCirclesAreValidAnalyses(points: seq<Point>, combs: seq<Comb>)
    ensures ValidCircles(points, combs) == OnlyValid(AnalyzeEach(points, combs))
  {
    if combs != [] {
      var init, last := combs[..|combs| - 1], combs[|combs| - 1];
      var analyses := AnalyzeEach(points, init);
      var tail := match Analyze(points, last) case None => [] case Some(e) => [e];
      assert AnalyzeEach(points, combs) == analyses + tail;
      ValidCirclesAreValidAnalyses(points, init);
      OnlyValidAppend(analyses, tail);
    }
  }

  /** find_valid_circles(points). */
  method FindValidCircles(points: seq<Point>) returns (validCircles: seq<ValidCircle>)
    ensures validCircles == ValidCirclesOf(points)
    ensures |validCircles| <= Choose3(|points|)
  {
    var combs := CombsOf(points);
    validCircles := [];
    for m := 0 to |combs|
      invariant validCircles == ValidCircles(points, combs[..m])
    {
      ValidCirclesStep(points, combs, m);
      var comb := combs[m];
      var circle, valid := CheckCombination(points, comb);
      if circle.None? {
        continue;
      }
      if valid {
        validCircles := validCircles + [ValidCircle(circle.value, comb)];
      }
    }
    assert combs[..|combs|] == combs;
    CombinationCount(|points|);
  }

  function Min(a: nat, b: nat): nat
  {
    if a < b then a else b
  }

  /** `find_valid_circles(points)[:4]` in update_main_plot: the first
      min(4, k) of the k valid circles, in their order. */
  method ShownValidCircles(points: seq<Point>) returns (shown: seq<ValidCircle>)
    ensures |shown| == Min(4, |ValidCirclesOf(points)|)
    ensures shown == ValidCirclesOf(points)[..|shown|]
  {
    var validCircles := FindValidCircles(points);
    shown := validCircles[..Min(4, |validCircles|)];
  }
}
