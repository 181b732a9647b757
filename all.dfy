/** all.py: `analyze_circles`, which reports, for every combination that has
    a circle, the circle, the combination and whether its remaining points
    split exactly one strictly inside and one strictly outside. */
module AnalyzeAll {
  import opened Geometry
  import opened Combinations
  import opened Classify

  /** One element `(center, radius, comb, valid)` of analyze_circles' result. */
  datatype Analysis = Analysis(circle: Circle, comb: Comb, valid: bool)

  predicate HasCircle(comb: Comb)
  {
    CircleFromPoints(comb.a, comb.b, comb.c).Some?
  }

  function HasCircleTest(): Comb -> bool
  {
    comb => HasCircle(comb)
  }

  /** The loop body of analyze_circles for one combination: nothing when it
      has no circle, else its analysis. */
  function Analyze(points: seq<Point>, comb: Comb): Option<Analysis>
  {
    match CircleFromPoints(comb.a, comb.b, comb.c)
    case None => None
    case Some(circle) => Some(Analysis(circle, comb, OneInOneOut(circle, Remaining(points, comb))))
  }

  /** The results appended while the loop runs over combs. */
  function AnalyzeEach(points: seq<Point>, combs: seq<Comb>): (r: seq<Analysis>)
    ensures |r| <= |combs|
    ensures forall e :: e in r ==> e.comb in combs && Analyze(points, e.comb) == Some(e)
  {
    if combs == [] then []
    else
      var init := AnalyzeEach(points, combs[..|combs| - 1]);
      match Analyze(points, combs[|combs| - 1])
      case None => init
      case Some(e) => init + [e]
  }

  /** One more combination appends its analysis, if it has a circle. */
  lemma AnalyzeEachStep(points: seq<Point>, combs: seq<Comb>, m: nat)
    requires m < |combs|
    ensures AnalyzeEach(points, combs[..m + 1])
            == AnalyzeEach(points, combs[..m]) + (match Analyze(points, combs[m]) case None => [] case Some(e) => [e])
  {
    assert combs[..m + 1][..m] == combs[..m];
  }

  /** analyze_circles(points) as a value. */
  function AnalyzeCirclesOf(points: seq<Point>): seq<Analysis>
  {
    AnalyzeEach(points, CombsOf(points))
  }

  /** The combinations the results come from, in result order. */
  function CombsOfResults(r: seq<Analysis>): (cs: seq<Comb>)
    ensures |cs| == |r|
    ensures forall m :: 0 <= m < |r| ==> cs[m] == r[m].comb
  {
    if r == [] then [] else CombsOfResults(r[..|r| - 1]) + [r[|r| - 1].comb]
  }

  /** Each element describes its own combination: the circle is the one
      circle_from_points builds for it, and `valid` holds exactly when one
      remaining point is strictly inside and one strictly outside. */
  lemma AnalysisDescribesCombination(points: seq<Point>, e: Analysis)
    requires e in AnalyzeCirclesOf(points)
    ensures e.comb in CombsOf(points)
    ensures CircleFromPoints(e.comb.a, e.comb.b, e.comb.c) == Some(e.circle)
    ensures e.valid <==> |Filter(Inside(e.circle), Remaining(points, e.comb))| == 1
                         && |Filter(Outside(e.circle), Remaining(points, e.comb))| == 1
  {
  }

  /** The results are the combinations that have a circle, one result each,
      in combination order; those without a circle are left out. */
  lemma {:induction false} ResultsFollowCombinations(points: seq<Point>, combs: seq<Comb>)
    ensures CombsOfResults(AnalyzeEach(points, combs)) == Filter(HasCircleTest(), combs)
  {
    if combs != [] {
      var init, last := combs[..|combs| - 1], combs[|combs| - 1];
      var r := AnalyzeEach(points, init);
      var tail := match Analyze(points, last) case None => [] case Some(e) => [e];
      assert AnalyzeEach(points, combs) == r + tail;
      InitLast(combs);
      ResultsFollowCombinations(points, init);
      FilterSnoc(HasCircleTest(), init, last);
      AnalyzeKeepsCombination(points, last);
      CombsOfResultsAppend(r, tail);
    }
  }

  lemma AnalyzeKeepsCombination(points: seq<Point>, comb: Comb)
    ensures Analyze(points, comb).Some? <==> HasCircleTest()(comb)
    ensures Analyze(points, comb).Some? ==> Analyze(points, comb).value.comb == comb
  {
  }

  lemma CombsOfResultsAppend(r: seq<Analysis>, tail: seq<Analysis>)
    requires |tail| <= 1
    ensures CombsOfResults(r + tail) == CombsOfResults(r) + CombsOfResults(tail)
  {
    if tail != [] {
      assert (r + tail)[..|r + tail| - 1] == r;
    } else {
      assert r + tail == r;
    }
  }

  /** analyze_circles(points). */
  method AnalyzeCircles(points: seq<Point>) returns (results: seq<Analysis>)
    ensures results == AnalyzeCirclesOf(points)
    ensures |results| <= Choose3(|points|)
  {
    var combs := CombsOf(points);
    results := [];
    for m := 0 to |combs|
      invariant results == AnalyzeEach(points, combs[..m])
    {
      AnalyzeEachStep(points, combs, m);
      var comb := combs[m];
      var circle, valid := CheckCombination(points, comb);
      if circle.None? {
        continue;
      }
      results := results + [Analysis(circle.value, comb, valid)];
    }
    assert combs[..|combs|] == combs;
    CombinationCount(|points|);
  }
}
