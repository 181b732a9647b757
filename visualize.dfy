/** visualize.py: for one example point set, walk the combinations in order
    and draw, panel by panel, the circles whose remaining points split one
    strictly inside and one strictly outside, stopping once all four panels
    are used. */
module Visualize {
  import opened Geometry
  import opened Combinations
  import opened Classify
  import opened Demo

  /** `num_circles`: the number of panels per example. */
  const NumCircles: nat := 4

  /** The valid circles found among the first m combinations are the first
      ones found among all of them. */
  lemma {:induction false} ValidCirclesPrefix(points: seq<Point>, combs: seq<Comb>, m: nat)
    requires m <= |combs|
    ensures |ValidCircles(points, combs[..m])| <= |ValidCircles(points, combs)|
    ensures ValidCircles(points, combs)[..|ValidCircles(points, combs[..m])|] == ValidCircles(points, combs[..m])
  {
    if m < |combs| {
      var init := combs[..|combs| - 1];
      assert init[..m] == combs[..m];
      ValidCirclesPrefix(points, init, m);
      var r := ValidCircles(points, init);
      var k := |ValidCircles(points, combs[..m])|;
      assert ValidCircles(points, combs)[..|r|] == r;
      assert ValidCircles(points, combs)[..k] == r[..k];
    } else {
      assert combs[..m] == combs;
    }
  }

  /** Where the loop ends: either after every combination or just after the
      combination that filled the last panel. */
  lemma StopsAfterFour(points: seq<Point>, combs: seq<Comb>, m: nat)
    requires m <= |combs|
    requires |ValidCircles(points, combs[..m])| <= NumCircles
    requires m < |combs| ==> |ValidCircles(points, combs[..m])| >= NumCircles
    ensures |ValidCircles(points, combs[..m])| == Min(NumCircles, |ValidCircles(points, combs)|)
    ensures ValidCircles(points, combs[..m]) == ValidCircles(points, combs)[..|ValidCircles(points, combs[..m])|]
  {
    ValidCirclesPrefix(points, combs, m);
    if m == |combs| {
      assert combs[..m] == combs;
    }
  }

  /** The m-th combination (counting from one) is the one that filled the last
      panel: the valid circles before it do not fill the panels, it passes the
      test, and with it they do. */
  ghost predicate FilledAfter(points: seq<Point>, combs: seq<Comb>, m: nat)
  {
    && 0 < m <= |combs|
    && |ValidCircles(points, combs[..m - 1])| < NumCircles <= |ValidCircles(points, combs[..m])|
    && StrictValid(points, combs[m - 1])
  }

  lemma FillStep(points: seq<Point>, combs: seq<Comb>, k: nat)
    requires k < |combs|
    requires |ValidCircles(points, combs[..k])| < NumCircles <= |ValidCircles(points, combs[..k + 1])|
    requires StrictValid(points, combs[k])
    ensures FilledAfter(points, combs, k + 1)
  {
  }

  /** The inner loop of visualize.py for one point set: `drawn[n]` is the
      circle drawn on panel n (`circle_counter` is `|drawn|`) and `examined`
      the number of combinations looked at before the loop ended. */
  method SelectExampleCircles(points: seq<Point>) returns (drawn: seq<ValidCircle>, examined: nat)
    ensures |drawn| == Min(NumCircles, |ValidCirclesOf(points)|)
    ensures drawn == ValidCirclesOf(points)[..|drawn|]
    ensures examined <= |CombsOf(points)|
    ensures drawn == ValidCircles(points, CombsOf(points)[..examined])
    ensures examined < |CombsOf(points)| ==> |drawn| == NumCircles
    ensures examined < |CombsOf(points)| ==> FilledAfter(points, CombsOf(points), examined)
  {
    var combs := CombsOf(points);
    drawn, examined := [], 0;
    while examined < |combs|
      invariant examined <= |combs|
      invariant drawn == ValidCircles(points, combs[..examined])
      invariant |drawn| <= NumCircles
      invariant |drawn| == NumCircles ==> FilledAfter(points, combs, examined)
    {
      if |drawn| >= NumCircles {
        break;
      }
      ValidCirclesStep(points, combs, examined);
      var comb := combs[examined];
      var circle, valid := CheckCombination(points, comb);
      if circle.None? {
        examined := examined + 1;
        continue;
      }
      if valid {
        drawn := drawn + [ValidCircle(circle.value, comb)];
        if |drawn| == NumCircles {
          FillStep(points, combs, examined);
        }
      }
      examined := examined + 1;
    }
    StopsAfterFour(points, combs, examined);
  }
}
