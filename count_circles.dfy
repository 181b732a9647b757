/** count_circles.py: count, for one point set, the combinations whose circle
    has exactly one remaining point inside and one not inside, and tabulate
    that count over a sequence of trials (the Monte-Carlo histogram). */
module CountCircles {
  import opened Geometry
  import opened Combinations
  import opened Classify

  /** The test count_circle_point_relationships applies to one combination:
      it has a circle, and of the remaining points exactly one is inside and
      exactly one is not inside. */
  predicate LooseValid(points: seq<Point>, comb: Comb)
  {
    var circle := CircleFromPoints(comb.a, comb.b, comb.c);
    circle.Some? && LooseOneInOneOut(circle.value, Remaining(points, comb))
  }

  function LooseTest(points: seq<Point>): Comb -> bool
  {
    comb => LooseValid(points, comb)
  }

  /** The number of combinations among combs that pass the test. */
  function LooseValidCount(points: seq<Point>, combs: seq<Comb>): (r: nat)
    ensures r <= |combs|
  {
    if combs == [] then 0
    else LooseValidCount(points, combs[..|combs| - 1]) + (if LooseValid(points, combs[|combs| - 1]) then 1 else 0)
  }

  /** The count is the number of combinations, in order, that pass the test:
      it rises exactly for a combination that has a circle and a 1-1 split. */
  lemma {:induction false} LooseValidCountIsFilter(points: seq<Point>, combs: seq<Comb>)
    ensures LooseValidCount(points, combs) == |Filter(LooseTest(points), combs)|
  {
    if combs != [] {
      var init, last := combs[..|combs| - 1], combs[|combs| - 1];
      LooseValidCountIsFilter(points, init);
      assert combs == init + [last];
      FilterSnoc(LooseTest(points), init, last);
    }
  }

  /** One more combination raises the count exactly when it passes the test. */
  lemma LooseValidCountStep(points: seq<Point>, combs: seq<Comb>, m: nat)
    requires m < |combs|
    ensures LooseValidCount(points, combs[..m + 1])
            == LooseValidCount(points, combs[..m]) + (if LooseValid(points, combs[m]) then 1 else 0)
  {
    assert combs[..m + 1][..m] == combs[..m];
  }

  /** The number of combinations of the point set that pass the test. */
  function ValidCircleCount(points: seq<Point>): nat
  {
    LooseValidCount(points, CombsOf(points))
  }

  /** count_circle_point_relationships(points). */
  method CountCircleRelationships(points: seq<Point>) returns (count: nat)
    ensures count == ValidCircleCount(points)
    ensures count <= Choose3(|points|)
  {
    var combs := CombsOf(points);
    count := 0;
    for m := 0 to |combs|
      invariant count == LooseValidCount(points, combs[..m])
    {
      LooseValidCountStep(points, combs, m);
      var comb := combs[m];
      var circle := CircleFromPoints(comb.a, comb.b, comb.c);
      if circle.None? {
        continue;
      }
      var remaining := Remaining(points, comb);
      var inside := Filter(Inside(circle.value), remaining);
      var outside := Filter(NotInside(circle.value), remaining);
      if |inside| == 1 && |outside| == 1 {
        count := count + 1;
      }
    }
    assert combs[..|combs|] == combs;
    CombinationCount(|points|);
  }

  /** A five-point set has between 0 and C(5, 3) = 10 valid circles. */
  lemma FivePointCountBound(points: seq<Point>)
    requires |points| == 5
    ensures ValidCircleCount(points) <= 10
  {
    FivePointsTenCombinations(points);
  }

  // ---------------------------------------------------------------------------
  // The trial loop (count_circles.py, module level).

  /** C(5, 3): the largest count a trial of five points can produce. */
  const MaxCount: nat := 10

  /** The count each trial's point set produces. */
  function TrialCounts(samples: seq<seq<Point>>): seq<nat>
  {
    seq(|samples|, q requires 0 <= q < |samples| => ValidCircleCount(samples[q]))
  }

  /** The position of the first occurrence of c in cs. */
  function FirstIndex(cs: seq<nat>, c: nat): (r: nat)
    requires c in cs
    ensures r < |cs| && cs[r] == c
    ensures forall q :: 0 <= q < r ==> cs[q] != c
  {
    if cs[0] == c then 0 else 1 + FirstIndex(cs[1..], c)
  }

  /** The sum of the histogram's values over the keys below bound. */
  function SumBelow(results: map<nat, nat>, bound: nat): nat
  {
    if bound == 0 then 0
    else SumBelow(results, bound - 1) + (if bound - 1 in results then results[bound - 1] else 0)
  }

  lemma FirstIndexUnique(cs: seq<nat>, c: nat, r: nat)
    requires r < |cs| && cs[r] == c
    requires forall q :: 0 <= q < r ==> cs[q] != c
    ensures FirstIndex(cs, c) == r
  {
    var f := FirstIndex(cs, c);
    assert !(f < r) && !(r < f);
  }

  lemma {:induction false} SumBelowBump(results: map<nat, nat>, c: nat, bound: nat)
    ensures SumBelow(results[c := (if c in results then results[c] else 0) + 1], bound)
            == SumBelow(results, bound) + (if c < bound then 1 else 0)
  {
    if bound > 0 {
      SumBelowBump(results, c, bound - 1);
    }
  }

  /** After the trials whose counts are cs: `results` holds how many times
      each count occurred (every count at most 10, the values summing to the
      number of trials) and `examples` the point set of its first occurrence. */
  ghost predicate Tabulates(results: map<nat, nat>, examples: map<nat, seq<Point>>, samples: seq<seq<Point>>, cs: seq<nat>)
  {
    && |cs| <= |samples|
    && results.Keys == examples.Keys
    && (forall c :: c in results <==> c in cs)
    && (forall c :: c in results ==> results[c] == multiset(cs)[c])
    && (forall c :: c in results ==> c <= MaxCount)
    && SumBelow(results, MaxCount + 1) == |cs|
    && (forall c :: c in examples ==> examples[c] == samples[FirstIndex(cs, c)])
  }

  lemma KeysStep(results: map<nat, nat>, cs: seq<nat>, count: nat, v: nat)
    requires forall c :: c in results <==> c in cs
    ensures forall c :: c in results[count := v] <==> c in cs + [count]
  {
  }

  lemma CountsStep(results: map<nat, nat>, cs: seq<nat>, count: nat, v: nat)
    requires forall c :: c in results <==> c in cs
    requires forall c :: c in results ==> results[c] == multiset(cs)[c]
    requires v == if count in results then results[count] + 1 else 1
    ensures forall c :: c in results[count := v] ==> results[count := v][c] == multiset(cs + [count])[c]
  {
    assert multiset(cs + [count]) == multiset(cs) + multiset{count};
    assert count !in results ==> multiset(cs)[count] == 0;
  }

  lemma ExamplesStep(examples: map<nat, seq<Point>>, examples': map<nat, seq<Point>>, samples: seq<seq<Point>>,
                     cs: seq<nat>, count: nat)
    requires |cs| < |samples|
    requires forall c :: c in examples <==> c in cs
    requires forall c :: c in examples ==> examples[c] == samples[FirstIndex(cs, c)]
    requires examples' == if count in examples then examples else examples[count := samples[|cs|]]
    ensures forall c :: c in examples' ==> examples'[c] == samples[FirstIndex(cs + [count], c)]
  {
    var cs' := cs + [count];
    forall c | c in examples
      ensures FirstIndex(cs', c) == FirstIndex(cs, c)
    {
      FirstIndexUnique(cs', c, FirstIndex(cs, c));
    }
    if count !in examples {
      FirstIndexUnique(cs', count, |cs|);
    }
  }

  lemma SumStep(results: map<nat, nat>, cs: seq<nat>, count: nat, v: nat)
    requires SumBelow(results, MaxCount + 1) == |cs| && count <= MaxCount
    requires v == if count in results then results[count] + 1 else 1
    ensures SumBelow(results[count := v], MaxCount + 1) == |cs + [count]|
  {
    SumBelowBump(results, count, MaxCount + 1);
  }

  /** One pass of the loop body keeps the tabulation up to date: a new count
      gets the value 1 and the trial's point set, a count seen before is
      incremented and keeps its example. */
  lemma TabulateStep(results: map<nat, nat>, examples: map<nat, seq<Point>>, samples: seq<seq<Point>>,
                     cs: seq<nat>, count: nat, v: nat, examples': map<nat, seq<Point>>)
    requires Tabulates(results, examples, samples, cs)
    requires |cs| < |samples| && count <= MaxCount
    requires v == if count in results then results[count] + 1 else 1
    requires examples' == if count in results then examples else examples[count := samples[|cs|]]
    ensures Tabulates(results[count := v], examples', samples, cs + [count])
  {
    KeysStep(results, cs, count, v);
    CountsStep(results, cs, count, v);
    ExamplesStep(examples, examples', samples, cs, count);
    SumStep(results, cs, count, v);
    SameKeysStep(results, examples, count, v, examples');
  }

  lemma SameKeysStep<V>(results: map<nat, nat>, examples: map<nat, V>, count: nat, v: nat, examples': map<nat, V>)
    requires results.Keys == examples.Keys
    requires count in results ==> examples' == examples
    requires count !in results ==> examples'.Keys == examples.Keys + {count}
    ensures results[count := v].Keys == examples'.Keys
  {
  }

  /** The trial loop of count_circles.py over the point sets the sampler
      produced: `results` maps each count to how many trials produced it and
      `example_points` keeps the first point set that produced it. */
  method RunTrials(samples: seq<seq<Point>>) returns (results: map<nat, nat>, examples: map<nat, seq<Point>>)
    requires forall q :: 0 <= q < |samples| ==> |samples[q]| == 5
    ensures results.Keys == examples.Keys
    ensures forall c :: c in results <==> c in TrialCounts(samples)
    ensures forall c :: c in results ==> results[c] == multiset(TrialCounts(samples))[c]
    ensures forall c :: c in results ==> c <= MaxCount
    ensures SumBelow(results, MaxCount + 1) == |samples|
    ensures forall c :: c in examples ==> examples[c] == samples[FirstIndex(TrialCounts(samples), c)]
  {
    ghost var cs := TrialCounts(samples);
    results, examples := map[], map[];
    for q := 0 to |samples|
      invariant Tabulates(results, examples, samples, cs[..q])
    {
      var points := samples[q];
      var count := CountCircleRelationships(points);
      assert count == cs[q] && count <= MaxCount by {
        assert Choose3(5) == 10;
      }
      PrefixSnoc(cs, q);
      if count !in results {
        TabulateStep(results, examples, samples, cs[..q], count, 1, examples[count := points]);
        results := results[count := 1];
        examples := examples[count := points];
      } else {
        TabulateStep(results, examples, samples, cs[..q], count, results[count] + 1, examples);
        results := results[count := results[count] + 1];
      }
    }
    assert cs[..|samples|] == cs;
  }
}
