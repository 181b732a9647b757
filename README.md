# Circumcircle classifier

Four Python scripts study the same question. Given a few points in the plane,
which triples of them define a circle that has exactly one of the other points
strictly inside it and exactly one strictly outside?

- `count_circles.py` counts such circles for one point set. It then builds a
  histogram of that count over many random five-point sets, keeping the first
  point set that produced each count.
- `all.py` (`analyze_circles`) reports every combination that has a circle,
  with a flag saying whether its split is one in and one out.
- `demo.py` (`find_valid_circles`) keeps only the valid circles, and
  `update_main_plot` shows the first four of them.
- `visualize.py` walks the combinations of an example point set. It draws
  each valid circle in the next of four panels and stops once all four are
  used.

All four share `circle_from_points`. It intersects the perpendicular
bisectors of AB and BC, computed from slopes with a tolerance of 1e-9.

The model has seven modules, one file each:

- `Geometry` (geometry.dfy): points, squared distances and the circle
  construction, written once.
- `Combinations` (combinations.dfy): `itertools.combinations(points, 3)`,
  written as position triples in lexicographic order.
- `Classify` (classify.dfy): the list comprehensions that pick the remaining
  points and sort them into inside, outside and not inside. It also holds
  the loop body shared by all.py, demo.py and visualize.py.
- `CountCircles` (count_circles.dfy): the count and the trial loop.
- `AnalyzeAll` (all.dfy): analyze_circles.
- `Demo` (demo.dfy): find_valid_circles and the `[:4]` cut.
- `Visualize` (visualize.dfy): the per-example selection loop.

Coordinates are exact reals. A circle keeps its squared radius, and every
comparison of a distance with the radius is made on squares.
`StrictLessUnderSquares` and `InsideMatchesNorm` prove this gives the same
answers as the scripts' square roots.

Each loop in the scripts is a Dafny method with a loop. Each method is proved
equal to a recursive function over the prefix of combinations examined so
far. The properties the scripts promise are lemmas about those functions.

The trial loop keeps `results` and `example_points` as local maps that it
updates entry by entry.

A right triangle with a horizontal leg, such as (0,0), (10,0), (0,10), does
have a circumcircle. The code still returns no circle for it, because the
horizontal segment has no finite bisector slope. The model follows the code
(`Geometry.HorizontalLegHasNoCircle`).

## Model

| member | source | states |
|---|---|---|
| Geometry.BisectorSlope | count_circles.py:16-17 | There is no slope exactly when \|dy\| <= 1e-9. Otherwise the denominator dy + tolerance is nonzero, and the slope times it equals -dx. |
| Geometry.CircleFromSlopes | count_circles.py:19-33 | If either slope is missing there is no circle. With both slopes, there is no circle exactly when they differ by less than the tolerance. Otherwise the centre lies on both bisector lines as written, and the radius is measured to the first point. |
| Geometry.CircleFromPoints | count_circles.py:12-33 | No circle when AB or BC is within 1e-9 of horizontal. Otherwise, no circle exactly when the two slopes differ by less than 1e-9. A returned centre satisfies y = AB_slope x + A_intercept and y = BC_slope x + B_intercept. The squared radius is the squared distance to a, and is >= 0. The function is the same text in all.py:7-29, demo.py:7-29 and visualize.py:8-33. |
| Geometry.StrictLessUnderSquares | count_circles.py:9-10 | For non-negative u and v, u < v holds exactly when u² < v². This justifies comparing squared distances. |
| Geometry.CollinearPointsGetCircle | count_circles.py:16-27 | As written, the collinear points (0,0), (1,2e-9), (3,6e-9) get a circle (see Findings). |
| Geometry.DiagonalHasNoCircle | count_circles.py:23-24 | Three points on the line y = x get no circle: their slopes coincide. |
| Geometry.HorizontalLegHasNoCircle | count_circles.py:16-29 | The right triangle (0,0), (10,0), (0,10) gets no circle, because AB is horizontal. |
| Geometry.ExactBisectorSlope | count_circles.py:16-17 | The corrected slope, without the additive tolerance: the same guard, and the slope times dy equals -dx. |
| Geometry.ExactCircleFromPoints | count_circles.py:12-33 | The corrected construction: no circle for a near-horizontal segment, and the radius is measured to a. |
| Geometry.EquidistantOnExactBisector | count_circles.py:15-17 | A point on the exact bisector of pq is equally far from p and q. |
| Geometry.ExactCircleThroughAll | count_circles.py:31-33 | A circle from the corrected construction passes through all three points. |
| Geometry.ExactRejectsCollinear | count_circles.py:23-24 | The corrected construction returns no circle for collinear points. |
| Combinations.CombsOf | count_circles.py:39 | `combinations(points, 3)` yields one tuple per position triple. |
| Combinations.CombsAtPositions | count_circles.py:39 | The m-th combination is the tuple of points at the m-th triple of positions i < j < k < n. |
| Combinations.CombinationsInOrder | count_circles.py:39 | Position triples come in strictly increasing lexicographic order, so none repeats. |
| Combinations.CombinationsComplete | count_circles.py:39 | Every choice of positions i < j < k < n is enumerated. |
| Combinations.CombinationCount | count_circles.py:39 | There are C(n, 3) combinations. |
| Combinations.Choose3ClosedForm | count_circles.py:39 | 6 · C(n, 3) = n (n - 1) (n - 2). |
| Combinations.FivePointsTenCombinations | count_circles.py:63 | A five-point set has 10 combinations. |
| Classify.InsideMatchesNorm | count_circles.py:6-10 | `is_inside_circle` on squares agrees with `dist < radius` on the roots. The strictly-outside test agrees with `dist > radius`. |
| Classify.Filter | count_circles.py:48 | A list comprehension keeps exactly the elements that pass its test, and is no longer than its input. |
| Classify.Remaining | count_circles.py:45 | The remaining points are exactly the input points value-equal to none of the three chosen points. |
| Classify.RemainingCount | count_circles.py:45 | For pairwise distinct points, n - 3 points remain. |
| Classify.LooseSplitCoversAll | count_circles.py:48-49 | Inside plus not-inside is every remaining point, so a boundary point counts as outside. |
| Classify.StrictSplitWithBoundary | all.py:43-44 | Inside and strictly outside are disjoint, and a boundary point is in neither. Inside, outside and on-circle add up to all remaining points. |
| Classify.LooseAndStrictAgreeOffBoundary | count_circles.py:48-52 | With no remaining point on the circle, the not-inside split of count_circles.py and the strictly-outside split of the other scripts agree. |
| Classify.CheckCombination | all.py:35-46 | The circle is circle_from_points of the combination. valid holds exactly when there is a circle and exactly one remaining point is strictly inside and one strictly outside. |
| CountCircles.LooseValidCount | count_circles.py:39-53 | The count over some combinations is at most their number. |
| CountCircles.LooseValidCountStep | count_circles.py:40-53 | One more combination raises the count by one exactly when it has a circle with one point inside and one not inside. |
| CountCircles.LooseValidCountIsFilter | count_circles.py:39-53 | The count is the number of combinations that have a circle and a 1-1 split. |
| CountCircles.CountCircleRelationships | count_circles.py:35-55 | The returned count is the number of combinations that pass the test, and is at most C(n, 3). |
| CountCircles.FivePointCountBound | count_circles.py:35-55 | A five-point set yields a count of at most 10. |
| CountCircles.FirstIndex | count_circles.py:68-70 | Returns the first trial that produced a given count. |
| CountCircles.SumBelowBump | count_circles.py:68-72 | Adding one to a key below the bound raises the histogram total by one. |
| CountCircles.TabulateStep | count_circles.py:68-72 | One loop pass keeps the histogram invariant: a new count gets 1 and its example, and a seen count goes up by one and keeps its example. |
| CountCircles.RunTrials | count_circles.py:58-72 | After the trials: results and example_points have the same keys. The keys are exactly the counts that occurred, each at most 10. Each value is how often its count occurred, and the values sum to the number of trials. example_points[c] is the point set of the first trial with count c. |
| AnalyzeAll.AnalyzeEach | all.py:34-47 | At most one result per combination. Every result comes from one of the combinations and is that combination's analysis. |
| AnalyzeAll.AnalyzeEachStep | all.py:34-47 | One more combination appends its analysis if it has a circle, and nothing otherwise. |
| AnalyzeAll.AnalysisDescribesCombination | all.py:35-46 | A result's circle is circle_from_points of its combination. valid holds exactly when exactly one remaining point is strictly inside and one strictly outside. |
| AnalyzeAll.ResultsFollowCombinations | all.py:34-47 | The results' combinations are, in order, exactly the combinations that have a circle. |
| AnalyzeAll.AnalyzeCircles | all.py:32-49 | The method returns analyze_circles' list, whose length is at most C(n, 3). |
| Demo.ValidCircles | demo.py:34-47 | At most one valid circle per combination. |
| Demo.ValidCirclesStep | demo.py:34-47 | One more combination appends its circle exactly when it passes the strict 1-1 test. |
| Demo.ValidCirclesGrowth | demo.py:46-47 | The list grows by one exactly for a combination that passes the test. |
| Demo.ValidCirclesSound | demo.py:35-47 | Every entry comes from a combination, carries that combination's circle, and has exactly one remaining point strictly inside and one strictly outside. |
| Demo.ValidCirclesFollowCombinations | demo.py:34-47 | The entries' combinations are, in order, exactly the combinations whose circle exists and splits 1-1. Combinations without a circle never appear. |
| Demo.ValidCirclesAreValidAnalyses | demo.py:32-49 | find_valid_circles is analyze_circles of all.py with the invalid results dropped. |
| Demo.FindValidCircles | demo.py:32-49 | The method returns find_valid_circles' list, whose length is at most C(n, 3). |
| Demo.ShownValidCircles | demo.py:109 | update_main_plot keeps the first min(4, k) of the k valid circles, in order. |
| Visualize.ValidCirclesPrefix | visualize.py:51-99 | The circles found among the first m combinations are the first ones found among all. |
| Visualize.StopsAfterFour | visualize.py:52-53 | If the loop ends either after all combinations or with four circles, it has drawn the first min(4, k) valid circles. |
| Visualize.SelectExampleCircles | visualize.py:48-99 | Draws the first min(4, k) valid circles, one per panel, in combination order. circle_counter never exceeds 4. It rises only for a combination whose circle exists and splits strictly 1-1. Enumeration stops right after the combination that fills the fourth panel. |

## Left out

- Plotting and UI are not modelled, because they only draw: all matplotlib
  figures, patches and scatter calls, the subplot refresh in demo.py, and the
  mouse handlers. This includes the fact that visualize.py also plots the
  three chosen points of an invalid combination on the current panel.
- File and argument I/O are not modelled: the JSON output of
  count_circles.py, `sys.argv`, and the JSON input of visualize.py. The
  number of trials is the length of the input sequence.
- Random generation is not modelled. `CountCircles.RunTrials` receives the
  sampled point sets as a parameter. Its `requires` that each set has five
  points stands for `np.random.uniform(0, 100, size=(5, 2))`.
- The outer loop of visualize.py over the example point sets is not
  modelled. `Visualize.SelectExampleCircles` models one pass of it, for one
  point set.
- move_points.py is not part of this model. Its circle comes from a
  numerical optimiser.
- Floating-point rounding is not modelled. Coordinates are exact reals.
- The square root in `np.linalg.norm` is not computed. Radii and distances
  are kept squared, and StrictLessUnderSquares shows that the comparisons
  agree.
- Geometry.CircleFromPoints: the contract does not say that all three points
  lie on the returned circle. As written, the tolerance in the slope
  denominators moves the centre off the true bisectors, so the claim would
  be false. The contract states what does hold: the centre is on both
  bisector lines as written, and the radius is measured to a.

## Findings

| source | as written | input that shows it | evidently intended | confidence | as-written member | corrected member |
|---|---|---|---|---|---|---|
| count_circles.py:16-17 (the same lines in all.py:12-13, demo.py:12-13, visualize.py:16-17) | The bisector slope is `-dx / (dy + tolerance)`. | (0,0), (1,2e-9), (3,6e-9) are collinear. The slopes are -1e9 and about -6.67e8, which are far more than 1e-9 apart, so a circle is returned. | The slope `-dx / dy`, with the `abs(dy) > tolerance` guard already ruling out division by zero. Then collinear points have equal slopes and get no circle, and a returned circle passes through all three points. | not executed | Geometry.CollinearPointsGetCircle | Geometry.ExactCircleFromPoints |

`Geometry.ExactCircleFromPoints` is the corrected construction.
`Geometry.ExactCircleThroughAll` proves that its circle passes through all
three points. `Geometry.ExactRejectsCollinear` proves that it rejects every
collinear triple.

The modules that model the four scripts' loops use the construction as
written, because the lists and counts they describe are the ones the scripts
compute. Putting the corrected construction in its place changes only the
circle function those modules call.
