/** `itertools.combinations(points, 3)`: every choice of three positions
    i < j < k of the input, in lexicographic order of the positions, each
    yielded as the tuple of the three points at those positions. */
module Combinations {
  import opened Geometry

  /** Three positions of the input sequence. */
  datatype Triple = Triple(i: nat, j: nat, k: nat)

  /** A 3-combination as the scripts see it: the tuple `comb` of three points. */
  datatype Comb = Comb(a: Point, b: Point, c: Point)

  /** t is a combination of positions below n. */
  predicate Increasing(t: Triple, n: nat)
  {
    t.i < t.j < t.k < n
  }

  /** Lexicographic order on position triples, the order itertools yields them in. */
  predicate LexLess(t: Triple, u: Triple)
  {
    t.i < u.i || (t.i == u.i && (t.j < u.j || (t.j == u.j && t.k < u.k)))
  }

  predicate StrictlySorted(s: seq<Triple>)
  {
    forall p, q :: 0 <= p < q < |s| ==> LexLess(s[p], s[q])
  }

  /** C(m, 2). */
  function Choose2(m: nat): nat
  {
    if m == 0 then 0 else (m - 1) + Choose2(m - 1)
  }

  /** C(m, 3). */
  function Choose3(m: nat): nat
  {
    if m == 0 then 0 else Choose2(m - 1) + Choose3(m - 1)
  }

  /** The triples (i, j, k) for k = j+1 .. n-1. */
  function LastPositions(i: nat, j: nat, n: nat): (r: seq<Triple>)
    ensures |r| == if j < n then n - j - 1 else 0
    ensures forall p :: 0 <= p < |r| ==> r[p] == Triple(i, j, j + 1 + p)
  {
    if j < n then seq(n - j - 1, (p: nat) => Triple(i, j, j + 1 + p)) else []
  }

  /** The triples (i, j', k) with j <= j' < k < n, in order. */
  function MiddleFrom(i: nat, j: nat, n: nat): (r: seq<Triple>)
    ensures forall p :: 0 <= p < |r| ==> r[p].i == i && j <= r[p].j < r[p].k < n
    decreases n - j
  {
    if j >= n then [] else LastPositions(i, j, n) + MiddleFrom(i, j + 1, n)
  }

  /** The triples whose first position is at least i, in order. */
  function FirstFrom(i: nat, n: nat): (r: seq<Triple>)
    ensures forall p :: 0 <= p < |r| ==> i <= r[p].i && Increasing(r[p], n)
    decreases n - i
  {
    if i >= n then [] else MiddleFrom(i, i + 1, n) + FirstFrom(i + 1, n)
  }

  /** All 3-combinations of the positions 0 .. n-1 in itertools order. */
  function PositionTriples(n: nat): (r: seq<Triple>)
    ensures forall p :: 0 <= p < |r| ==> Increasing(r[p], n)
  {
    FirstFrom(0, n)
  }

  /** `combinations(points, 3)`: the point tuples at the position triples. */
  function CombsOf(points: seq<Point>): (r: seq<Comb>)
    ensures |r| == |PositionTriples(|points|)|
  {
    var ts := PositionTriples(|points|);
    seq(|ts|, m requires 0 <= m < |ts| => Comb(points[ts[m].i], points[ts[m].j], points[ts[m].k]))
  }

  /** The m-th combination is the tuple of points at the m-th position triple. */
  lemma CombsAtPositions(points: seq<Point>)
    ensures forall m :: 0 <= m < |CombsOf(points)| ==>
              var t := PositionTriples(|points|)[m];
              Increasing(t, |points|) && CombsOf(points)[m] == Comb(points[t.i], points[t.j], points[t.k])
  {
  }

  lemma {:induction false} MiddleFromLength(i: nat, j: nat, n: nat)
    ensures |MiddleFrom(i, j, n)| == if j < n then Choose2(n - j) else 0
    decreases n - j
  {
    if j < n {
      MiddleFromLength(i, j + 1, n);
      if j + 1 < n {
        assert Choose2(n - j) == (n - j - 1) + Choose2(n - j - 1);
      }
    }
  }

  lemma {:induction false} FirstFromLength(i: nat, n: nat)
    ensures |FirstFrom(i, n)| == if i < n then Choose3(n - i) else 0
    decreases n - i
  {
    if i < n {
      MiddleFromLength(i, i + 1, n);
      FirstFromLength(i + 1, n);
      if i + 1 < n {
        assert Choose3(n - i) == Choose2(n - i - 1) + Choose3(n - i - 1);
      } else {
        assert Choose3(1) == 0;
      }
    }
  }

  /** There are C(n, 3) combinations. */
  lemma CombinationCount(n: nat)
    ensures |PositionTriples(n)| == Choose3(n)
  {
    FirstFromLength(0, n);
  }

  /** Five points give ten combinations. */
  lemma FivePointsTenCombinations(points: seq<Point>)
    requires |points| == 5
    ensures |CombsOf(points)| == 10
  {
    CombinationCount(5);
    assert Choose3(5) == 10;
  }

  /** The closed form C(n, 3) = n (n - 1) (n - 2) / 6. */
  lemma {:induction false} Choose3ClosedForm(m: nat)
    ensures 6 * Choose3(m) == m * (m - 1) * (m - 2)
  {
    if m > 0 {
      var k: int := m - 1;
      Choose2ClosedForm(m - 1);
      Choose3ClosedForm(m - 1);
      assert 6 * Choose3(m) == 3 * (k * (k - 1)) + k * (k - 1) * (k - 2);
      PascalCubic(k);
    }
  }

  lemma PascalCubic(k: int)
    ensures 3 * (k * (k - 1)) + k * (k - 1) * (k - 2) == (k + 1) * k * (k - 1)
  {
    var p := k * (k - 1);
    assert k * (k - 1) * (k - 2) == p * (k - 2);
    assert (k + 1) * k * (k - 1) == (k + 1) * p;
  }

  lemma {:induction false} Choose2ClosedForm(m: nat)
    ensures 2 * Choose2(m) == m * (m - 1)
  {
    if m > 0 {
      Choose2ClosedForm(m - 1);
    }
  }

  lemma StrictlySortedAppend(x: seq<Triple>, y: seq<Triple>)
    requires StrictlySorted(x) && StrictlySorted(y)
    requires forall p, q :: 0 <= p < |x| && 0 <= q < |y| ==> LexLess(x[p], y[q])
    ensures StrictlySorted(x + y)
  {
    forall p, q | 0 <= p < q < |x + y| ensures LexLess((x + y)[p], (x + y)[q]) {
      if q < |x| {
      } else if p >= |x| {
        assert (x + y)[p] == y[p - |x|] && (x + y)[q] == y[q - |x|];
      } else {
        assert (x + y)[p] == x[p] && (x + y)[q] == y[q - |x|];
      }
    }
  }

  lemma {:induction false} MiddleFromSorted(i: nat, j: nat, n: nat)
    ensures StrictlySorted(MiddleFrom(i, j, n))
    decreases n - j
  {
    if j < n {
      MiddleFromSorted(i, j + 1, n);
      var head, tail := LastPositions(i, j, n), MiddleFrom(i, j + 1, n);
      forall p, q | 0 <= p < q < |head| ensures LexLess(head[p], head[q]) {
      }
      forall p, q | 0 <= p < |head| && 0 <= q < |tail| ensures LexLess(head[p], tail[q]) {
      }
      StrictlySortedAppend(head, tail);
    }
  }

  lemma {:induction false} FirstFromSorted(i: nat, n: nat)
    ensures StrictlySorted(FirstFrom(i, n))
    decreases n - i
  {
    if i < n {
      MiddleFromSorted(i, i + 1, n);
      FirstFromSorted(i + 1, n);
      var head, tail := MiddleFrom(i, i + 1, n), FirstFrom(i + 1, n);
      forall p, q | 0 <= p < |head| && 0 <= q < |tail| ensures LexLess(head[p], tail[q]) {
      }
      StrictlySortedAppend(head, tail);
    }
  }

  /** The combinations come in strictly increasing lexicographic order of
      positions, so none is yielded twice. */
  lemma CombinationsInOrder(n: nat)
    ensures StrictlySorted(PositionTriples(n))
    ensures forall p, q :: 0 <= p < q < |PositionTriples(n)| ==> PositionTriples(n)[p] != PositionTriples(n)[q]
  {
    FirstFromSorted(0, n);
  }

  lemma {:induction false} MiddleFromComplete(i: nat, j: nat, n: nat, t: Triple)
    requires t.i == i && j <= t.j < t.k < n
    ensures t in MiddleFrom(i, j, n)
    decreases n - j
  {
    var head, tail := LastPositions(i, j, n), MiddleFrom(i, j + 1, n);
    assert MiddleFrom(i, j, n) == head + tail;
    if t.j == j {
      assert head[t.k - j - 1] == t;
    } else {
      MiddleFromComplete(i, j + 1, n, t);
      assert t in tail;
    }
  }

  lemma {:induction false} FirstFromComplete(i: nat, n: nat, t: Triple)
    requires i <= t.i && Increasing(t, n)
    ensures t in FirstFrom(i, n)
    decreases n - i
  {
    var head, tail := MiddleFrom(i, i + 1, n), FirstFrom(i + 1, n);
    assert FirstFrom(i, n) == head + tail;
    if t.i == i {
      MiddleFromComplete(i, i + 1, n, t);
      InLeft(head, tail, t);
    } else {
      FirstFromComplete(i + 1, n, t);
      InRight(head, tail, t);
    }
  }

  lemma InLeft(x: seq<Triple>, y: seq<Triple>, t: Triple)
    requires t in x
    ensures t in x + y
  {
  }

  lemma InRight(x: seq<Triple>, y: seq<Triple>, t: Triple)
    requires t in y
    ensures t in x + y
  {
  }

  /** Every choice of three positions i < j < k < n is enumerated. */
  lemma CombinationsComplete(n: nat, t: Triple)
    requires Increasing(t, n)
    ensures t in PositionTriples(n)
  {
    FirstFromComplete(0, n, t);
  }
}
