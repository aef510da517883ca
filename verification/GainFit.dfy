/** The one-bit gain of a block (ops/gain_disagree_real.py): the Lloyd refit of a centroid pair, and
    the energy of an arm that picks one centroid per block. */
module GainFit {
  import opened Basics
  import opened RealSeq
  import opened Vectors

  function Sq(x: real): (r: real)
    ensures r >= 0.0
  {
    x * x
  }

  function Dist(x: real, y: real): (d: real)
    ensures d >= 0.0 && (d == x - y || d == y - x)
  {
    if x >= y then x - y else y - x
  }

  // ----- Lloyd sweeps over a centroid pair -----

  type Pair = c: seq<real> | |c| == 2 witness [0.0, 0.0]

  /** The first index nearest to v, as `min(range(k), key=...)` picks it. */
  function Nearest(c: Pair, v: real): (j: nat)
    ensures j < 2
  {
    if Dist(v, c[1]) < Dist(v, c[0]) then 1 else 0
  }

  /** No centroid is nearer, and every earlier one is further. */
  lemma NearestIsFirst(c: Pair, v: real, a: nat)
    requires a < 2
    ensures Dist(v, c[Nearest(c, v)]) <= Dist(v, c[a])
    ensures a < Nearest(c, v) ==> Dist(v, c[Nearest(c, v)]) < Dist(v, c[a])
  {
  }

  function GroupSum(c: Pair, g: seq<real>, j: nat): real {
    if g == [] then 0.0
    else GroupSum(c, g[..|g| - 1], j) + if Nearest(c, g[|g| - 1]) == j then g[|g| - 1] else 0.0
  }

  function GroupCount(c: Pair, g: seq<real>, j: nat): nat {
    if g == [] then 0
    else GroupCount(c, g[..|g| - 1], j) + if Nearest(c, g[|g| - 1]) == j then 1 else 0
  }

  /** The mean of group j; an empty group keeps its centroid. */
  function Mean(c: Pair, g: seq<real>, j: nat): real
    requires j < 2
  {
    if GroupCount(c, g, j) == 0 then c[j] else GroupSum(c, g, j) / GroupCount(c, g, j) as real
  }

  function SortPair(c: Pair): Pair {
    if c[1] < c[0] then [c[1], c[0]] else c
  }

  function Sweep(c: Pair, g: seq<real>): Pair {
    SortPair([Mean(c, g, 0), Mean(c, g, 1)])
  }

  function Sweeps(c: Pair, g: seq<real>, iters: nat): Pair {
    if iters == 0 then c else Sweep(Sweeps(c, g, iters - 1), g)
  }

  /** The quantile start: entries n/4 and 3n/4 of the sorted data. */
  function Quantiles(g: seq<real>): Pair
    requires g != []
  {
    [g[|g| / 4], g[3 * |g| / 4]]
  }

  method LloydMax(values: seq<real>, iters: nat) returns (r: Option<Pair>)
    ensures r.None? <==> values == []
    ensures r.Some? ==> r.value == Sweeps(Quantiles(Sort(values)), Sort(values), iters)
  {
    if values == [] {
      return None;
    }
    var g := Sort(values);
    var c := Quantiles(g);
    for i := 0 to iters
      invariant c == Sweeps(Quantiles(g), g, i)
    {
      c := OneSweep(c, g);
    }
    return Some(c);
  }

  method OneSweep(before: Pair, g: seq<real>) returns (c: Pair)
    ensures c == Sweep(before, g)
  {
    var total := new real[2](_ => 0.0);
    var count := new nat[2](_ => 0);
    for i := 0 to |g|
      invariant total[0] == GroupSum(before, g[..i], 0) && total[1] == GroupSum(before, g[..i], 1)
      invariant count[0] == GroupCount(before, g[..i], 0) && count[1] == GroupCount(before, g[..i], 1)
    {
      var j := Nearest(before, g[i]);
      total[j] := total[j] + g[i];
      count[j] := count[j] + 1;
      assert g[..i + 1][..i] == g[..i];
    }
    assert g[..|g|] == g;
    c := before;
    for j := 0 to 2
      invariant forall a :: 0 <= a < j ==> c[a] == Mean(before, g, a)
      invariant forall a :: j <= a < 2 ==> c[a] == before[a]
    {
      if count[j] != 0 {
        c := c[j := total[j] / count[j] as real];
      }
    }
    assert c == [Mean(before, g, 0), Mean(before, g, 1)];
    c := SortPair(c);
  }

  // ----- a sweep never raises the distortion -----

  /** Total squared distance to the nearest centroid. */
  ghost function Distortion(c: Pair, g: seq<real>): real {
    if g == [] then 0.0
    else Distortion(c, g[..|g| - 1]) + Sq(g[|g| - 1] - c[Nearest(c, g[|g| - 1])])
  }

  /** The distortion of group j of `c` around the point x. */
  ghost function GroupCost(c: Pair, g: seq<real>, j: nat, x: real): real {
    if g == [] then 0.0
    else GroupCost(c, g[..|g| - 1], j, x) + if Nearest(c, g[|g| - 1]) == j then Sq(g[|g| - 1] - x) else 0.0
  }

  lemma {:induction false} DistortionByGroups(c: Pair, g: seq<real>)
    ensures Distortion(c, g) == GroupCost(c, g, 0, c[0]) + GroupCost(c, g, 1, c[1])
  {
    if g == [] {
    } else {
      DistortionByGroups(c, g[..|g| - 1]);
    }
  }

  /** Moving the reference point of a group: the parallel-axis identity. */
  lemma {:induction false} GroupCostMoves(c: Pair, g: seq<real>, j: nat, x: real, y: real)
    ensures GroupCost(c, g, j, y) - GroupCost(c, g, j, x) ==
            Shift(GroupCount(c, g, j) as real, GroupSum(c, g, j), x, y)
  {
    if g == [] {
    } else {
      var t, v := g[..|g| - 1], g[|g| - 1];
      GroupCostMoves(c, t, j, x, y);
      ShiftOne(GroupCount(c, t, j) as real, GroupSum(c, t, j), x, y, v);
    }
  }

  /** n (y^2 - x^2) - 2 s (y - x) */
  ghost function Shift(n: real, s: real, x: real, y: real): real {
    n * (y * y - x * x) - 2.0 * s * (y - x)
  }

  lemma ShiftOne(n: real, s: real, x: real, y: real, v: real)
    ensures Shift(n + 1.0, s + v, x, y) == Shift(n, s, x, y) + Sq(v - y) - Sq(v - x)
  {
  }

  lemma ShiftToMean(n: real, s: real, x: real)
    requires n > 0.0
    ensures Shift(n, s, x, s / n) == -Mul(n, Sq(s / n - x))
  {
    var m := s / n;
    assert n * m == s;
    assert n * (m * m - x * x) - 2.0 * (n * m) * (m - x) == -(n * ((m - x) * (m - x)));
  }

  lemma {:induction false} EmptyGroupIsFree(c: Pair, g: seq<real>, j: nat, x: real)
    requires GroupCount(c, g, j) == 0
    ensures GroupCost(c, g, j, x) == 0.0
  {
    if g == [] {
    } else {
      EmptyGroupIsFree(c, g[..|g| - 1], j, x);
    }
  }

  /** Parallel axes: a point costs its group as much as the mean, and once per member the squared distance
      to the mean more; so the mean is the one best point. */
  lemma MeanIsBest(c: Pair, g: seq<real>, j: nat, x: real)
    requires j < 2
    ensures GroupCost(c, g, j, x) ==
            GroupCost(c, g, j, Mean(c, g, j)) + Mul(GroupCount(c, g, j) as real, Sq(Mean(c, g, j) - x))
    ensures GroupCost(c, g, j, Mean(c, g, j)) <= GroupCost(c, g, j, x)
    ensures GroupCount(c, g, j) == 0 ==> Mean(c, g, j) == c[j]
  {
    hide Shift, GroupCost;
    var n := GroupCount(c, g, j);
    if n > 0 {
      GroupCostMoves(c, g, j, x, Mean(c, g, j));
      ShiftToMean(n as real, GroupSum(c, g, j), x);
    } else {
      EmptyGroupIsFree(c, g, j, x);
      EmptyGroupIsFree(c, g, j, Mean(c, g, j));
    }
  }

  lemma SquareOfSize(a: real)
    ensures Sq(a) == Sq(Dist(a, 0.0))
  {
  }

  lemma SquareGrows(x: real, y: real)
    requires 0.0 <= x <= y
    ensures Sq(x) <= Sq(y)
  {
    var d := y - x;
    assert d * (x + y) >= 0.0;
    assert d * (x + y) == Sq(y) - Sq(x);
  }

  lemma SquaresOrder(a: real, b: real)
    requires Dist(a, 0.0) <= Dist(b, 0.0)
    ensures Sq(a) <= Sq(b)
  {
    SquareOfSize(a);
    SquareOfSize(b);
    SquareGrows(Dist(a, 0.0), Dist(b, 0.0));
  }

  /** The nearest centroid is no further, in squared distance, than any other. */
  lemma NearestIsNearest(c: Pair, v: real, j: nat)
    requires j < 2
    ensures Sq(v - c[Nearest(c, v)]) <= Sq(v - c[j])
  {
    SquaresOrder(v - c[Nearest(c, v)], v - c[j]);
  }

  /** Re-assigning to the nearest of two points never costs more than a fixed assignment. */
  lemma {:induction false} ReassignIsBetter(c: Pair, d: Pair, g: seq<real>, x: real, y: real)
    requires (d[0] == x && d[1] == y) || (d[0] == y && d[1] == x)
    ensures Distortion(d, g) <= GroupCost(c, g, 0, x) + GroupCost(c, g, 1, y)
  {
    if g == [] {
    } else {
      var v := g[|g| - 1];
      ReassignIsBetter(c, d, g[..|g| - 1], x, y);
      NearestIsNearest(d, v, 0);
      NearestIsNearest(d, v, 1);
    }
  }

  /** Every sweep leaves the total squared distance to the nearest centroid no larger. */
  lemma SweepNeverWorse(c: Pair, g: seq<real>)
    ensures Distortion(Sweep(c, g), g) <= Distortion(c, g)
  {
    DistortionByGroups(c, g);
    MeanIsBest(c, g, 0, c[0]);
    MeanIsBest(c, g, 1, c[1]);
    ReassignIsBetter(c, Sweep(c, g), g, Mean(c, g, 0), Mean(c, g, 1));
  }

  /** A sweep that gains nothing moves nothing: every group that has members already stood at its mean. */
  lemma NoGainMeansFixed(c: Pair, g: seq<real>)
    requires Distortion(Sweep(c, g), g) == Distortion(c, g)
    ensures Sweep(c, g) == SortPair(c)
  {
    hide Mul, Sq, Distortion, GroupCost, GroupCount, GroupSum;
    DistortionByGroups(c, g);
    ReassignIsBetter(c, Sweep(c, g), g, Mean(c, g, 0), Mean(c, g, 1));
    GroupStood(c, g, 0);
    GroupStood(c, g, 1);
  }

  lemma GroupStood(c: Pair, g: seq<real>, j: nat)
    requires j < 2
    ensures GroupCost(c, g, j, Mean(c, g, j)) <= GroupCost(c, g, j, c[j])
    ensures GroupCost(c, g, j, Mean(c, g, j)) == GroupCost(c, g, j, c[j]) ==> Mean(c, g, j) == c[j]
  {
    hide GroupCost, GroupSum;
    MeanIsBest(c, g, j, c[j]);
    if GroupCount(c, g, j) > 0 {
      NoDistance(GroupCount(c, g, j) as real, Mean(c, g, j) - c[j]);
    }
  }

  lemma NoDistance(n: real, d: real)
    requires n > 0.0
    ensures Mul(n, Sq(d)) == 0.0 ==> d == 0.0
  {
    if d > 0.0 {
      PositiveProduct(d, d, Sq(d));
      PositiveProduct(n, Sq(d), Mul(n, Sq(d)));
    } else if d < 0.0 {
      PositiveProduct(-d, -d, Sq(d));
      PositiveProduct(n, Sq(d), Mul(n, Sq(d)));
    }
  }

  lemma PositiveProduct(a: real, b: real, p: real)
    requires a > 0.0 && b > 0.0 && p == a * b
    ensures p > 0.0
  {
  }

  /** So more sweeps are never worse than fewer, and none is worse than the quantile start. */
  lemma {:induction false} SweepsNeverWorse(c: Pair, g: seq<real>, fewer: nat, more: nat)
    requires fewer <= more
    ensures Distortion(Sweeps(c, g, more), g) <= Distortion(Sweeps(c, g, fewer), g)
    decreases more
  {
    if fewer >= more {
    } else {
      SweepsNeverWorse(c, g, fewer, more - 1);
      SweepNeverWorse(Sweeps(c, g, more - 1), g);
    }
  }

  ghost predicate Within(x: real, lo: real, hi: real) {
    lo <= x <= hi
  }

  ghost predicate AllWithin(g: seq<real>, lo: real, hi: real) {
    forall k :: 0 <= k < |g| ==> Within(g[k], lo, hi)
  }

  lemma {:induction false} GroupWithin(c: Pair, g: seq<real>, j: nat, lo: real, hi: real)
    requires AllWithin(g, lo, hi)
    ensures Mul(GroupCount(c, g, j) as real, lo) <= GroupSum(c, g, j) <= Mul(GroupCount(c, g, j) as real, hi)
  {
    if g == [] {
    } else {
      hide Nearest, Mul;
      GroupWithin(c, g[..|g| - 1], j, lo, hi);
      assert Within(g[|g| - 1], lo, hi);
      MulSplit(GroupCount(c, g[..|g| - 1], j) as real, 1.0, lo, hi);
    }
  }

  lemma MeanWithin(c: Pair, g: seq<real>, j: nat, lo: real, hi: real)
    requires AllWithin(g, lo, hi) && j < 2 && Within(c[j], lo, hi)
    ensures Within(Mean(c, g, j), lo, hi)
  {
    hide Mul, GroupSum, GroupCount;
    GroupWithin(c, g, j, lo, hi);
    if GroupCount(c, g, j) > 0 {
      QuotientWithin(GroupSum(c, g, j), GroupCount(c, g, j) as real, lo, hi);
    }
  }

  lemma SweepWithin(c: Pair, g: seq<real>, lo: real, hi: real)
    requires AllWithin(g, lo, hi) && lo <= c[0] <= c[1] <= hi
    ensures lo <= Sweep(c, g)[0] <= Sweep(c, g)[1] <= hi
  {
    hide Mean, AllWithin;
    MeanWithin(c, g, 0, lo, hi);
    MeanWithin(c, g, 1, lo, hi);
  }

  /** Centroids stay sorted and inside the range of the data. */
  lemma {:induction false} CentroidsStayInRange(values: seq<real>, iters: nat)
    requires values != []
    ensures var g := Sort(values);
            var c := Sweeps(Quantiles(g), g, iters);
            g[0] <= c[0] <= c[1] <= g[|g| - 1]
  {
    var g := Sort(values);
    SortSorts(values);
    if iters == 0 {
    } else {
      CentroidsStayInRange(values, iters - 1);
      var c := Sweeps(Quantiles(g), g, iters - 1);
      assert AllWithin(g, g[0], g[|g| - 1]);
      hide Sort, Sweep;
      SweepWithin(c, g, g[0], g[|g| - 1]);
    }
  }

  // ----- the sweeps stop -----

  ghost predicate Fixed(c: Pair, g: seq<real>) {
    Sweep(c, g) == c
  }

  /** Two centroids apart and inside the range of sorted data. */
  ghost predicate Apart(c: Pair, g: seq<real>) {
    g != [] && Sorted(g) && g[0] <= c[0] < c[1] <= g[|g| - 1]
  }

  /** The second centroid takes what lies above the middle. */
  lemma NearestSide(c: Pair, v: real)
    requires c[0] < c[1]
    ensures Nearest(c, v) == 1 <==> v > (c[0] + c[1]) / 2.0
  {
  }

  lemma {:induction false} GroupsApart(c: Pair, g: seq<real>)
    requires c[0] < c[1]
    ensures var mid := (c[0] + c[1]) / 2.0;
            && GroupSum(c, g, 0) <= Mul(GroupCount(c, g, 0) as real, mid)
            && GroupSum(c, g, 1) >= Mul(GroupCount(c, g, 1) as real, mid)
            && (GroupCount(c, g, 1) > 0 ==> GroupSum(c, g, 1) > Mul(GroupCount(c, g, 1) as real, mid))
    ensures GroupCount(c, g, 0) + GroupCount(c, g, 1) == |g|
  {
    var mid := (c[0] + c[1]) / 2.0;
    hide Nearest, Mul;
    if g == [] {
      MulSplit(0.0, 0.0, mid, 0.0);
    } else {
      var t, v := g[..|g| - 1], g[|g| - 1];
      GroupsApart(c, t);
      NearestSide(c, v);
      MulSplit(GroupCount(c, t, 0) as real, 1.0, mid, 0.0);
      MulSplit(GroupCount(c, t, 1) as real, 1.0, mid, 0.0);
    }
  }

  lemma {:induction false} CountHas(c: Pair, g: seq<real>, i: nat)
    requires i < |g|
    ensures GroupCount(c, g, Nearest(c, g[i])) > 0
  {
    hide Nearest;
    if i == |g| - 1 {
    } else {
      CountHas(c, g[..|g| - 1], i);
    }
  }

  /** Both groups keep a member, and their means stay apart. */
  lemma SweepStaysApart(c: Pair, g: seq<real>)
    requires Apart(c, g)
    ensures 0 < GroupCount(c, g, 1) < |g| && GroupCount(c, g, 0) > 0
    ensures Apart(Sweep(c, g), g) && Sweep(c, g) == [Mean(c, g, 0), Mean(c, g, 1)]
  {
    var mid := (c[0] + c[1]) / 2.0;
    NearestSide(c, g[0]);
    NearestSide(c, g[|g| - 1]);
    CountHas(c, g, 0);
    CountHas(c, g, |g| - 1);
    GroupsApart(c, g);
    assert AllWithin(g, g[0], g[|g| - 1]);
    hide Mul, GroupSum, GroupCount, Nearest, Sorted;
    SweepWithin(c, g, g[0], g[|g| - 1]);
    QuotientBelow(GroupSum(c, g, 0), GroupCount(c, g, 0) as real, mid);
    QuotientAbove(GroupSum(c, g, 1), GroupCount(c, g, 1) as real, mid);
  }

  lemma QuotientBelow(s: real, n: real, hi: real)
    requires n > 0.0 && s <= Mul(n, hi)
    ensures s / n <= hi
  {
    assert n * (hi - s / n) == n * hi - s;
    Positive(n, hi - s / n);
  }

  lemma QuotientAbove(s: real, n: real, lo: real)
    requires n > 0.0 && s > Mul(n, lo)
    ensures s / n > lo
  {
    assert n * (s / n - lo) == s - n * lo;
    Positive(n, s / n - lo);
  }

  lemma {:induction false} NoneAbove(c: Pair, g: seq<real>)
    requires Sorted(g) && c[0] < c[1] && g != [] && Nearest(c, g[|g| - 1]) == 0
    ensures GroupCount(c, g, 1) == 0
  {
    var n := |g| - 1;
    if n == 0 {
    } else {
      NearestSide(c, g[n]);
      NearestSide(c, g[n - 1]);
      NoneAbove(c, g[..n]);
    }
  }

  /** On sorted data a sweep depends only on how many entries lie above the middle. */
  lemma {:induction false} SameSplit(c: Pair, d: Pair, g: seq<real>)
    requires Sorted(g) && c[0] < c[1] && d[0] < d[1] && GroupCount(c, g, 1) == GroupCount(d, g, 1)
    ensures GroupCount(c, g, 0) == GroupCount(d, g, 0)
    ensures GroupSum(c, g, 0) == GroupSum(d, g, 0) && GroupSum(c, g, 1) == GroupSum(d, g, 1)
  {
    if g == [] {
    } else {
      var n := |g| - 1;
      if Nearest(c, g[n]) == 0 {
        NoneAbove(c, g);
      }
      if Nearest(d, g[n]) == 0 {
        NoneAbove(d, g);
      }
      SameSplit(c, d, g[..n]);
    }
  }

  /** The numbers of entries above the middle before sweeps 1 to t. */
  ghost function Splits(c: Pair, g: seq<real>, t: nat): set<nat> {
    if t == 0 then {} else Splits(c, g, t - 1) + {GroupCount(Sweeps(c, g, t - 1), g, 1)}
  }

  lemma {:induction false} StaysApart(c: Pair, g: seq<real>, t: nat)
    requires Apart(c, g)
    ensures Apart(Sweeps(c, g, t), g) && 0 < GroupCount(Sweeps(c, g, t), g, 1) < |g|
  {
    hide Apart, Sweep, GroupCount;
    if t == 0 {
      SweepStaysApart(c, g);
    } else {
      StaysApart(c, g, t - 1);
      SweepStaysApart(Sweeps(c, g, t - 1), g);
      SweepStaysApart(Sweeps(c, g, t), g);
    }
  }

  lemma {:induction false} SplitSeen(c: Pair, g: seq<real>, t: nat, k: nat) returns (s: nat)
    requires k in Splits(c, g, t)
    ensures s < t && GroupCount(Sweeps(c, g, s), g, 1) == k
  {
    hide GroupCount, Sweeps;
    if k == GroupCount(Sweeps(c, g, t - 1), g, 1) {
      s := t - 1;
    } else {
      s := SplitSeen(c, g, t - 1, k);
    }
  }

  /** A split that comes back was already followed by a fixed pair. */
  lemma RepeatedSplitIsFixed(c: Pair, g: seq<real>, s: nat, t: nat)
    requires Apart(c, g) && s < t
    requires GroupCount(Sweeps(c, g, s), g, 1) == GroupCount(Sweeps(c, g, t), g, 1)
    ensures Fixed(Sweeps(c, g, s + 1), g)
  {
    var a, b := Sweeps(c, g, s), Sweeps(c, g, t);
    StaysApart(c, g, s);
    StaysApart(c, g, t);
    StaysApart(c, g, s + 1);
    SameSplit(a, b, g);
    SweepStaysApart(a, g);
    SweepStaysApart(b, g);
    hide GroupCount, GroupSum, Distortion, Sorted, Nearest;
    assert Sweep(a, g) == Sweep(b, g);
    hide Sweep, Mean;
    assert Sweeps(c, g, s + 1) == Sweeps(c, g, t + 1);
    SweepsNeverWorse(c, g, s + 2, t + 1);
    SweepNeverWorse(Sweeps(c, g, s + 1), g);
    NoGainMeansFixed(Sweeps(c, g, s + 1), g);
  }

  lemma {:induction false} SplitsDiffer(c: Pair, g: seq<real>, t: nat)
    requires Apart(c, g) && forall s :: 0 <= s < t ==> !Fixed(Sweeps(c, g, s), g)
    ensures |Splits(c, g, t)| == t
  {
    hide Apart, Fixed, Sweeps, GroupCount;
    if t == 0 {
    } else {
      SplitsDiffer(c, g, t - 1);
      var k := GroupCount(Sweeps(c, g, t - 1), g, 1);
      if k in Splits(c, g, t - 1) {
        var s := SplitSeen(c, g, t - 1, k);
        RepeatedSplitIsFixed(c, g, s, t - 1);
      }
    }
  }

  ghost function Inner(n: nat): (s: set<nat>)
    ensures forall k :: k in s <==> 0 < k < n
    ensures |s| == if n == 0 then 0 else n - 1
  {
    if n <= 1 then {} else Inner(n - 1) + {n - 1}
  }

  lemma {:induction false} SplitsInside(c: Pair, g: seq<real>, t: nat)
    requires Apart(c, g)
    ensures Splits(c, g, t) <= Inner(|g|)
  {
    hide Apart, Sweeps, GroupCount, Inner;
    if t == 0 {
    } else {
      SplitsInside(c, g, t - 1);
      StaysApart(c, g, t - 1);
    }
  }

  lemma SubsetSize(a: set<nat>, b: set<nat>)
    requires a <= b
    ensures |a| <= |b|
  {
    assert b == a + (b - a);
  }

  /** Centroids that start apart reach a fixed pair in fewer sweeps than there are entries. */
  lemma StopsSoon(c: Pair, g: seq<real>) returns (s: nat)
    requires Apart(c, g)
    ensures s < |g| && Fixed(Sweeps(c, g, s), g)
  {
    hide Fixed, Sweeps, Splits, Inner;
    if forall s :: 0 <= s < |g| ==> !Fixed(Sweeps(c, g, s), g) {
      SplitsDiffer(c, g, |g|);
      SplitsInside(c, g, |g|);
      SubsetSize(Splits(c, g, |g|), Inner(|g|));
    }
    s :| 0 <= s < |g| && Fixed(Sweeps(c, g, s), g);
  }

  lemma {:induction false} FixedStays(c: Pair, g: seq<real>, s: nat, t: nat)
    requires s <= t && Fixed(Sweeps(c, g, s), g)
    ensures Sweeps(c, g, t) == Sweeps(c, g, s)
    decreases t
  {
    hide Sweep;
    if s == t {
    } else {
      FixedStays(c, g, s, t - 1);
    }
  }

  lemma {:induction false} SweepsFromFirst(c: Pair, g: seq<real>, t: nat)
    ensures Sweeps(c, g, t + 1) == Sweeps(Sweep(c, g), g, t)
  {
    hide Sweep;
    if t == 0 {
    } else {
      SweepsFromFirst(c, g, t - 1);
    }
  }

  /** After as many sweeps as there are entries nothing moves any more: more iterations change nothing. */
  lemma SweepsStop(values: seq<real>, iters: nat)
    requires |values| <= iters
    ensures values != [] ==>
              var g := Sort(values);
              && Sweeps(Quantiles(g), g, iters) == Sweeps(Quantiles(g), g, |g|)
              && Fixed(Sweeps(Quantiles(g), g, |g|), g)
  {
    if values != [] {
      var g := Sort(values);
      SortSorts(values);
      hide Sort, Sweep, Sweeps, Fixed;
      var c := Quantiles(g);
      var s := StartStops(c, g);
      FixedStays(c, g, s, |g|);
      FixedStays(c, g, s, iters);
    }
  }

  lemma StartStops(c: Pair, g: seq<real>) returns (s: nat)
    requires g != [] && Sorted(g) && g[0] <= c[0] <= c[1] <= g[|g| - 1]
    ensures s <= |g| && Fixed(Sweeps(c, g, s), g)
  {
    if c[0] < c[1] {
      s := StopsSoon(c, g);
    } else if Fixed(c, g) {
      s := 0;
    } else {
      var d := Sweep(c, g);
      assert AllWithin(g, g[0], g[|g| - 1]);
      TogetherKeepsOne(c, g);
      hide Sweep, Sweeps, Sorted, AllWithin, Fixed;
      SweepWithin(c, g, g[0], g[|g| - 1]);
      var t := StopsSoon(d, g);
      SweepsFromFirst(c, g, t);
      s := t + 1;
    }
  }

  /** From one point, the first group takes everything and the second centroid stays. */
  lemma TogetherKeepsOne(c: Pair, g: seq<real>)
    requires c[0] == c[1] && !Fixed(c, g)
    ensures Sweep(c, g)[0] != Sweep(c, g)[1]
  {
    NoneTaken(c, g);
  }

  lemma {:induction false} NoneTaken(c: Pair, g: seq<real>)
    requires c[0] == c[1]
    ensures GroupCount(c, g, 1) == 0
  {
    if g == [] {
    } else {
      NoneTaken(c, g[..|g| - 1]);
    }
  }

  // ----- the quartile start -----

  /** How many values are less than x, and how many are at most x. */
  ghost function Less(s: seq<real>, x: real): nat {
    if s == [] then 0 else Less(s[..|s| - 1], x) + if s[|s| - 1] < x then 1 else 0
  }

  ghost function UpTo(s: seq<real>, x: real): nat {
    if s == [] then 0 else UpTo(s[..|s| - 1], x) + if s[|s| - 1] <= x then 1 else 0
  }

  lemma {:induction false} CountsWithout(s: seq<real>, i: nat, x: real)
    requires i < |s|
    ensures Less(s, x) == Less(s[..i] + s[i + 1..], x) + if s[i] < x then 1 else 0
    ensures UpTo(s, x) == UpTo(s[..i] + s[i + 1..], x) + if s[i] <= x then 1 else 0
  {
    var n := |s| - 1;
    if i == n {
      assert s[..i] + s[i + 1..] == s[..n];
    } else {
      var t := s[..i] + s[i + 1..];
      assert t[..|t| - 1] == s[..n][..i] + s[..n][i + 1..] && t[|t| - 1] == s[n];
      CountsWithout(s[..n], i, x);
    }
  }

  lemma {:induction false} CountsPermutation(a: seq<real>, b: seq<real>, x: real)
    requires multiset(a) == multiset(b)
    ensures Less(a, x) == Less(b, x) && UpTo(a, x) == UpTo(b, x)
  {
    assert |multiset(a)| == |a| && |multiset(b)| == |b|;
    if a == [] {
    } else {
      var n := |a| - 1;
      LastOut(a);
      assert a[n] in multiset(b);
      var i :| 0 <= i < |b| && b[i] == a[n];
      EntriesWithout(b, i);
      CountsPermutation(a[..n], b[..i] + b[i + 1..], x);
      CountsWithout(b, i, x);
    }
  }

  lemma {:induction false} CountsSorted(g: seq<real>, k: nat, n: nat)
    requires Sorted(g) && k < |g| && n <= |g|
    ensures n <= k ==> UpTo(g[..n], g[k]) == n
    ensures n > k ==> Less(g[..n], g[k]) <= k < UpTo(g[..n], g[k])
    ensures Less(g[..n], g[k]) <= n
  {
    if n == 0 {
    } else {
      assert g[..n][..n - 1] == g[..n - 1];
      CountsSorted(g, k, n - 1);
    }
  }

  lemma QuartileIndex(n: nat, j: nat)
    requires n > 0 && j < 2
    ensures (2 * j + 1) * n / 4 == (if j == 0 then n / 4 else 3 * n / 4) < n
  {
    if j == 0 {
      assert (2 * j + 1) * n == n;
    } else {
      assert (2 * j + 1) * n == 3 * n;
    }
  }

  /** The sweeps start at the quartiles: with i = floor((2j + 1) n / 4), at most i values lie below centroid j
      and more than i do not lie above it. */
  lemma QuartileStart(values: seq<real>, j: nat)
    requires values != [] && j < 2
    ensures var c, i := Quantiles(Sort(values)), (2 * j + 1) * |values| / 4;
            Less(values, c[j]) <= i < UpTo(values, c[j])
  {
    hide Sort, Less, UpTo, Sorted, Quantiles;
    var g := Sort(values);
    SortSorts(values);
    QuartileEntry(g, j);
    var i := (2 * j + 1) * |values| / 4;
    CountsSorted(g, i, |g|);
    assert g[..|g|] == g;
    CountsPermutation(g, values, g[i]);
  }

  lemma QuartileEntry(g: seq<real>, j: nat)
    requires g != [] && j < 2
    ensures (2 * j + 1) * |g| / 4 < |g| && Quantiles(g)[j] == g[(2 * j + 1) * |g| / 4]
  {
    QuartileIndex(|g|, j);
  }

  // ----- one centroid per block -----

  datatype Block = Block(centroids: Pair, scale: real, norm: real, projected: real)

  /** |x - a u|^2 = |x|^2 - 2 a <x, u> + a^2 at gain a. */
  function SquaredError(b: Block, centroid: real): real {
    var a := centroid * b.scale;
    b.norm * b.norm - 2.0 * a * b.projected + a * a
  }

  function Nearest2(c: Pair, x: real): (j: nat)
    ensures j < 2
  {
    if Dist(c[1], x) < Dist(c[0], x) then 1 else 0
  }

  function Shrunk(b: Block, shrink: real): Pair {
    [b.centroids[0] * shrink, b.centroids[1] * shrink]
  }

  /** What the rule compares with the centroids. */
  function Statistic(b: Block, euclidean: bool): real
    requires b.scale != 0.0
  {
    (if euclidean then b.projected else b.norm) / b.scale
  }

  ghost predicate Scaled(blocks: seq<Block>) {
    forall k :: 0 <= k < |blocks| ==> blocks[k].scale != 0.0
  }

  /** The level each block is given by the rule. */
  ghost function Chosen(blocks: seq<Block>, shrink: real, euclidean: bool): (levels: seq<nat>)
    requires Scaled(blocks)
    ensures |levels| == |blocks| && forall k :: 0 <= k < |levels| ==> levels[k] < 2
  {
    seq(|blocks|, k requires 0 <= k < |blocks| =>
      Nearest2(Shrunk(blocks[k], shrink), Statistic(blocks[k], euclidean)))
  }

  ghost predicate Levels(blocks: seq<Block>, levels: seq<nat>) {
    |levels| == |blocks| && forall k :: 0 <= k < |levels| ==> levels[k] < 2
  }

  /** Total squared error when block k is coded at level levels[k]. */
  ghost function Energy(blocks: seq<Block>, shrink: real, levels: seq<nat>): real
    requires Levels(blocks, levels)
  {
    if blocks == [] then 0.0
    else
      var n := |blocks| - 1;
      Energy(blocks[..n], shrink, levels[..n]) +
      SquaredError(blocks[n], Shrunk(blocks[n], shrink)[levels[n]])
  }

  method ArmEnergy(blocks: seq<Block>, shrink: real, euclidean: bool) returns (r: Option<real>)
    ensures r.Some? <==> Scaled(blocks)
    ensures r.Some? ==> r.value == Energy(blocks, shrink, Chosen(blocks, shrink, euclidean))
  {
    var total := 0.0;
    for i := 0 to |blocks|
      invariant Scaled(blocks[..i])
      invariant total == Energy(blocks[..i], shrink, Chosen(blocks[..i], shrink, euclidean))
    {
      var b := blocks[i];
      if b.scale == 0.0 {
        return None;
      }
      var centroids := Shrunk(b, shrink);
      var statistic := Statistic(b, euclidean);
      total := total + SquaredError(b, centroids[Nearest2(centroids, statistic)]);
      assert blocks[..i + 1][..i] == blocks[..i];
      assert Chosen(blocks[..i + 1], shrink, euclidean)[..i] == Chosen(blocks[..i], shrink, euclidean);
    }
    assert blocks[..|blocks|] == blocks;
    return Some(total);
  }

  /** Completing the square: the error is a constant plus scale^2 times a squared distance. */
  lemma CompleteSquare(b: Block, c: real)
    requires b.scale != 0.0
    ensures SquaredError(b, c) ==
            b.norm * b.norm - b.projected * b.projected + Sq(b.scale) * Sq(c - b.projected / b.scale)
  {
    var t := b.projected / b.scale;
    var a := c * b.scale;
    assert t * b.scale == b.projected;
    assert b.scale * (c - t) == a - b.projected;
    SquareOfProduct(b.scale, c - t);
    assert Sq(a - b.projected) == a * a - 2.0 * a * b.projected + b.projected * b.projected;
  }

  lemma SquareOfProduct(s: real, d: real)
    ensures Sq(s) * Sq(d) == Sq(s * d)
  {
    assert (s * s) * (d * d) == (s * d) * (s * d);
  }

  lemma EuclideanLevelIsBest(b: Block, shrink: real, level: nat)
    requires b.scale != 0.0 && level < 2
    ensures SquaredError(b, Shrunk(b, shrink)[Nearest2(Shrunk(b, shrink), Statistic(b, true))]) <=
            SquaredError(b, Shrunk(b, shrink)[level])
  {
    hide SquaredError, Shrunk;
    var c, t := Shrunk(b, shrink), b.projected / b.scale;
    var j := Nearest2(c, t);
    CompleteSquare(b, c[j]);
    CompleteSquare(b, c[level]);
    SquaresOrder(c[j] - t, c[level] - t);
    ScaleOrder(Sq(b.scale), Sq(c[j] - t), Sq(c[level] - t));
  }

  /** The error is the squared distance from x to the gain times u, for every unit vector u. */
  lemma SquaredErrorIsDistance(b: Block, centroid: real, x: seq<real>, u: seq<real>)
    requires |x| == |u| && Dot(u, u) == 1.0
    requires b.norm * b.norm == Dot(x, x) && b.projected == Dot(x, u)
    ensures var e := Minus(x, Scale(u, Mul(centroid, b.scale))); SquaredError(b, centroid) == Dot(e, e)
  {
    hide Dot, SquaredError, Scale, Minus;
    ErrorAtGain(b, centroid);
    var a := Mul(centroid, b.scale);
    TimesOne(Mul(a, a));
    hide Mul;
    NormOfDifference(x, u, a);
  }

  lemma TimesOne(z: real)
    ensures Mul(z, 1.0) == z
  {
  }

  lemma ErrorAtGain(b: Block, centroid: real)
    ensures var a := Mul(centroid, b.scale);
            SquaredError(b, centroid) == b.norm * b.norm - 2.0 * Mul(a, b.projected) + Mul(a, a)
  {
    var a := centroid * b.scale;
    assert 2.0 * a * b.projected == 2.0 * (a * b.projected);
  }

  /** A shrunk pair codes with gains shrunk by the same factor. */
  lemma ShrinkScalesGain(b: Block, shrink: real, level: nat, x: seq<real>, u: seq<real>)
    requires level < 2 && |x| == |u| && Dot(u, u) == 1.0
    requires b.norm * b.norm == Dot(x, x) && b.projected == Dot(x, u)
    ensures var e := Minus(x, Scale(u, Mul(shrink, Mul(b.centroids[level], b.scale))));
            SquaredError(b, Shrunk(b, shrink)[level]) == Dot(e, e)
  {
    hide Dot, SquaredError, Scale, Minus, Mul;
    var g := Shrunk(b, shrink)[level];
    SquaredErrorIsDistance(b, g, x, u);
    assert g == Mul(b.centroids[level], shrink) by { ShrunkIs(b, shrink, level); }
    ShrunkGain(b.centroids[level], shrink, b.scale, g);
  }

  lemma ShrunkIs(b: Block, shrink: real, level: nat)
    requires level < 2
    ensures Shrunk(b, shrink)[level] == Mul(b.centroids[level], shrink)
  {
  }

  lemma ShrunkGain(c: real, shrink: real, scale: real, g: real)
    requires g == Mul(c, shrink)
    ensures Mul(g, scale) == Mul(shrink, Mul(c, scale))
  {
  }

  /** What a rule brings the gain near to: the projection under the Euclidean rule, the norm under the served one. */
  ghost function Target(b: Block, euclidean: bool): real {
    if euclidean then b.projected else b.norm
  }

  /** How far the gain of a centroid is from it. */
  ghost function Gap(b: Block, centroid: real, euclidean: bool): real {
    Dist(Mul(centroid, b.scale), Target(b, euclidean))
  }

  /** The level chosen has the gain nearest to the target of the rule; a tie goes to level 0. */
  lemma RuleIsNearestGain(b: Block, shrink: real, euclidean: bool, level: nat)
    requires b.scale != 0.0 && level < 2
    ensures var c := Shrunk(b, shrink);
            var j := Nearest2(c, Statistic(b, euclidean));
            && Gap(b, c[j], euclidean) <= Gap(b, c[level], euclidean)
            && (level < j ==> Gap(b, c[j], euclidean) < Gap(b, c[level], euclidean))
  {
    hide Gap, Shrunk, Statistic, Dist;
    var c := Shrunk(b, shrink);
    GapsOrder(b, c[0], c[1], euclidean);
    GapsOrder(b, c[1], c[0], euclidean);
  }

  lemma GapsOrder(b: Block, x: real, y: real, euclidean: bool)
    requires b.scale != 0.0
    ensures Dist(x, Statistic(b, euclidean)) < Dist(y, Statistic(b, euclidean)) <==>
            Gap(b, x, euclidean) < Gap(b, y, euclidean)
    ensures Dist(x, Statistic(b, euclidean)) <= Dist(y, Statistic(b, euclidean)) <==>
            Gap(b, x, euclidean) <= Gap(b, y, euclidean)
  {
    TargetIs(b, euclidean);
    hide Target, Statistic, Dist, Mul;
    GainsOrder(x, y, Statistic(b, euclidean), b.scale, Target(b, euclidean));
  }

  lemma TargetIs(b: Block, euclidean: bool)
    requires b.scale != 0.0
    ensures Statistic(b, euclidean) * b.scale == Target(b, euclidean)
  {
  }

  lemma GainsOrder(a: real, b: real, t: real, s: real, target: real)
    requires s != 0.0 && t * s == target
    ensures Dist(a, t) < Dist(b, t) <==> Dist(Mul(a, s), target) < Dist(Mul(b, s), target)
    ensures Dist(a, t) <= Dist(b, t) <==> Dist(Mul(a, s), target) <= Dist(Mul(b, s), target)
  {
    ScaledDist(a, t, s, target);
    ScaledDist(b, t, s, target);
    hide Dist, Mul;
    DistOrder(Dist(a, t), Dist(b, t), Dist(s, 0.0));
  }

  lemma ScaledDist(a: real, t: real, s: real, target: real)
    requires s != 0.0 && t * s == target
    ensures Dist(Mul(a, s), target) == Mul(Dist(a, t), Dist(s, 0.0)) && Dist(s, 0.0) > 0.0
  {
    assert (a - t) * s == a * s - target;
    assert (t - a) * s == target - a * s;
  }

  lemma DistOrder(a: real, b: real, k: real)
    requires k > 0.0
    ensures a < b <==> Mul(a, k) < Mul(b, k)
    ensures a <= b <==> Mul(a, k) <= Mul(b, k)
  {
    assert (b - a) * k == b * k - a * k;
    Positive(k, b - a);
    Positive(k, a - b);
  }

  lemma ScaleOrder(k: real, a: real, b: real)
    requires k >= 0.0 && a <= b
    ensures k * a <= k * b
  {
  }

  /** The Euclidean rule is the minimum over every choice of a level per block. */
  lemma {:induction false} EuclideanRuleIsMinimum(blocks: seq<Block>, shrink: real, levels: seq<nat>)
    requires Scaled(blocks) && Levels(blocks, levels)
    ensures Energy(blocks, shrink, Chosen(blocks, shrink, true)) <= Energy(blocks, shrink, levels)
  {
    if blocks == [] {
    } else {
      var n := |blocks| - 1;
      EuclideanRuleIsMinimum(blocks[..n], shrink, levels[..n]);
      assert Chosen(blocks, shrink, true)[..n] == Chosen(blocks[..n], shrink, true);
      EuclideanLevelIsBest(blocks[n], shrink, levels[n]);
    }
  }

  // ----- the best common scale on a grid -----

  const GRID_POINTS: nat := 501

  function GridScale(k: nat): real {
    0.90 + k as real * 0.0005
  }

  ghost function ArmAt(blocks: seq<Block>, shrink: real, euclidean: bool): real
    requires Scaled(blocks)
  {
    Energy(blocks, shrink, Chosen(blocks, shrink, euclidean))
  }

  /** Grid point `b` has the least energy, and is the first that does. */
  ghost predicate FirstBest(blocks: seq<Block>, euclidean: bool, b: nat)
    requires Scaled(blocks)
  {
    && b < GRID_POINTS
    && (forall k: nat :: k < GRID_POINTS ==>
          ArmAt(blocks, GridScale(b), euclidean) <= ArmAt(blocks, GridScale(k), euclidean))
    && (forall k: nat :: k < b ==>
          ArmAt(blocks, GridScale(b), euclidean) < ArmAt(blocks, GridScale(k), euclidean))
  }

  function Percent(best: real, base: real): real
    requires base != 0.0
  {
    100.0 * (best - base) / base
  }

  /** The first scale of 0.90, 0.9005, ..., 1.15 with the least energy, and its change over `base` in
      percent; None for a zero scale or a zero base. */
  method BestScalar(blocks: seq<Block>, euclidean: bool, base: real) returns (r: Option<(real, real)>)
    ensures r.Some? <==> Scaled(blocks) && base != 0.0
    ensures r.Some? ==>
              (exists b: nat ::
                && FirstBest(blocks, euclidean, b)
                && r.value == (GridScale(b), Percent(ArmAt(blocks, GridScale(b), euclidean), base)))
  {
    var best: Option<(real, real)> := None;
    var step := 0.0005;
    var s := 0.90;
    ghost var n: nat := 0;
    ghost var at: nat := 0;
    while s <= 1.15 + step / 2.0
      invariant s == GridScale(n) && n <= GRID_POINTS
      invariant if n == 0 then best.None? else Scaled(blocks) && best.Some? && at < n
      invariant n > 0 ==> best.value == (ArmAt(blocks, GridScale(at), euclidean), GridScale(at))
      invariant n > 0 ==> forall k: nat :: k < n ==> best.value.0 <= ArmAt(blocks, GridScale(k), euclidean)
      invariant n > 0 ==> forall k: nat :: k < at ==> best.value.0 < ArmAt(blocks, GridScale(k), euclidean)
      decreases GRID_POINTS - n
    {
      var total := ArmEnergy(blocks, s, euclidean);
      if total.None? {
        return None;
      }
      if best.None? || total.value < best.value.0 {
        best := Some((total.value, s));
        at := n;
      }
      s := s + step;
      n := n + 1;
    }
    if base == 0.0 {
      return None;
    }
    assert n == GRID_POINTS && FirstBest(blocks, euclidean, at);
    return Some((best.value.1, Percent(best.value.0, base)));
  }

  /** Scale 1 is on the grid, so against the unscaled energy the best scale never reads as a loss. */
  lemma RescalingNeverLoses(blocks: seq<Block>, euclidean: bool, b: nat)
    requires Scaled(blocks) && FirstBest(blocks, euclidean, b)
    requires ArmAt(blocks, 1.0, euclidean) > 0.0
    ensures Percent(ArmAt(blocks, GridScale(b), euclidean), ArmAt(blocks, 1.0, euclidean)) <= 0.0
  {
    assert GridScale(200) == 1.0;
    assert ArmAt(blocks, GridScale(b), euclidean) <= ArmAt(blocks, GridScale(200), euclidean);
  }

  /** The grid runs from 0.90 to 1.15 in steps of 0.0005. */
  lemma GridIsWhole(k: nat)
    requires k < GRID_POINTS
    ensures GridScale(0) == 0.90 && GridScale(GRID_POINTS - 1) == 1.15
    ensures k > 0 ==> GridScale(k) - GridScale(k - 1) == 0.0005
  {
  }

  /** The change is in percent of the base. */
  lemma PercentIsChange(best: real, base: real)
    requires base != 0.0
    ensures base + base * Percent(best, base) / 100.0 == best
  {
    var q := Percent(best, base);
    assert q * base == 100.0 * (best - base);
  }
}
