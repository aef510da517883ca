/** The concentration of routed load (ops/moe_ciseau.py, `gini`): a sorted, weighted sum that is the
    mean absolute difference over all ordered pairs. */
module Gini {
  import opened RealSeq

  datatype Number = NaN | Num(value: real)

  /** The sum of (i + 1) * v[i]. */
  function Weighted(v: seq<real>): real {
    if v == [] then 0.0 else Weighted(v[..|v| - 1]) + Mul(|v| as real, v[|v| - 1])
  }

  function Coefficient(xs: seq<real>): Number {
    var v := Sort(xs);
    var n, s := |v| as real, Sum(v);
    if s == 0.0 then NaN
    else
      assert n != 0.0;
      Num(2.0 * Weighted(v) / (n * s) - (n + 1.0) / n)
  }

  // ----- all ordered pairs -----

  /** The sum of |x - y| over y in s. */
  ghost function Distance(x: real, s: seq<real>): real {
    if s == [] then 0.0 else Distance(x, s[..|s| - 1]) + Abs(x - s[|s| - 1])
  }

  /** The sum of |x - y| over x in a and y in b. */
  ghost function Pairs(a: seq<real>, b: seq<real>): real {
    if a == [] then 0.0 else Pairs(a[..|a| - 1], b) + Distance(a[|a| - 1], b)
  }

  lemma {:induction false} PairsRight(a: seq<real>, b: seq<real>, y: real)
    ensures Pairs(a, b + [y]) == Pairs(a, b) + Distance(y, a)
  {
    if a == [] {
    } else {
      PairsRight(a[..|a| - 1], b, y);
      assert (b + [y])[..|b|] == b;
    }
  }

  lemma PairsLeft(a: seq<real>, x: real, b: seq<real>)
    ensures Pairs(a + [x], b) == Pairs(a, b) + Distance(x, b)
  {
    assert (a + [x])[..|a|] == a;
  }

  lemma DistanceSnoc(x: real, s: seq<real>, y: real)
    ensures Distance(x, s + [y]) == Distance(x, s) + Abs(x - y)
  {
    assert (s + [y])[..|s|] == s;
  }

  /** One more entry adds its distance to every other, twice. */
  lemma PairsSnoc(s: seq<real>, x: real)
    ensures Pairs(s + [x], s + [x]) == Pairs(s, s) + 2.0 * Distance(x, s)
  {
    PairsLeft(s, x, s + [x]);
    PairsRight(s, s, x);
    DistanceSnoc(x, s, x);
  }

  lemma {:induction false} DistanceBelow(x: real, s: seq<real>)
    requires forall k :: 0 <= k < |s| ==> s[k] <= x
    ensures Distance(x, s) == Mul(|s| as real, x) - Sum(s)
  {
    if s == [] {
    } else {
      DistanceBelow(x, s[..|s| - 1]);
      MulSplit(|s| as real - 1.0, 1.0, x, 0.0);
    }
  }

  /** On an ascending list the pairwise sum is the weighted sum the code computes. */
  lemma {:induction false} SortedPairs(v: seq<real>)
    requires Sorted(v)
    ensures Pairs(v, v) == 4.0 * Weighted(v) - 2.0 * (Mul(|v| as real, Sum(v)) + Sum(v))
  {
    hide Mul;
    if v == [] {
      MulSplit(0.0, 0.0, 0.0, 0.0);
    } else {
      var n := |v| - 1;
      SortedPairs(v[..n]);
      assert v == v[..n] + [v[n]];
      PairsSnoc(v[..n], v[n]);
      DistanceBelow(v[n], v[..n]);
      var m := |v[..n]| as real;
      MulSplit(m, 1.0, Sum(v[..n]), v[n]);
      assert |v| as real == m + 1.0 && Sum(v) == Sum(v[..n]) + v[n];
      assert Mul(|v| as real, Sum(v)) == Mul(m + 1.0, Sum(v[..n]) + v[n]);
    }
  }

  // ----- order does not matter -----

  lemma {:induction false} DistanceInsert(x: real, s: seq<real>, y: real)
    ensures Distance(x, Insert(s, y)) == Distance(x, s) + Abs(x - y)
  {
    if s == [] || y <= s[0] {
      DistanceConcat(x, [y], s);
      DistanceSnoc(x, [], y);
    } else {
      DistanceInsert(x, s[1..], y);
      assert s == [s[0]] + s[1..];
      DistanceConcat(x, [s[0]], s[1..]);
      DistanceConcat(x, [s[0]], Insert(s[1..], y));
    }
  }

  lemma {:induction false} DistanceConcat(x: real, a: seq<real>, b: seq<real>)
    ensures Distance(x, a + b) == Distance(x, a) + Distance(x, b)
  {
    if b == [] {
      assert a + b == a;
    } else {
      assert (a + b)[..|a + b| - 1] == a + b[..|b| - 1];
      DistanceConcat(x, a, b[..|b| - 1]);
    }
  }

  lemma {:induction false} DistanceSort(x: real, s: seq<real>)
    ensures Distance(x, Sort(s)) == Distance(x, s)
  {
    if s == [] {
    } else {
      DistanceSort(x, s[..|s| - 1]);
      DistanceInsert(x, Sort(s[..|s| - 1]), s[|s| - 1]);
    }
  }

  lemma {:induction false} PairsConcat(a: seq<real>, b: seq<real>, c: seq<real>)
    ensures Pairs(a + b, c) == Pairs(a, c) + Pairs(b, c)
  {
    if b == [] {
      assert a + b == a;
    } else {
      assert (a + b)[..|a + b| - 1] == a + b[..|b| - 1];
      PairsConcat(a, b[..|b| - 1], c);
    }
  }

  lemma {:induction false} PairsInsert(s: seq<real>, x: real, b: seq<real>)
    ensures Pairs(Insert(s, x), b) == Pairs(s, b) + Distance(x, b)
  {
    if s == [] || x <= s[0] {
      PairsConcat([x], s, b);
      PairsLeft([], x, b);
      assert [] + [x] == [x];
    } else {
      PairsInsert(s[1..], x, b);
      assert s == [s[0]] + s[1..];
      PairsConcat([s[0]], s[1..], b);
      PairsConcat([s[0]], Insert(s[1..], x), b);
    }
  }

  lemma {:induction false} PairsSortLeft(s: seq<real>, b: seq<real>)
    ensures Pairs(Sort(s), b) == Pairs(s, b)
  {
    if s == [] {
    } else {
      PairsSortLeft(s[..|s| - 1], b);
      PairsInsert(Sort(s[..|s| - 1]), s[|s| - 1], b);
    }
  }

  lemma {:induction false} PairsSortRight(a: seq<real>, s: seq<real>)
    ensures Pairs(a, Sort(s)) == Pairs(a, s)
  {
    if a == [] {
    } else {
      PairsSortRight(a[..|a| - 1], s);
      DistanceSort(a[|a| - 1], s);
    }
  }

  /** p / (2 n s) */
  ghost function Ratio(p: real, n: real, s: real): real
    requires n != 0.0 && s != 0.0
  {
    p / (2.0 * n * s)
  }

  /** The coefficient is the pairwise sum over 2 n times the total. */
  lemma CoefficientIsPairwise(xs: seq<real>)
    ensures Coefficient(xs).NaN? <==> Sum(xs) == 0.0
    ensures Sum(xs) != 0.0 ==>
              xs != [] && Coefficient(xs) == Num(Ratio(Pairs(xs, xs), |xs| as real, Sum(xs)))
  {
    hide Sorted, Mul, Sort, Weighted, Pairs, Sum, Ratio;
    SortSorts(xs);
    SortedPairs(Sort(xs));
    PairsSortLeft(xs, Sort(xs));
    PairsSortRight(xs, xs);
    if Sum(xs) != 0.0 {
      assert xs != [] by { SumNothing(); }
      Fraction(|xs| as real, Sum(xs), Weighted(Sort(xs)));
    }
  }

  lemma Fraction(n: real, s: real, w: real)
    requires n != 0.0 && s != 0.0
    ensures n * s != 0.0
    ensures 2.0 * w / (n * s) - (n + 1.0) / n == Ratio(4.0 * w - 2.0 * (Mul(n, s) + s), n, s)
  {
    var d := n * s;
    assert d != 0.0;
    assert (4.0 * w) / (2.0 * d) == 2.0 * w / d;
    assert (n + 1.0) / n * d == d + s by {
      assert (n + 1.0) / n * n == n + 1.0;
      assert (n + 1.0) / n * (n * s) == ((n + 1.0) / n * n) * s;
    }
    assert (2.0 * (Mul(n, s) + s)) / (2.0 * d) == (n + 1.0) / n;
    assert 2.0 * n * s == 2.0 * d;
  }

  /** The coefficient does not depend on the order of the loads. */
  lemma CoefficientIgnoresOrder(a: seq<real>, b: seq<real>)
    requires multiset(a) == multiset(b)
    ensures Coefficient(a) == Coefficient(b)
  {
    hide Sorted, Sort, Weighted, Sum;
    SortSorts(a);
    SortSorts(b);
    SortedIsUnique(Sort(a), Sort(b));
  }

  // ----- the range, and when its ends are reached -----

  ghost function Min(x: real, y: real): real {
    if x <= y then x else y
  }

  /** The sum of min(x, y) over y in s. */
  ghost function Shared(x: real, s: seq<real>): real {
    if s == [] then 0.0 else Shared(x, s[..|s| - 1]) + Min(x, s[|s| - 1])
  }

  /** What every pair has in common, each pair once. */
  ghost function Overlap(s: seq<real>): real {
    if s == [] then 0.0 else Overlap(s[..|s| - 1]) + Shared(s[|s| - 1], s[..|s| - 1])
  }

  lemma {:induction false} DistanceByShared(x: real, s: seq<real>)
    ensures Distance(x, s) == Mul(|s| as real, x) + Sum(s) - 2.0 * Shared(x, s)
  {
    if s == [] {
    } else {
      DistanceByShared(x, s[..|s| - 1]);
      MulSplit(|s| as real - 1.0, 1.0, x, 0.0);
    }
  }

  lemma {:induction false} PairsByOverlap(s: seq<real>)
    ensures Pairs(s, s) == 2.0 * (Mul(|s| as real, Sum(s)) - Sum(s)) - 4.0 * Overlap(s)
  {
    hide Mul;
    if s == [] {
      MulSplit(0.0, 0.0, 0.0, 0.0);
    } else {
      var n := |s| - 1;
      PairsByOverlap(s[..n]);
      assert s == s[..n] + [s[n]];
      PairsSnoc(s[..n], s[n]);
      DistanceByShared(s[n], s[..n]);
      var m := |s[..n]| as real;
      MulSplit(m, 1.0, Sum(s[..n]), s[n]);
      assert |s| as real == m + 1.0 && Sum(s) == Sum(s[..n]) + s[n];
      assert Mul(|s| as real, Sum(s)) == Mul(m + 1.0, Sum(s[..n]) + s[n]);
    }
  }

  lemma {:induction false} SharedIsNonNegative(x: real, s: seq<real>)
    requires x >= 0.0 && NonNegative(s)
    ensures Shared(x, s) >= 0.0
    ensures Shared(x, s) == 0.0 <==> x == 0.0 || forall k :: 0 <= k < |s| ==> s[k] == 0.0
  {
    if s == [] {
    } else {
      SharedIsNonNegative(x, s[..|s| - 1]);
    }
  }

  /** At most one load is not zero. */
  ghost predicate OneLoaded(s: seq<real>) {
    forall i, j :: 0 <= i < j < |s| ==> s[i] == 0.0 || s[j] == 0.0
  }

  lemma {:induction false} OverlapIsNonNegative(s: seq<real>)
    requires NonNegative(s)
    ensures Overlap(s) >= 0.0
    ensures Overlap(s) == 0.0 <==> OneLoaded(s)
  {
    if s == [] {
    } else {
      OverlapIsNonNegative(s[..|s| - 1]);
      SharedIsNonNegative(s[|s| - 1], s[..|s| - 1]);
    }
  }

  ghost predicate AllEqual(s: seq<real>) {
    forall i, j :: 0 <= i < j < |s| ==> s[i] == s[j]
  }

  lemma {:induction false} DistanceIsNonNegative(x: real, s: seq<real>)
    ensures Distance(x, s) >= 0.0
    ensures Distance(x, s) == 0.0 <==> forall k :: 0 <= k < |s| ==> s[k] == x
  {
    if s == [] {
    } else {
      DistanceIsNonNegative(x, s[..|s| - 1]);
    }
  }

  lemma {:induction false} PairsAreNonNegative(s: seq<real>)
    ensures Pairs(s, s) >= 0.0
    ensures Pairs(s, s) == 0.0 <==> AllEqual(s)
  {
    if s == [] {
    } else {
      var n := |s| - 1;
      PairsAreNonNegative(s[..n]);
      assert s == s[..n] + [s[n]];
      PairsSnoc(s[..n], s[n]);
      DistanceIsNonNegative(s[n], s[..n]);
    }
  }

  /** Between 0 and 1 - 1/n; 0 exactly for equal loads, 1 - 1/n exactly for a single loaded expert. */
  lemma CoefficientRange(xs: seq<real>)
    requires NonNegative(xs) && Sum(xs) > 0.0
    ensures Coefficient(xs).Num? && |xs| > 0
    ensures 0.0 <= Coefficient(xs).value <= 1.0 - 1.0 / |xs| as real
    ensures Coefficient(xs).value == 0.0 <==> AllEqual(xs)
    ensures Coefficient(xs).value == 1.0 - 1.0 / |xs| as real <==> OneLoaded(xs)
  {
    hide Sum, Pairs, Overlap, Coefficient, Mul, AllEqual, OneLoaded, Ratio, NonNegative;
    CoefficientIsPairwise(xs);
    PairsAreNonNegative(xs);
    PairsByOverlap(xs);
    OverlapIsNonNegative(xs);
    RangeOfRatio(|xs| as real, Sum(xs), Pairs(xs, xs), Overlap(xs));
  }

  lemma RangeOfRatio(n: real, s: real, p: real, o: real)
    requires n > 0.0 && s > 0.0 && p >= 0.0 && o >= 0.0
    requires p == 2.0 * (Mul(n, s) - s) - 4.0 * o
    ensures 0.0 <= Ratio(p, n, s) <= 1.0 - 1.0 / n
    ensures Ratio(p, n, s) == 0.0 <==> p == 0.0
    ensures Ratio(p, n, s) == 1.0 - 1.0 / n <==> o == 0.0
  {
    var d := 2.0 * n * s;
    assert d > 0.0;
    var r := 1.0 - 1.0 / n;
    assert r * d == 2.0 * (Mul(n, s) - s) by {
      assert 1.0 / n * n == 1.0;
      assert 1.0 / n * (n * (2.0 * s)) == (1.0 / n * n) * (2.0 * s);
    }
    var q := p / d;
    assert q * d == p;
    assert (r - q) * d == 4.0 * o;
    SignOfProduct(q, d);
    SignOfProduct(r - q, d);
  }

  lemma SignOfProduct(a: real, d: real)
    requires d > 0.0
    ensures a * d >= 0.0 <==> a >= 0.0
    ensures a * d == 0.0 <==> a == 0.0
  {
  }
}
