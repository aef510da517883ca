/** Sums, maxima and sorting of lists of reals, shared by the models below. */
module RealSeq {

  function Sum(s: seq<real>): real {
    if s == [] then 0.0 else Sum(s[..|s| - 1]) + s[|s| - 1]
  }

  /** A product; hidden where a proof should treat it as one term. */
  function Mul(a: real, b: real): real {
    a * b
  }

  lemma MulSplit(a: real, b: real, x: real, y: real)
    ensures Mul(a + b, x + y) == Mul(a, x) + Mul(a, y) + Mul(b, x) + Mul(b, y)
    ensures Mul(a, x + y) == Mul(a, x) + Mul(a, y)
    ensures Mul(a + b, x) == Mul(a, x) + Mul(b, x)
    ensures Mul(a + b, y) == Mul(a, y) + Mul(b, y)
    ensures Mul(1.0, x) == x && Mul(1.0, y) == y
  {
  }

  function Abs(x: real): (a: real)
    ensures a >= 0.0 && (a == x || a == -x)
  {
    if x >= 0.0 then x else -x
  }

  lemma QuotientWithin(s: real, n: real, lo: real, hi: real)
    requires n > 0.0 && Mul(n, lo) <= s <= Mul(n, hi)
    ensures lo <= s / n <= hi
  {
    var m := s / n;
    assert n * m == s;
    assert n * (m - lo) >= 0.0 && n * (hi - m) >= 0.0;
    assert m - lo >= 0.0 by { Positive(n, m - lo); }
    assert hi - m >= 0.0 by { Positive(n, hi - m); }
  }

  lemma Positive(n: real, x: real)
    requires n > 0.0
    ensures n * x >= 0.0 ==> x >= 0.0
  {
  }

  function Max(s: seq<real>): (m: real)
    requires s != []
    ensures m in s
    ensures forall k :: 0 <= k < |s| ==> s[k] <= m
  {
    if |s| == 1 then s[0]
    else
      var m := Max(s[..|s| - 1]);
      assert s == s[..|s| - 1] + [s[|s| - 1]];
      if s[|s| - 1] > m then s[|s| - 1] else m
  }

  ghost predicate NonNegative(s: seq<real>) {
    forall k :: 0 <= k < |s| ==> s[k] >= 0.0
  }

  ghost predicate Sorted(s: seq<real>) {
    forall i, j :: 0 <= i <= j < |s| ==> s[i] <= s[j]
  }

  lemma SumNothing()
    ensures Sum([]) == 0.0
  {
  }

  /** The sum up to and including index i, as an accumulating loop sees it. */
  lemma SumStep(s: seq<real>, i: nat)
    requires i < |s|
    ensures Sum(s[..i + 1]) == Sum(s[..i]) + s[i]
  {
    assert s[..i + 1][..i] == s[..i];
  }

  lemma {:induction false} SumConcat(a: seq<real>, b: seq<real>)
    ensures Sum(a + b) == Sum(a) + Sum(b)
  {
    if b == [] {
      assert a + b == a;
    } else {
      assert (a + b)[..|a + b| - 1] == a + b[..|b| - 1];
      SumConcat(a, b[..|b| - 1]);
    }
  }

  lemma SumCons(x: real, s: seq<real>)
    ensures Sum([x] + s) == x + Sum(s)
  {
    SumConcat([x], s);
    assert [x][..0] == [];
  }

  lemma SumSplit(s: seq<real>, i: nat)
    requires i <= |s|
    ensures Sum(s) == Sum(s[..i]) + Sum(s[i..])
  {
    assert s == s[..i] + s[i..];
    SumConcat(s[..i], s[i..]);
  }

  /** Taking one entry out. */
  lemma SumRemove(s: seq<real>, i: nat)
    requires i < |s|
    ensures Sum(s) == Sum(s[..i] + s[i + 1..]) + s[i]
  {
    SumSplit(s, i + 1);
    SumStep(s, i);
    SumConcat(s[..i], s[i + 1..]);
  }

  lemma SumUpdate(s: seq<real>, i: nat, x: real)
    requires i < |s|
    ensures Sum(s[i := x]) == Sum(s) - s[i] + x
  {
    var t := s[i := x];
    SumRemove(s, i);
    SumRemove(t, i);
    assert t[..i] + t[i + 1..] == s[..i] + s[i + 1..];
  }

  lemma EntriesWithout(s: seq<real>, i: nat)
    requires i < |s|
    ensures multiset(s[..i] + s[i + 1..]) == multiset(s) - multiset{s[i]}
  {
    assert s == s[..i] + [s[i]] + s[i + 1..];
  }

  lemma LastOut(s: seq<real>)
    requires s != []
    ensures multiset(s[..|s| - 1]) == multiset(s) - multiset{s[|s| - 1]}
    ensures s == s[..|s| - 1] + [s[|s| - 1]]
  {
    EntriesWithout(s, |s| - 1);
    assert s[..|s| - 1] + s[|s|..] == s[..|s| - 1];
  }

  lemma EntriesUpdated(s: seq<real>, i: nat, x: real)
    requires i < |s|
    ensures multiset(s[i := x]) == multiset(s) - multiset{s[i]} + multiset{x}
  {
  }

  /** A sum does not depend on the order of its terms. */
  lemma {:induction false} SumPermutation(a: seq<real>, b: seq<real>)
    requires multiset(a) == multiset(b)
    ensures Sum(a) == Sum(b)
  {
    assert |multiset(a)| == |a| && |multiset(b)| == |b|;
    if a == [] {
    } else {
      var n := |a| - 1;
      assert a[n] in multiset(b);
      var i :| 0 <= i < |b| && b[i] == a[n];
      EntriesWithout(b, i);
      EntriesWithout(a, n);
      assert a[..n] + a[n + 1..] == a[..n];
      SumPermutation(a[..n], b[..i] + b[i + 1..]);
      SumRemove(b, i);
    }
  }

  lemma {:induction false} SumMonotone(a: seq<real>, b: seq<real>)
    requires |a| == |b|
    requires forall k :: 0 <= k < |a| ==> a[k] <= b[k]
    ensures Sum(a) <= Sum(b)
  {
    if a == [] {
    } else {
      SumMonotone(a[..|a| - 1], b[..|b| - 1]);
    }
  }

  lemma {:induction false} SumAtMost(s: seq<real>, m: real)
    requires forall k :: 0 <= k < |s| ==> s[k] <= m
    ensures Sum(s) <= |s| as real * m
  {
    if s == [] {
    } else {
      SumAtMost(s[..|s| - 1], m);
    }
  }

  lemma {:induction false} SumAtLeast(s: seq<real>, m: real)
    requires forall k :: 0 <= k < |s| ==> m <= s[k]
    ensures |s| as real * m <= Sum(s)
  {
    if s == [] {
    } else {
      SumAtLeast(s[..|s| - 1], m);
    }
  }

  lemma {:induction false} SumNonNegative(s: seq<real>)
    requires NonNegative(s)
    ensures Sum(s) >= 0.0
  {
    if s == [] {
    } else {
      SumNonNegative(s[..|s| - 1]);
    }
  }

  lemma {:induction false} SumScale(a: seq<real>, b: seq<real>, k: real)
    requires |a| == |b|
    requires forall i :: 0 <= i < |a| ==> a[i] == k * b[i]
    ensures Sum(a) == k * Sum(b)
  {
    if a == [] {
    } else {
      SumScale(a[..|a| - 1], b[..|b| - 1], k);
    }
  }

  // ----- sorting -----

  /** Where a new entry goes in an ascending list. */
  function Insert(s: seq<real>, x: real): (r: seq<real>)
    ensures |r| == |s| + 1
  {
    if s == [] || x <= s[0] then [x] + s else [s[0]] + Insert(s[1..], x)
  }

  lemma {:induction false} InsertKeepsEntries(s: seq<real>, x: real)
    ensures multiset(Insert(s, x)) == multiset(s) + multiset{x}
    ensures Sum(Insert(s, x)) == Sum(s) + x
  {
    if s == [] || x <= s[0] {
      SumCons(x, s);
    } else {
      InsertKeepsEntries(s[1..], x);
      assert s == [s[0]] + s[1..];
      SumCons(s[0], s[1..]);
      SumCons(s[0], Insert(s[1..], x));
    }
  }

  lemma {:induction false} InsertSorted(s: seq<real>, x: real)
    requires Sorted(s)
    ensures Sorted(Insert(s, x))
    ensures Insert(s, x)[0] == if s == [] || x <= s[0] then x else s[0]
  {
    if s == [] || x <= s[0] {
    } else {
      InsertSorted(s[1..], x);
      var t := Insert(s[1..], x);
      assert s[0] <= t[0];
      assert forall k :: 0 <= k < |t| ==> t[0] <= t[k];
    }
  }

  function Sort(s: seq<real>): (r: seq<real>)
    ensures |r| == |s|
  {
    if s == [] then [] else Insert(Sort(s[..|s| - 1]), s[|s| - 1])
  }

  lemma {:induction false} SortSorts(s: seq<real>)
    ensures Sorted(Sort(s))
    ensures multiset(Sort(s)) == multiset(s)
    ensures Sum(Sort(s)) == Sum(s)
  {
    if s == [] {
    } else {
      SortSorts(s[..|s| - 1]);
      assert s == s[..|s| - 1] + [s[|s| - 1]];
      InsertSorted(Sort(s[..|s| - 1]), s[|s| - 1]);
      InsertKeepsEntries(Sort(s[..|s| - 1]), s[|s| - 1]);
    }
  }

  /** Two ascending lists with the same entries are the same list. */
  lemma {:induction false} SortedIsUnique(a: seq<real>, b: seq<real>)
    requires Sorted(a) && Sorted(b) && multiset(a) == multiset(b)
    ensures a == b
  {
    assert |multiset(a)| == |a| && |multiset(b)| == |b|;
    if a == [] {
    } else {
      var n := |a| - 1;
      SameLast(a, b);
      hide Sorted;
      LastOut(a);
      LastOut(b);
      PrefixSorted(a, n);
      PrefixSorted(b, n);
      SortedIsUnique(a[..n], b[..n]);
    }
  }

  lemma PrefixSorted(s: seq<real>, n: nat)
    requires Sorted(s) && n <= |s|
    ensures Sorted(s[..n])
  {
  }

  lemma SameLast(a: seq<real>, b: seq<real>)
    requires Sorted(a) && Sorted(b) && multiset(a) == multiset(b) && |a| == |b| > 0
    ensures a[|a| - 1] == b[|b| - 1]
  {
    assert a[|a| - 1] in multiset(b) && b[|b| - 1] in multiset(a);
    assert a[|a| - 1] in b && b[|b| - 1] in a;
  }
}
