/** The sampled question set (ops/gsm8k_vllm.py, `select`): a census, or the sorted head of a
    Fisher-Yates shuffle drawn from SplitMix64. */
module Selection {
  import opened Basics
  import opened SplitMix

  const SAMPLE_SEED: nat := 0x65_736D_386B

  function Range(n: nat): seq<nat> {
    seq(n, i => i)
  }

  function Swap(s: seq<nat>, i: nat, j: nat): (r: seq<nat>)
    requires i < |s| && j < |s|
    ensures |r| == |s|
  {
    s[i := s[j]][j := s[i]]
  }

  /** draws[0] is used at index i, draws[1] at i - 1, and so on down to index 1. */
  ghost predicate ValidDraws(i: nat, draws: seq<nat>) {
    |draws| == i && forall k :: 0 <= k < i ==> draws[k] <= i - k
  }

  ghost function Shuffle(s: seq<nat>, i: nat, draws: seq<nat>): (r: seq<nat>)
    requires i < |s| && ValidDraws(i, draws)
    ensures |r| == |s|
    decreases i
  {
    if i == 0 then s else Shuffle(Swap(s, i, draws[0]), i - 1, draws[1..])
  }

  /** The draws the seeded generator gives a list of n entries. */
  ghost function SeededDraws(n: nat): (draws: seq<nat>)
    requires n > 0
    ensures ValidDraws(n - 1, draws)
  {
    seq(n - 1, k requires 0 <= k < n - 1 => Draw(SAMPLE_SEED, k) % (n - k))
  }

  /** Python's `s[:limit]`: a negative limit counts from the end. */
  function Head(s: seq<nat>, limit: int): (r: seq<nat>)
    ensures r <= s
    ensures |r| == if limit >= |s| then |s| else if limit >= 0 then limit
                   else if |s| + limit >= 0 then |s| + limit else 0
  {
    if limit >= |s| then s
    else if limit >= 0 then s[..limit]
    else if |s| + limit >= 0 then s[..|s| + limit]
    else []
  }

  function InsertNat(s: seq<nat>, x: nat): seq<nat> {
    if s == [] || x <= s[0] then [x] + s else [s[0]] + InsertNat(s[1..], x)
  }

  function SortNats(s: seq<nat>): seq<nat> {
    if s == [] then [] else InsertNat(SortNats(s[1..]), s[0])
  }

  ghost function Selected(n: nat, limit: int): seq<nat> {
    if limit >= n then Range(n)
    else if n == 0 then []
    else SortNats(Head(Shuffle(Range(n), n - 1, SeededDraws(n)), limit))
  }

  lemma ShuffleStep(s: seq<nat>, i: nat, draws: seq<nat>, k: nat)
    requires 0 < i < |s| && k < |draws| && ValidDraws(i, draws[k..])
    ensures ValidDraws(i - 1, draws[k + 1..])
    ensures draws[k] <= i
    ensures Shuffle(s, i, draws[k..]) == Shuffle(Swap(s, i, draws[k]), i - 1, draws[k + 1..])
  {
    assert draws[k..][0] == draws[k];
    assert draws[k..][1..] == draws[k + 1..];
  }

  method Select(n: nat, limit: int) returns (picked: seq<nat>)
    ensures picked == Selected(n, limit)
  {
    if limit >= n {
      return Range(n);
    }
    var idx := new nat[n](i => i);
    assert idx[..] == Range(n);
    if n > 0 {
      ShuffleInPlace(idx);
    }
    return SortNats(Head(idx[..], limit));
  }

  method ShuffleInPlace(idx: array<nat>)
    requires idx.Length > 0
    modifies idx
    ensures idx[..] == Shuffle(old(idx[..]), idx.Length - 1, SeededDraws(idx.Length))
  {
    hide Shuffle, Swap, Draw, State, ValidDraws;
    ghost var draws := SeededDraws(idx.Length);
    var rng := new SplitMix64(SAMPLE_SEED);
    StateStart();
    assert draws[0..] == draws;
    var i := idx.Length - 1;
    while i > 0
      invariant 0 <= i < idx.Length
      invariant rng.state == State(SAMPLE_SEED, idx.Length - 1 - i)
      invariant ValidDraws(i, draws[idx.Length - 1 - i..])
      invariant Shuffle(idx[..], i, draws[idx.Length - 1 - i..]) == Shuffle(old(idx[..]), idx.Length - 1, draws)
    {
      ghost var k := idx.Length - 1 - i;
      ShuffleStep(idx[..], i, draws, k);
      var out := rng.Next(SAMPLE_SEED, k);
      var j := out % (i + 1);
      SwapInPlace(idx, i, j);
      i := i - 1;
    }
    ShuffleDone(idx[..], draws[idx.Length - 1..]);
  }

  lemma StateStart()
    ensures State(SAMPLE_SEED, 0) == SAMPLE_SEED
  {
  }

  lemma ShuffleDone(s: seq<nat>, draws: seq<nat>)
    requires s != [] && ValidDraws(0, draws)
    ensures Shuffle(s, 0, draws) == s
  {
  }

  method SwapInPlace(a: array<nat>, i: nat, j: nat)
    requires i < a.Length && j < a.Length
    modifies a
    ensures a[..] == Swap(old(a[..]), i, j)
  {
    a[i], a[j] := a[j], a[i];
  }

  // ----- the shuffle is a bijection from draws to permutations -----

  lemma SwapPermutes(s: seq<nat>, i: nat, j: nat)
    requires i < |s| && j < |s|
    ensures multiset(Swap(s, i, j)) == multiset(s)
    ensures Distinct(s) ==> Distinct(Swap(s, i, j))
  {
  }

  lemma {:induction false} ShufflePermutes(s: seq<nat>, i: nat, draws: seq<nat>)
    requires i < |s| && ValidDraws(i, draws)
    ensures multiset(Shuffle(s, i, draws)) == multiset(s)
    ensures Shuffle(s, i, draws)[i + 1..] == s[i + 1..]
    decreases i
  {
    if i == 0 {
    } else {
      var t := Swap(s, i, draws[0]);
      SwapPermutes(s, i, draws[0]);
      ShufflePermutes(t, i - 1, draws[1..]);
      var r := Shuffle(s, i, draws);
      assert t[i + 1..] == s[i + 1..];
      assert r[i..] == t[i..];
      assert r[i + 1..] == r[i..][1..] == t[i..][1..];
    }
  }

  /** The entry drawn first ends at index i and stays there. */
  lemma DrawnEntryStays(s: seq<nat>, i: nat, draws: seq<nat>)
    requires 0 < i < |s| && ValidDraws(i, draws)
    ensures Shuffle(s, i, draws)[i] == s[draws[0]]
  {
    var t := Swap(s, i, draws[0]);
    ShufflePermutes(t, i - 1, draws[1..]);
    assert Shuffle(s, i, draws)[i..] == t[i..];
    assert t[i..][0] == s[draws[0]];
  }

  /** Every index ends with the entry drawn for it from the list as it then stood. */
  lemma {:induction false} EveryIndexKeepsItsDraw(s: seq<nat>, i: nat, draws: seq<nat>, k: nat)
    requires k < i < |s| && ValidDraws(i, draws)
    ensures ValidDraws(i - k, draws[k..])
    ensures Shuffle(s, i, draws)[i - k] == Swapped(s, i, draws, k)[draws[k]]
    decreases i
  {
    if k == 0 {
      assert draws[0..] == draws;
      DrawnEntryStays(s, i, draws);
    } else {
      EveryIndexKeepsItsDraw(Swap(s, i, draws[0]), i - 1, draws[1..], k - 1);
      assert draws[1..][k - 1..] == draws[k..] && draws[1..][k - 1] == draws[k];
    }
  }

  /** The list after the first k swaps, of indices i, i - 1, ... with the entries drawn. */
  ghost function Swapped(s: seq<nat>, i: nat, draws: seq<nat>, k: nat): (r: seq<nat>)
    requires k <= i < |s| && ValidDraws(i, draws)
    ensures |r| == |s|
    decreases k
  {
    if k == 0 then s else Swapped(Swap(s, i, draws[0]), i - 1, draws[1..], k - 1)
  }

  /** The draw used at index i of n is the word the generator yields there, modulo i + 1. */
  lemma DrawAtIndex(n: nat, i: nat)
    requires 0 < i < n
    ensures SeededDraws(n)[n - 1 - i] == Draw(SAMPLE_SEED, n - 1 - i) % (i + 1)
  {
    hide Draw;
  }

  /** Distinct draw sequences give distinct permutations. */
  lemma {:induction false} ShuffleInjective(s: seq<nat>, i: nat, a: seq<nat>, b: seq<nat>)
    requires Distinct(s) && i < |s| && ValidDraws(i, a) && ValidDraws(i, b)
    requires Shuffle(s, i, a) == Shuffle(s, i, b)
    ensures a == b
    decreases i
  {
    if i == 0 {
    } else {
      DrawnEntryStays(s, i, a);
      DrawnEntryStays(s, i, b);
      assert s[a[0]] == s[b[0]];
      assert a[0] == b[0];
      SwapPermutes(s, i, a[0]);
      ShuffleInjective(Swap(s, i, a[0]), i - 1, a[1..], b[1..]);
      assert a == [a[0]] + a[1..] && b == [b[0]] + b[1..];
    }
  }

  /** Every permutation of the first i + 1 entries comes from some draws. */
  lemma {:induction false} ShuffleSurjective(s: seq<nat>, i: nat, p: seq<nat>) returns (draws: seq<nat>)
    requires Distinct(s) && i < |s| == |p|
    requires multiset(p[..i + 1]) == multiset(s[..i + 1]) && p[i + 1..] == s[i + 1..]
    ensures ValidDraws(i, draws) && Shuffle(s, i, draws) == p
    decreases i
  {
    if i == 0 {
      draws := [];
      assert p[..1] == [p[0]] && s[..1] == [s[0]];
      assert p[0] in multiset(s[..1]);
      assert p == p[..1] + p[1..] && s == s[..1] + s[1..];
    } else {
      var j := IndexBefore(s, i, p);
      var t := Swap(s, i, j);
      SwapPermutes(s, i, j);
      SwapHead(s, i, j, p);
      var rest := ShuffleSurjective(t, i - 1, p);
      draws := [j] + rest;
      assert draws[1..] == rest;
    }
  }

  lemma IndexBefore(s: seq<nat>, i: nat, p: seq<nat>) returns (j: nat)
    requires i < |s| == |p| && multiset(p[..i + 1]) == multiset(s[..i + 1])
    ensures j <= i && s[j] == p[i]
  {
    assert p[..i + 1][i] in multiset(s[..i + 1]);
    assert p[i] in s[..i + 1];
    j :| 0 <= j < |s[..i + 1]| && s[..i + 1][j] == p[i];
  }

  lemma SwapHead(s: seq<nat>, i: nat, j: nat, p: seq<nat>)
    requires 0 < i < |s| == |p| && j <= i && s[j] == p[i]
    requires multiset(p[..i + 1]) == multiset(s[..i + 1]) && p[i + 1..] == s[i + 1..]
    ensures multiset(p[..i]) == multiset(Swap(s, i, j)[..i])
    ensures p[i..] == Swap(s, i, j)[i..]
  {
    var t := Swap(s, i, j);
    assert multiset(t[..i + 1]) == multiset(s[..i + 1]) by {
      assert t[..i + 1] == Swap(s[..i + 1], i, j);
      SwapPermutes(s[..i + 1], i, j);
    }
    HeadSplit(t, i);
    HeadSplit(p, i);
    assert t[i + 1..] == s[i + 1..];
  }

  lemma HeadSplit(s: seq<nat>, i: nat)
    requires i < |s|
    ensures multiset(s[..i]) == multiset(s[..i + 1]) - multiset{s[i]}
    ensures s[i..] == [s[i]] + s[i + 1..]
  {
    assert s[..i + 1] == s[..i] + [s[i]];
  }

  // ----- the sorted selection -----

  ghost predicate Ascending(s: seq<nat>) {
    forall i, j :: 0 <= i < j < |s| ==> s[i] <= s[j]
  }

  lemma {:induction false} InsertNatSorts(s: seq<nat>, x: nat)
    requires Ascending(s)
    ensures Ascending(InsertNat(s, x))
    ensures InsertNat(s, x) != [] && InsertNat(s, x)[0] == if s == [] || x <= s[0] then x else s[0]
  {
    if s == [] {
    } else {
      if x > s[0] {
        InsertNatSorts(s[1..], x);
        var t := InsertNat(s[1..], x);
        assert s[0] <= t[0];
        assert forall k :: 0 <= k < |t| ==> t[0] <= t[k];
      }
    }
  }

  lemma {:induction false} InsertNatKeeps(s: seq<nat>, x: nat)
    ensures multiset(InsertNat(s, x)) == multiset(s) + multiset{x}
  {
    if s == [] {
    } else {
      assert s == [s[0]] + s[1..];
      if x > s[0] {
        InsertNatKeeps(s[1..], x);
      }
    }
  }

  lemma {:induction false} SortNatsSorts(s: seq<nat>)
    ensures Ascending(SortNats(s)) && multiset(SortNats(s)) == multiset(s)
  {
    hide InsertNat, Ascending;
    if s == [] {
      NothingToSort();
    } else {
      SortNatsSorts(s[1..]);
      InsertNatSorts(SortNats(s[1..]), s[0]);
      InsertNatKeeps(SortNats(s[1..]), s[0]);
      assert s == [s[0]] + s[1..];
    }
  }

  lemma NothingToSort()
    ensures Ascending([])
  {
  }

  lemma DistinctByCount(s: seq<nat>)
    ensures Distinct(s) <==> forall x :: multiset(s)[x] <= 1
  {
    if !Distinct(s) {
      var i, j :| 0 <= i < j < |s| && s[i] == s[j];
      assert s == s[..j] + s[j..];
      assert s[i] in multiset(s[..j]) by { assert s[..j][i] == s[i]; }
      assert s[j] in multiset(s[j..]) by { assert s[j..][0] == s[j]; }
      assert multiset(s)[s[i]] == multiset(s[..j])[s[i]] + multiset(s[j..])[s[i]];
    } else {
      forall x ensures multiset(s)[x] <= 1 {
        DistinctCount(s, x);
      }
    }
  }

  lemma {:induction false} DistinctCount(s: seq<nat>, x: nat)
    requires Distinct(s)
    ensures multiset(s)[x] <= 1
  {
    if s == [] {
    } else {
      DistinctCount(s[1..], x);
      assert s == [s[0]] + s[1..];
      if s[0] == x {
        assert x !in s[1..];
        assert multiset(s[1..])[x] == 0;
      }
    }
  }

  ghost function ShuffledSeeded(n: nat): (r: seq<nat>)
    requires n > 0
    ensures |r| == n
  {
    Shuffle(Range(n), n - 1, SeededDraws(n))
  }

  lemma ShuffledSeededFacts(n: nat)
    requires n > 0
    ensures Distinct(ShuffledSeeded(n))
    ensures forall x: nat :: x in ShuffledSeeded(n) <==> x < n
  {
    ShufflePermutes(Range(n), n - 1, SeededDraws(n));
    DistinctByCount(Range(n));
    DistinctByCount(ShuffledSeeded(n));
    forall x: nat ensures x in ShuffledSeeded(n) <==> x < n {
      assert x in multiset(ShuffledSeeded(n)) <==> x in multiset(Range(n));
      if x < n {
        assert Range(n)[x] == x;
      }
    }
  }

  /** Strictly increasing indices below n, as many as the slice keeps. */
  lemma SelectionIsIncreasing(n: nat, limit: int)
    ensures var p := Selected(n, limit);
            && (forall i, j :: 0 <= i < j < |p| ==> p[i] < p[j])
            && (forall x :: x in p ==> x < n)
            && |p| == if limit >= n then n else if limit >= 0 then limit
                      else if n + limit >= 0 then n + limit else 0
  {
    if limit < n && n > 0 {
      hide Shuffle, SeededDraws, SortNats;
      var head := Head(ShuffledSeeded(n), limit);
      HeadFacts(n, limit);
      SortedOnce(head, n);
    }
  }

  lemma HeadFacts(n: nat, limit: int)
    requires n > 0
    ensures var head := Head(ShuffledSeeded(n), limit); Distinct(head) && forall x :: x in head ==> x < n
  {
    hide ShuffledSeeded;
    ShuffledSeededFacts(n);
    var s, head := ShuffledSeeded(n), Head(ShuffledSeeded(n), limit);
    assert forall i :: 0 <= i < |head| ==> head[i] == s[i] && s[i] in s;
  }

  /** Sorting entries that differ puts them in strictly increasing order. */
  lemma SortedOnce(s: seq<nat>, n: nat)
    requires Distinct(s) && forall x :: x in s ==> x < n
    ensures var p := SortNats(s);
            && |p| == |s|
            && (forall i, j :: 0 <= i < j < |p| ==> p[i] < p[j])
            && (forall x :: x in p ==> x < n)
  {
    hide SortNats;
    var p := SortNats(s);
    SortNatsSorts(s);
    assert |multiset(p)| == |p| && |multiset(s)| == |s|;
    DistinctByCount(s);
    DistinctByCount(p);
    forall x | x in p ensures x < n {
      assert x in multiset(p) && x in multiset(s);
      assert x in s;
    }
  }

  lemma SelectedMembers(n: nat, limit: int, x: nat)
    requires limit < n && n > 0
    ensures x in Selected(n, limit) <==> x in Head(ShuffledSeeded(n), limit)
  {
    hide Shuffle, Head, SortNats;
    var head := Head(ShuffledSeeded(n), limit);
    SortNatsSorts(head);
    assert x in multiset(head) <==> x in multiset(SortNats(head));
  }

  /** Smaller selections are contained in larger ones. */
  lemma SelectionIsNested(n: nat, a: nat, b: nat)
    requires a <= b
    ensures forall x :: x in Selected(n, a) ==> x in Selected(n, b)
  {
    if b >= n {
      SelectionIsIncreasing(n, a);
      forall x | x in Selected(n, a) ensures x in Selected(n, b) {
        assert Range(n)[x] == x;
      }
    } else {
      hide Selected, ShuffledSeeded;
      forall x | x in Selected(n, a) ensures x in Selected(n, b) {
        SelectedMembers(n, a, x);
        SelectedMembers(n, b, x);
      }
    }
  }
}
