/** The greedy hot/cold allocation of routed cells (ops/moe_ciseau.py): how few cells must stay
    resident for the cold mass to fit a budget, globally and per layer, and the budget at which a
    target is met. None stands for the ZeroDivisionError of an empty total. */
module Allocation {
  import opened Basics
  import opened RealSeq

  function Total(s: seq<nat>): nat {
    if s == [] then 0 else Total(s[..|s| - 1]) + s[|s| - 1]
  }

  /** `sum(desc[:k])`; a slice past the end stops at the end. */
  function Hot(desc: seq<nat>, k: nat): nat {
    Total(if k <= |desc| then desc[..k] else desc)
  }

  /** The routed mass left cold when the first `k` cells are resident. */
  function ColdMassAt(desc: seq<nat>, total: nat, k: nat): Option<real> {
    if total == 0 then None else Some((total - Hot(desc, k)) as real / total as real)
  }

  ghost predicate Fits(desc: seq<nat>, total: nat, fMax: real, k: nat)
    requires total > 0
  {
    ColdMassAt(desc, total, k).value <= fMax
  }

  /** The k of `alpha_min_global`: the first that fits, else every cell. */
  ghost function AlphaMin(desc: seq<nat>, total: nat, fMax: real, k: nat): (r: nat)
    requires total > 0 && k <= |desc|
    ensures k <= r <= |desc|
    ensures forall j :: k <= j < r ==> !Fits(desc, total, fMax, j)
    ensures r < |desc| ==> Fits(desc, total, fMax, r)
    decreases |desc| - k
  {
    if k == |desc| || Fits(desc, total, fMax, k) then k else AlphaMin(desc, total, fMax, k + 1)
  }

  ghost function Fraction(desc: seq<nat>, k: nat): real
    requires k <= |desc|
  {
    if k == |desc| then 1.0 else k as real / |desc| as real
  }

  method AlphaMinGlobal(desc: seq<nat>, total: nat, fMax: real) returns (r: Option<(real, nat)>)
    ensures r.None? <==> total == 0 && desc != []
    ensures total > 0 ==>
              r == Some((Fraction(desc, AlphaMin(desc, total, fMax, 0)), AlphaMin(desc, total, fMax, 0)))
    ensures desc == [] ==> r == Some((1.0, 0))
  {
    if total == 0 && desc != [] {
      return None;
    }
    var acc := 0;
    for k := 0 to |desc|
      invariant acc == Hot(desc, k)
      invariant total > 0 ==> AlphaMin(desc, total, fMax, 0) == AlphaMin(desc, total, fMax, k)
    {
      if (total - acc) as real / total as real <= fMax {
        return Some((k as real / |desc| as real, k));
      }
      acc := acc + desc[k];
      assert desc[..k + 1][..k] == desc[..k];
    }
    return Some((1.0, |desc|));
  }

  // ----- no other choice of cells does better -----

  ghost predicate Descending(s: seq<nat>) {
    forall i, j :: 0 <= i < j < |s| ==> s[i] >= s[j]
  }

  lemma {:induction false} TotalConcat(a: seq<nat>, b: seq<nat>)
    ensures Total(a + b) == Total(a) + Total(b)
  {
    if b == [] {
      assert a + b == a;
    } else {
      assert (a + b)[..|a + b| - 1] == a + b[..|b| - 1];
      TotalConcat(a, b[..|b| - 1]);
    }
  }

  function Drop(s: seq<nat>, i: nat): (r: seq<nat>)
    requires i < |s|
    ensures |r| == |s| - 1
  {
    s[..i] + s[i + 1..]
  }

  lemma CellsWithout(s: seq<nat>, i: nat)
    requires i < |s|
    ensures multiset(Drop(s, i)) == multiset(s) - multiset{s[i]}
  {
    assert s == s[..i] + [s[i]] + s[i + 1..];
  }

  lemma TotalWithout(s: seq<nat>, i: nat)
    requires i < |s|
    ensures Total(s) == Total(Drop(s, i)) + s[i]
  {
    hide Total;
    TotalStep(s, i);
    TotalCut(s, i + 1);
    TotalConcat(s[..i], s[i + 1..]);
  }

  lemma TotalStep(s: seq<nat>, i: nat)
    requires i < |s|
    ensures Total(s[..i + 1]) == Total(s[..i]) + s[i]
  {
    assert s[..i + 1][..i] == s[..i];
  }

  lemma TotalCut(s: seq<nat>, i: nat)
    requires i <= |s|
    ensures Total(s) == Total(s[..i]) + Total(s[i..])
  {
    assert s == s[..i] + s[i..];
    TotalConcat(s[..i], s[i..]);
  }

  /** Taking one occurrence of `x` out. */
  lemma TakeOut(s: seq<nat>, x: nat) returns (i: nat)
    requires x in multiset(s)
    ensures i < |s| && s[i] == x
    ensures multiset(Drop(s, i)) == multiset(s) - multiset{x}
    ensures Total(s) == Total(Drop(s, i)) + x
  {
    i :| 0 <= i < |s| && s[i] == x;
    CellsWithout(s, i);
    TotalWithout(s, i);
  }

  lemma TakeLast(s: seq<nat>)
    requires s != []
    ensures multiset(s[..|s| - 1]) == multiset(s) - multiset{s[|s| - 1]}
    ensures s[|s| - 1] in multiset(s)
  {
    CellsWithout(s, |s| - 1);
    assert Drop(s, |s| - 1) == s[..|s| - 1];
  }

  lemma {:induction false} TotalPermutation(a: seq<nat>, b: seq<nat>)
    requires multiset(a) == multiset(b)
    ensures Total(a) == Total(b)
  {
    assert |multiset(a)| == |a| && |multiset(b)| == |b|;
    if a == [] {
    } else {
      var n := |a| - 1;
      TakeLast(a);
      var i := TakeOut(b, a[n]);
      TotalPermutation(a[..n], Drop(b, i));
    }
  }

  /** `hot` and `cold` together are the cells of `cells`: any subset and its complement. */
  ghost predicate Splits(cells: seq<nat>, hot: seq<nat>, cold: seq<nat>) {
    multiset(hot) + multiset(cold) == multiset(cells)
  }

  lemma SplitSize(cells: seq<nat>, hot: seq<nat>, cold: seq<nat>)
    requires Splits(cells, hot, cold)
    ensures |hot| + |cold| == |cells|
  {
    assert |multiset(hot) + multiset(cold)| == |multiset(hot)| + |multiset(cold)|;
  }

  lemma SplitWithoutHot(cells: seq<nat>, hot: seq<nat>, cold: seq<nat>) returns (i: nat)
    requires cells != [] && Splits(cells, hot, cold)
    requires cells[|cells| - 1] !in multiset(cold)
    ensures i < |hot| && Splits(cells[..|cells| - 1], Drop(hot, i), cold)
    ensures Total(hot) == Total(Drop(hot, i)) + cells[|cells| - 1]
  {
    hide Drop, Total;
    TakeLast(cells);
    i := TakeOut(hot, cells[|cells| - 1]);
  }

  lemma SplitWithoutCold(cells: seq<nat>, hot: seq<nat>, cold: seq<nat>) returns (i: nat)
    requires cells != [] && Splits(cells, hot, cold)
    requires cells[|cells| - 1] in multiset(cold)
    ensures i < |cold| && Splits(cells[..|cells| - 1], hot, Drop(cold, i))
  {
    hide Drop, Total;
    TakeLast(cells);
    i := TakeOut(cold, cells[|cells| - 1]);
  }

  lemma HotPrefix(desc: seq<nat>, h: nat)
    requires h < |desc| && Descending(desc)
    ensures Descending(desc[..|desc| - 1])
    ensures Hot(desc[..|desc| - 1], h) == Hot(desc, h)
    ensures Hot(desc, h) + desc[|desc| - 1] <= Hot(desc, h + 1)
  {
    assert desc[..|desc| - 1][..h] == desc[..h] == desc[..h + 1][..h];
  }

  /** No choice of h cells carries more than the h busiest. */
  lemma {:induction false} BusiestCarryMost(desc: seq<nat>, hot: seq<nat>, cold: seq<nat>)
    requires Descending(desc) && Splits(desc, hot, cold)
    ensures |hot| <= |desc| && Total(hot) <= Hot(desc, |hot|)
    decreases |desc|
  {
    SplitSize(desc, hot, cold);
    if desc != [] {
      hide Total, Hot, Drop, Descending, Splits;
      if desc[|desc| - 1] in multiset(cold) {
        var i := SplitWithoutCold(desc, hot, cold);
        HotPrefix(desc, |hot|);
        BusiestCarryMost(desc[..|desc| - 1], hot, Drop(cold, i));
      } else {
        var i := SplitWithoutHot(desc, hot, cold);
        HotPrefix(desc, |hot| - 1);
        BusiestCarryMost(desc[..|desc| - 1], Drop(hot, i), cold);
      }
    } else {
      assert hot == [];
    }
  }

  ghost predicate MassFits(cold: seq<nat>, total: nat, fMax: real)
    requires total > 0
  {
    Total(cold) as real / total as real <= fMax
  }

  /** The k returned is the least number of hot cells with which the cold rest fits the budget,
      over every choice of hot cells. */
  lemma AlphaMinIsLeast(desc: seq<nat>, total: nat, fMax: real, hot: seq<nat>, cold: seq<nat>)
    requires Descending(desc) && total == Total(desc) > 0
    requires Splits(desc, hot, cold) && MassFits(cold, total, fMax)
    ensures AlphaMin(desc, total, fMax, 0) <= |hot|
  {
    BusiestCarryMost(desc, hot, cold);
    TotalPermutation(desc, hot + cold);
    TotalConcat(hot, cold);
    Ratio(total - Hot(desc, |hot|), Total(cold), total);
    assert Fits(desc, total, fMax, |hot|);
  }

  lemma Ratio(a: int, b: int, total: nat)
    requires total > 0
    ensures a <= b <==> a as real / total as real <= b as real / total as real
  {
  }

  /** The busiest k cells meet the budget exactly when it is not negative. */
  lemma AlphaMinFitsIffBudget(desc: seq<nat>, total: nat, fMax: real)
    requires total == Total(desc) > 0
    ensures var k := AlphaMin(desc, total, fMax, 0);
            Splits(desc, desc[..k], desc[k..]) && (MassFits(desc[k..], total, fMax) <==> fMax >= 0.0)
  {
    hide AlphaMin;
    var k := AlphaMin(desc, total, fMax, 0);
    assert desc == desc[..k] + desc[k..];
    TotalConcat(desc[..k], desc[k..]);
    if k == |desc| {
      assert desc[k..] == [];
    } else {
      assert Fits(desc, total, fMax, k);
    }
    assert Total(desc[k..]) as real / total as real >= 0.0;
  }

  /** A larger budget never needs more hot cells. */
  lemma AlphaMinMonotone(desc: seq<nat>, total: nat, f: real, g: real)
    requires total > 0 && f <= g
    ensures AlphaMin(desc, total, g, 0) <= AlphaMin(desc, total, f, 0)
  {
    var k := AlphaMin(desc, total, f, 0);
    if k < |desc| {
      assert Fits(desc, total, g, k);
    }
  }

  // ----- one budget per layer -----

  function InsertDesc(s: seq<nat>, x: nat): seq<nat> {
    if s == [] || x >= s[0] then [x] + s else [s[0]] + InsertDesc(s[1..], x)
  }

  /** `sorted(row, reverse=True)` */
  function SortDesc(s: seq<nat>): seq<nat> {
    if s == [] then [] else InsertDesc(SortDesc(s[1..]), s[0])
  }

  lemma {:induction false} InsertDescKeeps(s: seq<nat>, x: nat)
    ensures multiset(InsertDesc(s, x)) == multiset(s) + multiset{x}
  {
    if s == [] {
    } else {
      assert s == [s[0]] + s[1..];
      if x < s[0] {
        InsertDescKeeps(s[1..], x);
      }
    }
  }

  lemma {:induction false} InsertDescSorts(s: seq<nat>, x: nat)
    requires Descending(s)
    ensures Descending(InsertDesc(s, x))
    ensures InsertDesc(s, x) != [] && InsertDesc(s, x)[0] == if s == [] || x >= s[0] then x else s[0]
  {
    if s == [] || x >= s[0] {
    } else {
      InsertDescSorts(s[1..], x);
      var t := InsertDesc(s[1..], x);
      assert t[0] <= s[0];
      assert forall k :: 0 <= k < |t| ==> t[k] <= t[0];
    }
  }

  lemma {:induction false} SortDescSorts(s: seq<nat>)
    ensures Descending(SortDesc(s)) && multiset(SortDesc(s)) == multiset(s)
    ensures |SortDesc(s)| == |s| && Total(SortDesc(s)) == Total(s)
  {
    if s == [] {
    } else {
      SortDescSorts(s[1..]);
      InsertDescSorts(SortDesc(s[1..]), s[0]);
      InsertDescKeeps(SortDesc(s[1..]), s[0]);
      assert s == [s[0]] + s[1..];
    }
    assert |multiset(SortDesc(s))| == |SortDesc(s)| && |multiset(s)| == |s|;
    TotalPermutation(SortDesc(s), s);
  }

  /** Hot cells of one layer under the per-layer budget. */
  ghost function HotCells(row: seq<nat>, fMax: real): (k: nat)
    requires row == [] || Total(row) > 0
    ensures k <= |SortDesc(row)|
  {
    if row == [] then 0 else AlphaMin(SortDesc(row), Total(row), fMax, 0)
  }

  /** No layer is without load: otherwise the code divides by zero. */
  ghost predicate Loaded(counts: seq<seq<nat>>) {
    forall l :: 0 <= l < |counts| ==> counts[l] == [] || Total(counts[l]) > 0
  }

  method AlphaMinUniform(counts: seq<seq<nat>>, fMax: real) returns (r: Option<seq<real>>)
    ensures r.Some? <==> Loaded(counts)
    ensures r.Some? ==> |r.value| == |counts|
    ensures r.Some? ==> forall l :: 0 <= l < |counts| ==>
              r.value[l] == Fraction(SortDesc(counts[l]), HotCells(counts[l], fMax))
  {
    var out := [];
    for i := 0 to |counts|
      invariant |out| == i
      invariant forall l :: 0 <= l < i ==> LayerAt(counts[l], fMax, out[l])
    {
      var a := LayerAlpha(counts[i], fMax);
      if a.None? {
        return None;
      }
      out := out + [a.value];
    }
    return Some(out);
  }

  ghost predicate LayerAt(row: seq<nat>, fMax: real, a: real) {
    (row == [] || Total(row) > 0) && a == Fraction(SortDesc(row), HotCells(row, fMax))
  }

  /** One layer; None when it has cells but no load. */
  method LayerAlpha(row: seq<nat>, fMax: real) returns (r: Option<real>)
    ensures r.None? <==> row != [] && Total(row) == 0
    ensures r.Some? ==> LayerAt(row, fMax, r.value)
  {
    var desc := SortDesc(row);
    SortDescSorts(row);
    hide SortDesc, Total, AlphaMin, Descending;
    var a := AlphaMinGlobal(desc, Total(desc), fMax);
    return if a.None? then None else Some(a.value.0);
  }

  ghost function Flatten(counts: seq<seq<nat>>): seq<nat> {
    if counts == [] then [] else Flatten(counts[..|counts| - 1]) + counts[|counts| - 1]
  }

  ghost function HotSum(counts: seq<seq<nat>>, fMax: real): nat
    requires Loaded(counts)
  {
    if counts == [] then 0
    else HotSum(counts[..|counts| - 1], fMax) + HotCells(counts[|counts| - 1], fMax)
  }

  ghost predicate ColdWithin(cold: seq<nat>, cells: seq<nat>, fMax: real) {
    Total(cold) as real <= fMax * Total(cells) as real
  }

  /** The layers' hot cells, as one choice over all layers. */
  lemma {:induction false} LayerChoice(counts: seq<seq<nat>>, fMax: real)
    returns (hot: seq<nat>, cold: seq<nat>)
    requires Loaded(counts) && fMax >= 0.0
    ensures Splits(Flatten(counts), hot, cold) && |hot| == HotSum(counts, fMax)
    ensures ColdWithin(cold, Flatten(counts), fMax)
  {
    if counts == [] {
      hot, cold := [], [];
    } else {
      var n := |counts| - 1;
      var h, c := LayerChoice(counts[..n], fMax);
      hide HotCells, ColdWithin, SortDesc;
      RowChoice(counts[n], fMax);
      var k, desc := HotCells(counts[n], fMax), SortDesc(counts[n]);
      hot, cold := h + desc[..k], c + desc[k..];
      JoinCold(c, Flatten(counts[..n]), desc[k..], counts[n], fMax);
    }
  }

  lemma JoinCold(a: seq<nat>, s: seq<nat>, b: seq<nat>, t: seq<nat>, fMax: real)
    requires ColdWithin(a, s, fMax) && ColdWithin(b, t, fMax)
    ensures ColdWithin(a + b, s + t, fMax)
  {
    hide Total;
    TotalConcat(a, b);
    TotalConcat(s, t);
    AddBudgets(fMax, Total(a) as real, Total(s) as real, Total(b) as real, Total(t) as real);
  }

  lemma AddBudgets(f: real, a: real, s: real, b: real, t: real)
    requires a <= f * s && b <= f * t
    ensures a + b <= f * (s + t)
  {
  }

  lemma RowChoice(row: seq<nat>, fMax: real)
    requires row == [] || Total(row) > 0
    requires fMax >= 0.0
    ensures var k, desc := HotCells(row, fMax), SortDesc(row);
            Splits(row, desc[..k], desc[k..]) && ColdWithin(desc[k..], row, fMax)
  {
    SortDescSorts(row);
    if row == [] {
      assert SortDesc(row) == [];
    } else {
      hide SortDesc, Descending, MassFits, AlphaMin;
      AlphaMinFitsIffBudget(SortDesc(row), Total(row), fMax);
      FromMassFits(SortDesc(row)[HotCells(row, fMax)..], row, fMax);
    }
  }

  lemma FromMassFits(cold: seq<nat>, cells: seq<nat>, fMax: real)
    requires Total(cells) > 0
    ensures MassFits(cold, Total(cells), fMax) <==> ColdWithin(cold, cells, fMax)
  {
    FromRatio(Total(cold), Total(cells), fMax);
  }

  lemma FromRatio(a: nat, t: nat, f: real)
    requires t > 0
    ensures a as real / t as real <= f <==> a as real <= f * t as real
  {
    var q, tt := a as real / t as real, t as real;
    assert q * tt == a as real;
    assert (f - q) * tt == f * tt - a as real;
    if f >= q {
      assert (f - q) * tt >= 0.0;
    } else {
      assert (q - f) * tt > 0.0;
    }
  }

  lemma {:induction false} NegativeBudgetKeepsAll(counts: seq<seq<nat>>, fMax: real)
    requires Loaded(counts) && fMax < 0.0
    ensures HotSum(counts, fMax) == |Flatten(counts)|
  {
    if counts == [] {
    } else {
      var n := |counts| - 1;
      NegativeBudgetKeepsAll(counts[..n], fMax);
      if counts[n] != [] {
        SortDescSorts(counts[n]);
        AllHot(SortDesc(counts[n]), fMax);
      }
    }
  }

  lemma AllHot(desc: seq<nat>, fMax: real)
    requires Total(desc) > 0 && fMax < 0.0
    ensures AlphaMin(desc, Total(desc), fMax, 0) == |desc|
  {
    AlphaMinFitsIffBudget(desc, Total(desc), fMax);
    var k := AlphaMin(desc, Total(desc), fMax, 0);
    TotalConcat(desc[..k], desc[k..]);
    assert desc == desc[..k] + desc[k..];
  }

  /** The uniform allocation never keeps fewer cells than the global one. */
  lemma UniformNeverBeatsGlobal(counts: seq<seq<nat>>, fMax: real)
    requires Loaded(counts) && Total(Flatten(counts)) > 0
    ensures AlphaMin(SortDesc(Flatten(counts)), Total(Flatten(counts)), fMax, 0) <= HotSum(counts, fMax)
  {
    hide SortDesc, Descending, MassFits, ColdWithin, AlphaMin, HotSum;
    var cells := Flatten(counts);
    SortDescSorts(cells);
    if fMax < 0.0 {
      NegativeBudgetKeepsAll(counts, fMax);
    } else {
      var hot, cold := LayerChoice(counts, fMax);
      FromMassFits(cold, cells, fMax);
      AlphaMinIsLeast(SortDesc(cells), Total(cells), fMax, hot, cold);
    }
  }

  // ----- the budget that meets a target -----

  ghost function Alpha(desc: seq<nat>, total: nat, visits: nat, budget: real): real
    requires total > 0 && visits > 0
  {
    Fraction(desc, AlphaMin(desc, total, budget / visits as real, 0))
  }

  /** The fraction is the share of the cells; without cells it is 1. */
  lemma FractionIsShare(desc: seq<nat>, k: nat)
    requires k <= |desc|
    ensures desc != [] ==> Fraction(desc, k) * |desc| as real == k as real
    ensures desc == [] ==> Fraction(desc, k) == 1.0
  {
  }

  /** The cold part of `visits` routed visits, spread as the mass is, stays within the budget. */
  ghost predicate WithinBudget(cold: seq<nat>, total: nat, visits: nat, budget: real) {
    Total(cold) as real * visits as real <= budget * total as real
  }

  lemma BudgetPerVisit(a: nat, total: nat, visits: nat, budget: real)
    requires total > 0 && visits > 0
    ensures a as real / total as real <= budget / visits as real <==>
            a as real * visits as real <= budget * total as real
  {
    var x, y, t, v := a as real / total as real, budget / visits as real, total as real, visits as real;
    assert x * t == a as real && y * v == budget;
    BothSides(x, y, t);
    BothSides(x * t, y * t, v);
    assert y * t * v == y * v * t;
  }

  lemma BothSides(x: real, y: real, k: real)
    requires k > 0.0
    ensures x <= y <==> x * k <= y * k
  {
    assert k * (y - x) == y * k - x * k;
    Positive(k, y - x);
    if x <= y {
      assert k * (y - x) >= 0.0;
    }
  }

  /** The fraction at a budget is the least share of cells that keeps the misses of all visits within it: no choice
      of hot cells within the budget is smaller, and with a budget that is not negative there is one of that size. */
  lemma AlphaIsLeastShare(desc: seq<nat>, visits: nat, budget: real, hot: seq<nat>, cold: seq<nat>)
    returns (k: nat)
    requires Descending(desc) && Total(desc) > 0 && visits > 0
    requires Splits(desc, hot, cold) && WithinBudget(cold, Total(desc), visits, budget)
    ensures k <= |hot| && k <= |desc| && Alpha(desc, Total(desc), visits, budget) * |desc| as real == k as real
    ensures budget >= 0.0 ==> Splits(desc, desc[..k], desc[k..]) && WithinBudget(desc[k..], Total(desc), visits, budget)
  {
    hide Descending, Total, AlphaMin, Splits, Fraction;
    var total, f := Total(desc), budget / visits as real;
    k := AlphaMin(desc, total, f, 0);
    NoCellsNoLoad(desc);
    FractionIsShare(desc, k);
    BudgetPerVisit(Total(cold), total, visits, budget);
    AlphaMinIsLeast(desc, total, f, hot, cold);
    AlphaMinFitsIffBudget(desc, total, f);
    BudgetPerVisit(Total(desc[k..]), total, visits, budget);
    if budget >= 0.0 {
      BudgetSign(budget, visits);
    }
  }

  lemma NoCellsNoLoad(desc: seq<nat>)
    ensures Total(desc) > 0 ==> desc != []
  {
  }

  lemma BudgetSign(budget: real, visits: nat)
    requires visits > 0 && budget >= 0.0
    ensures budget / visits as real >= 0.0
  {
  }

  lemma AlphaAntitone(desc: seq<nat>, total: nat, visits: nat, a: real, b: real)
    requires total > 0 && visits > 0 && a <= b
    ensures Alpha(desc, total, visits, b) <= Alpha(desc, total, visits, a)
  {
    assert a / visits as real <= b / visits as real;
    AlphaMinMonotone(desc, total, a / visits as real, b / visits as real);
    FractionMonotone(desc, AlphaMin(desc, total, b / visits as real, 0), AlphaMin(desc, total, a / visits as real, 0));
  }

  lemma FractionMonotone(desc: seq<nat>, j: nat, k: nat)
    requires j <= k <= |desc|
    ensures Fraction(desc, j) <= Fraction(desc, k)
  {
    if j < |desc| {
      var n := |desc| as real;
      SharesOrder(j as real, k as real, n);
      SharesOrder(j as real, n, n);
      WholeShare(n);
    }
  }

  lemma SharesOrder(j: real, k: real, n: real)
    requires j <= k && n > 0.0
    ensures j / n <= k / n
  {
    var a, b := j / n, k / n;
    assert a * n == j && b * n == k;
    assert n * (b - a) == k - j;
    Positive(n, b - a);
  }

  lemma WholeShare(n: real)
    requires n > 0.0
    ensures n / n == 1.0
  {
    var q := n / n;
    assert q * n == n;
    assert n * (q - 1.0) == 0.0 == n * (1.0 - q);
    Positive(n, q - 1.0);
    Positive(n, 1.0 - q);
  }

  /** The bracket after `i` halvings of [0.001, 100]. */
  ghost function Width(i: nat): (w: real)
    ensures w > 0.0
  {
    if i == 0 then 99.999 else Width(i - 1) / 2.0
  }

  /** Bisection brackets the threshold to 99.999 / 2^200, on either side of the interval too. */
  method BisectBudget(desc: seq<nat>, total: nat, k: nat, nLayers: nat, target: real) returns (r: Option<real>)
    ensures r.None? <==> k * nLayers == 0 || (total == 0 && desc != [])
    ensures r.Some? && total > 0 ==>
              var hi, visits := r.value, k * nLayers;
              && 0.001 < hi <= 100.0
              && (Alpha(desc, total, visits, 100.0) <= target ==> Alpha(desc, total, visits, hi) <= target)
              && (Alpha(desc, total, visits, 100.0) > target ==> hi == 100.0)
              && (Alpha(desc, total, visits, 0.001) > target ==>
                    forall b :: b <= hi - Width(200) ==> Alpha(desc, total, visits, b) > target)
              && (Alpha(desc, total, visits, 0.001) <= target ==> hi == 0.001 + Width(200))
    ensures r.Some? && desc == [] ==> r.value == if target < 1.0 then 100.0 else 0.001 + Width(200)
  {
    if k * nLayers == 0 || (total == 0 && desc != []) {
      return None;
    }
    var visits := k * nLayers;
    var lo, hi := 0.001, 100.0;
    for i := 0 to 200
      invariant 0.001 <= lo && hi <= 100.0 && hi - lo == Width(i)
      invariant total > 0 ==> (hi < 100.0 ==> Alpha(desc, total, visits, hi) <= target)
      invariant total > 0 ==> (lo > 0.001 ==> Alpha(desc, total, visits, lo) > target)
      invariant desc == [] ==> if target < 1.0 then hi == 100.0 else lo == 0.001
    {
      var mid := (lo + hi) / 2.0;
      var a := AlphaMinGlobal(desc, total, mid / visits as real);
      if a.value.0 > target {
        lo := mid;
      } else {
        hi := mid;
      }
    }
    if total > 0 {
      AlphaAntitone(desc, total, visits, hi, 100.0);
      AlphaAntitone(desc, total, visits, 0.001, lo);
      forall b | b <= lo ensures Alpha(desc, total, visits, b) >= Alpha(desc, total, visits, lo) {
        AlphaAntitone(desc, total, visits, b, lo);
      }
    }
    return Some(hi);
  }
}
