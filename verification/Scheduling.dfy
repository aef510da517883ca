/** Rows over CTAs and warps (ops/pers_4e_model.py, ops/pers_4e_insitu.py): contiguous row
    slices per CTA, then either a dynamic claim of each row by the first free warp or a static
    stride. The dynamic claim is held against every possible assignment of rows to warps. */
module Scheduling {
  import opened Division
  import opened RealSeq

  const WARPS: nat := 16
  const GRID: nat := 142

  // ----- contiguous slices -----

  /** Where slice `c` of `g` begins. */
  function Bound(n: nat, g: nat, c: nat): nat
    requires g > 0
  {
    n * c / g
  }

  function Slices(n: nat, g: nat): seq<(nat, nat)>
    requires g > 0
  {
    seq(g, c requires 0 <= c < g => (Bound(n, g, c), Bound(n, g, c + 1)))
  }

  /** Adding `n` to a numerator moves the quotient by n/g rounded down or up. */
  lemma QuotientStep(a: nat, n: nat, g: nat)
    requires g > 0
    ensures a / g + n / g <= (a + n) / g <= a / g + n / g + if n % g == 0 then 0 else 1
  {
    var r := a % g + n % g;
    assert a + n == g * (a / g) + a % g + g * (n / g) + n % g;
    assert g * (a / g + n / g) == g * (a / g) + g * (n / g);
    if r < g {
      DivUnique(g, a / g + n / g, r);
    } else {
      assert g * (a / g + n / g + 1) == g * (a / g + n / g) + g;
      DivUnique(g, a / g + n / g + 1, r - g);
    }
  }

  lemma BoundStep(n: nat, g: nat, c: nat)
    requires g > 0
    ensures Bound(n, g, 0) == 0 && Bound(n, g, g) == n
    ensures Bound(n, g, c) + n / g <= Bound(n, g, c + 1)
    ensures Bound(n, g, c + 1) <= Bound(n, g, c) + n / g + if n % g == 0 then 0 else 1
  {
    assert n * 0 == 0 == g * 0;
    assert n * g == g * n;
    DivUnique(g, 0, 0);
    DivUnique(g, n, 0);
    assert n * (c + 1) == n * c + n;
    QuotientStep(n * c, n, g);
  }

  /** The last slice takes the rounding: it has ceil(n / g) rows. */
  lemma LastSlice(n: nat, g: nat)
    requires g > 0
    ensures Bound(n, g, g) - Bound(n, g, g - 1) == CeilDiv(n, g)
  {
    BoundStep(n, g, g - 1);
    var q, r := n / g, n % g;
    if r == 0 {
      AllButOne(n, g, q, 0);
      DivUnique(g, n - q, 0);
    } else {
      AllButOne(n, g, q, r);
      DivUnique(g, n - q - 1, g - r);
    }
  }

  lemma AllButOne(n: nat, g: nat, q: nat, r: nat)
    requires n == g * q + r && g > 0
    ensures n * (g - 1) == g * (n - q) - r
    ensures n * (g - 1) == g * (n - q - 1) + (g - r)
  {
    assert n * (g - 1) == n * g - n;
  }

  /** Each bound is n c / g rounded down. */
  lemma BoundRoundsDown(n: nat, g: nat, c: nat)
    requires g > 0
    ensures g * Bound(n, g, c) <= n * c < g * Bound(n, g, c) + g
  {
  }

  /** The slices cover [0, n) in order without gap or overlap, and differ in size by at most one. */
  lemma SlicesTile(n: nat, g: nat)
    requires g > 0
    ensures Slices(n, g)[0].0 == 0 && Slices(n, g)[g - 1].1 == n
    ensures forall c :: 0 <= c < g - 1 ==> Slices(n, g)[c].1 == Slices(n, g)[c + 1].0
    ensures forall c :: 0 <= c < g ==>
              n / g <= Slices(n, g)[c].1 - Slices(n, g)[c].0 <= CeilDiv(n, g)
  {
    hide Bound;
    BoundStep(n, g, 0);
    forall c | 0 <= c < g
      ensures n / g <= Slices(n, g)[c].1 - Slices(n, g)[c].0 <= CeilDiv(n, g)
    {
      BoundStep(n, g, c);
    }
  }

  /** n / d rounded up. */
  function CeilDiv(n: nat, d: nat): nat
    requires d > 0
  {
    if n % d == 0 then n / d else n / d + 1
  }

  // ----- sixteen warps claiming rows in order -----

  /** The heap of the times at which the warps are free, kept as an ascending list. */
  function Idle(): (s: seq<real>)
    ensures |s| == WARPS && Sorted(s)
  {
    seq(WARPS, _ => 0.0)
  }

  /** The first free warp takes a row of cost `c`. */
  function Claim(free: seq<real>, c: real): (r: seq<real>)
    requires free != []
    ensures |r| == |free|
  {
    Insert(free[1..], free[0] + c)
  }

  function Claims(costs: seq<real>): (free: seq<real>)
    ensures |free| == WARPS
  {
    if costs == [] then Idle() else Claim(Claims(costs[..|costs| - 1]), costs[|costs| - 1])
  }

  function End(costs: seq<real>): real {
    Max(Claims(costs))
  }

  method Makespan(costs: seq<real>) returns (end: real)
    ensures end == End(costs)
  {
    var free := Idle();
    for i := 0 to |costs|
      invariant free == Claims(costs[..i])
    {
      free := Claim(free, costs[i]);
      assert costs[..i + 1][..i] == costs[..i];
    }
    assert costs[..|costs|] == costs;
    end := Max(free);
  }

  lemma ClaimStep(free: seq<real>, c: real)
    requires free != [] && Sorted(free)
    ensures Sorted(Claim(free, c))
    ensures Sum(Claim(free, c)) == Sum(free) + c
  {
    hide Insert, Sum;
    InsertSorted(free[1..], free[0] + c);
    InsertKeepsEntries(free[1..], free[0] + c);
    assert free == [free[0]] + free[1..];
    SumCons(free[0], free[1..]);
  }

  lemma {:induction false} ClaimsSorted(costs: seq<real>)
    ensures Sorted(Claims(costs))
    ensures Sum(Claims(costs)) == Sum(costs)
  {
    hide Claim, Sorted;
    if costs == [] {
      SumAtMost(Idle(), 0.0);
      SumAtLeast(Idle(), 0.0);
    } else {
      ClaimsSorted(costs[..|costs| - 1]);
      ClaimStep(Claims(costs[..|costs| - 1]), costs[|costs| - 1]);
    }
  }

  /** The first free warp is never later than the even share of what has been claimed. */
  lemma FirstFree(costs: seq<real>)
    ensures Claims(costs)[0] <= Sum(costs) / 16.0
  {
    ClaimsSorted(costs);
    SumAtLeast(Claims(costs), Claims(costs)[0]);
  }

  lemma ClaimEntries(free: seq<real>, c: real, x: real)
    requires free != [] && x in Claim(free, c)
    ensures x in free || x == free[0] + c
  {
    InsertKeepsEntries(free[1..], free[0] + c);
    assert x in multiset(Claim(free, c));
    assert x in multiset(free[1..]) || x == free[0] + c;
  }

  /** The end is at most the even share plus 15/16 of the costliest row. */
  lemma {:induction false} GreedyBound(costs: seq<real>, most: real)
    requires NonNegative(costs) && most >= 0.0
    requires forall k :: 0 <= k < |costs| ==> costs[k] <= most
    ensures End(costs) <= Sum(costs) / 16.0 + 15.0 * most / 16.0
  {
    if costs == [] {
    } else {
      var before, c := costs[..|costs| - 1], costs[|costs| - 1];
      GreedyBound(before, most);
      FirstFree(before);
      ClaimEntries(Claims(before), c, End(costs));
    }
  }

  // ----- every possible assignment -----

  /** What warp `w` runs when row k goes to warp assign[k]. */
  ghost function Load(costs: seq<real>, assign: seq<nat>, w: nat): real
    requires |assign| == |costs|
  {
    if costs == [] then 0.0
    else Load(costs[..|costs| - 1], assign[..|assign| - 1], w) +
         if assign[|assign| - 1] == w then costs[|costs| - 1] else 0.0
  }

  ghost predicate IsAssignment(costs: seq<real>, assign: seq<nat>) {
    |assign| == |costs| && forall k :: 0 <= k < |assign| ==> assign[k] < WARPS
  }

  ghost function Loads(costs: seq<real>, assign: seq<nat>): (loads: seq<real>)
    requires IsAssignment(costs, assign)
    ensures |loads| == WARPS
  {
    seq(WARPS, w requires 0 <= w < WARPS => Load(costs, assign, w))
  }

  ghost function AssignedEnd(costs: seq<real>, assign: seq<nat>): real
    requires IsAssignment(costs, assign)
  {
    Max(Loads(costs, assign))
  }

  lemma LoadsStep(costs: seq<real>, assign: seq<nat>)
    requires IsAssignment(costs, assign) && costs != []
    ensures IsAssignment(costs[..|costs| - 1], assign[..|costs| - 1])
    ensures var before := Loads(costs[..|costs| - 1], assign[..|costs| - 1]);
            var w := assign[|costs| - 1];
            Loads(costs, assign) == before[w := before[w] + costs[|costs| - 1]]
  {
  }

  lemma {:induction false} LoadsCarryAll(costs: seq<real>, assign: seq<nat>)
    requires IsAssignment(costs, assign)
    ensures Sum(Loads(costs, assign)) == Sum(costs)
  {
    if costs == [] {
      SumAtMost(Loads(costs, assign), 0.0);
      SumAtLeast(Loads(costs, assign), 0.0);
    } else {
      var n := |costs| - 1;
      LoadsStep(costs, assign);
      LoadsCarryAll(costs[..n], assign[..n]);
      var before := Loads(costs[..n], assign[..n]);
      SumUpdate(before, assign[n], before[assign[n]] + costs[n]);
    }
  }

  lemma {:induction false} LoadCoversRow(costs: seq<real>, assign: seq<nat>, w: nat, k: nat)
    requires IsAssignment(costs, assign) && NonNegative(costs) && k < |costs|
    ensures Load(costs, assign, w) >= 0.0
    ensures assign[k] == w ==> costs[k] <= Load(costs, assign, w)
  {
    var n := |costs| - 1;
    if n == 0 {
    } else {
      LoadCoversRow(costs[..n], assign[..n], w, if k < n then k else 0);
    }
  }

  /** No assignment ends before the even share, nor before its costliest row. */
  lemma AssignmentFloor(costs: seq<real>, assign: seq<nat>)
    requires IsAssignment(costs, assign) && NonNegative(costs)
    ensures Sum(costs) / 16.0 <= AssignedEnd(costs, assign)
    ensures forall k :: 0 <= k < |costs| ==> costs[k] <= AssignedEnd(costs, assign)
    ensures AssignedEnd(costs, assign) >= 0.0
  {
    var loads := Loads(costs, assign);
    LoadsCarryAll(costs, assign);
    SumAtMost(loads, Max(loads));
    SumNonNegative(costs);
    forall k | 0 <= k < |costs| ensures costs[k] <= Max(loads) {
      LoadCoversRow(costs, assign, assign[k], k);
      assert costs[k] <= loads[assign[k]];
    }
  }

  /** Graham's bound: the claim in order is within 2 - 1/16 of every assignment of the rows. */
  lemma GreedyWithinGraham(costs: seq<real>, assign: seq<nat>)
    requires IsAssignment(costs, assign) && NonNegative(costs)
    ensures End(costs) <= (2.0 - 1.0 / 16.0) * AssignedEnd(costs, assign)
  {
    AssignmentFloor(costs, assign);
    GreedyBound(costs, AssignedEnd(costs, assign));
  }

  // ----- the claim in order, stated on assignments -----

  /** When row k is claimed, no warp is free before the one that takes it. */
  ghost predicate TakenFirst(costs: seq<real>, assign: seq<nat>, k: nat)
    requires |assign| == |costs| && k < |costs|
  {
    forall w: nat :: w < WARPS ==>
      Load(costs[..k], assign[..k], assign[k]) <= Load(costs[..k], assign[..k], w)
  }

  /** Rows are claimed in order, each by a warp that is free first. */
  ghost predicate IsListSchedule(costs: seq<real>, assign: seq<nat>) {
    IsAssignment(costs, assign) && forall k :: 0 <= k < |costs| ==> TakenFirst(costs, assign, k)
  }

  lemma ListSchedulePrefix(costs: seq<real>, assign: seq<nat>)
    requires IsListSchedule(costs, assign) && costs != []
    ensures IsListSchedule(costs[..|costs| - 1], assign[..|costs| - 1])
    ensures TakenFirst(costs, assign, |costs| - 1)
  {
    hide Load;
    var n := |costs| - 1;
    forall k | 0 <= k < n ensures TakenFirst(costs[..n], assign[..n], k) {
      assert TakenFirst(costs, assign, k);
      assert costs[..n][..k] == costs[..k] && assign[..n][..k] == assign[..k];
    }
  }

  lemma ListScheduleSnoc(costs: seq<real>, assign: seq<nat>)
    requires costs != [] && IsAssignment(costs, assign)
    requires IsListSchedule(costs[..|costs| - 1], assign[..|costs| - 1]) && TakenFirst(costs, assign, |costs| - 1)
    ensures IsListSchedule(costs, assign)
  {
    hide Load;
    var n := |costs| - 1;
    forall k | 0 <= k < n ensures TakenFirst(costs, assign, k) {
      assert TakenFirst(costs[..n], assign[..n], k);
      assert costs[..n][..k] == costs[..k] && assign[..n][..k] == assign[..k];
    }
  }

  /** A warp that is free first is free when the heap says so. */
  lemma FreeFirstIsHead(loads: seq<real>, free: seq<real>, w: nat)
    requires free != [] && Sorted(free) && multiset(loads) == multiset(free) && w < |loads|
    requires forall v :: 0 <= v < |loads| ==> loads[w] <= loads[v]
    ensures loads[w] == free[0]
  {
    assert loads[w] in multiset(free) && free[0] in multiset(loads);
    assert loads[w] in free && free[0] in loads;
  }

  lemma TakenIsLeast(costs: seq<real>, assign: seq<nat>, k: nat)
    requires IsAssignment(costs, assign) && k < |costs|
    ensures IsAssignment(costs[..k], assign[..k])
    ensures var loads := Loads(costs[..k], assign[..k]);
            TakenFirst(costs, assign, k) <==> forall v :: 0 <= v < |loads| ==> loads[assign[k]] <= loads[v]
  {
    hide Load;
    var loads := Loads(costs[..k], assign[..k]);
    if forall v :: 0 <= v < |loads| ==> loads[assign[k]] <= loads[v] {
      forall w: nat | w < WARPS
        ensures Load(costs[..k], assign[..k], assign[k]) <= Load(costs[..k], assign[..k], w)
      {
        assert loads[assign[k]] <= loads[w];
      }
    }
  }

  lemma ListScheduleStep(costs: seq<real>, assign: seq<nat>)
    requires IsAssignment(costs, assign) && costs != [] && TakenFirst(costs, assign, |costs| - 1)
    requires IsAssignment(costs[..|costs| - 1], assign[..|costs| - 1])
    requires multiset(Loads(costs[..|costs| - 1], assign[..|costs| - 1])) == multiset(Claims(costs[..|costs| - 1]))
    ensures multiset(Loads(costs, assign)) == multiset(Claims(costs))
  {
    hide Claim, Claims, Insert, Sorted, Load, Loads, TakenFirst;
    var n := |costs| - 1;
    var loads, free := Loads(costs[..n], assign[..n]), Claims(costs[..n]);
    ClaimsSorted(costs[..n]);
    TakenIsLeast(costs, assign, n);
    FreeFirstIsHead(loads, free, assign[n]);
    LoadsStep(costs, assign);
    ClaimIsUpdate(loads, free, assign[n], costs[n]);
    ClaimsSnoc(costs);
  }

  /** However ties are broken, the loads of a list schedule are the times in the heap. */
  lemma {:induction false} ListScheduleLoads(costs: seq<real>, assign: seq<nat>)
    requires IsListSchedule(costs, assign)
    ensures multiset(Loads(costs, assign)) == multiset(Claims(costs))
  {
    hide TakenFirst;
    if costs == [] {
      NothingClaimed(assign);
    } else {
      hide Loads, Claims;
      ListSchedulePrefix(costs, assign);
      ListScheduleLoads(costs[..|costs| - 1], assign[..|costs| - 1]);
      ListScheduleStep(costs, assign);
    }
  }

  lemma NothingClaimed(assign: seq<nat>)
    requires IsAssignment([], assign)
    ensures Loads([], assign) == Claims([])
  {
  }

  lemma ClaimsSnoc(costs: seq<real>)
    requires costs != []
    ensures Claims(costs) == Claim(Claims(costs[..|costs| - 1]), costs[|costs| - 1])
  {
  }

  /** Every list schedule ends when the loop says: the order of the rows counts, the choice of warps does not. */
  lemma MakespanIsListSchedule(costs: seq<real>, assign: seq<nat>)
    requires IsListSchedule(costs, assign)
    ensures AssignedEnd(costs, assign) == End(costs)
  {
    ListScheduleLoads(costs, assign);
    hide Loads, Claims, Max;
    SameMax(Loads(costs, assign), Claims(costs));
  }

  /** And there is a list schedule: the claim in order is itself an assignment. */
  lemma {:induction false} GreedyAssigns(costs: seq<real>) returns (assign: seq<nat>)
    ensures IsListSchedule(costs, assign)
    ensures multiset(Loads(costs, assign)) == multiset(Claims(costs))
    ensures AssignedEnd(costs, assign) == End(costs)
  {
    if costs == [] {
      assign := [];
    } else {
      var n := |costs| - 1;
      var before := GreedyAssigns(costs[..n]);
      var w := LeastLoaded(Loads(costs[..n], before));
      assign := before + [w];
      assert assign[..n] == before;
      hide Load, TakenFirst, Loads;
      TakenIsLeast(costs, assign, n);
      ListScheduleSnoc(costs, assign);
    }
    ListScheduleLoads(costs, assign);
    MakespanIsListSchedule(costs, assign);
  }

  lemma {:induction false} LeastLoaded(loads: seq<real>) returns (w: nat)
    requires loads != []
    ensures w < |loads| && forall v :: 0 <= v < |loads| ==> loads[w] <= loads[v]
  {
    var n := |loads| - 1;
    if n == 0 {
      w := 0;
    } else {
      w := LeastLoaded(loads[..n]);
      assert forall v :: 0 <= v < n ==> loads[w] <= loads[..n][v];
      if loads[n] < loads[w] {
        w := n;
      }
    }
  }

  lemma ClaimIsUpdate(loads: seq<real>, free: seq<real>, w: nat, c: real)
    requires free != [] && multiset(loads) == multiset(free) && w < |loads| && loads[w] == free[0]
    ensures multiset(loads[w := loads[w] + c]) == multiset(Claim(free, c))
  {
    hide Insert, Sum;
    InsertKeepsEntries(free[1..], free[0] + c);
    HeadOut(free);
    EntriesUpdated(loads, w, loads[w] + c);
  }

  lemma HeadOut(s: seq<real>)
    requires s != []
    ensures multiset(s[1..]) == multiset(s) - multiset{s[0]}
  {
    EntriesWithout(s, 0);
    assert s[..0] + s[1..] == s[1..];
  }

  lemma SameMax(a: seq<real>, b: seq<real>)
    requires a != [] && b != [] && multiset(a) == multiset(b)
    ensures Max(a) == Max(b)
  {
    assert Max(a) in multiset(b) && Max(b) in multiset(a);
  }

  // ----- the static stride -----

  /** Rows of [lo, hi) that warp `w` runs when warps stride by WARPS; the source's -(-x // 16). */
  function WarpRows(lo: int, hi: int, w: nat): int {
    if hi > lo + w then -((-(hi - lo - w)) / WARPS) else 0
  }

  ghost predicate RunBy(lo: int, r: int, w: nat) {
    (r - lo) % WARPS == w
  }

  ghost function StrideRows(lo: int, hi: int, w: nat): set<int> {
    set r | lo <= r < hi && RunBy(lo, r, w)
  }

  lemma WarpRowsStep(lo: int, hi: int, w: nat)
    requires lo <= hi && w < WARPS
    ensures WarpRows(lo, hi + 1, w) == WarpRows(lo, hi, w) + if (hi - lo) % WARPS == w then 1 else 0
  {
  }

  /** `WarpRows` counts the rows whose offset in the slice is w modulo 16. */
  lemma {:induction false} WarpRowsCounts(lo: int, hi: int, w: nat)
    requires lo <= hi && w < WARPS
    ensures |StrideRows(lo, hi, w)| == WarpRows(lo, hi, w)
    decreases hi - lo
  {
    if lo == hi {
      assert StrideRows(lo, hi, w) == {};
    } else {
      WarpRowsCounts(lo, hi - 1, w);
      WarpRowsStep(lo, hi - 1, w);
      assert StrideRows(lo, hi, w) ==
             StrideRows(lo, hi - 1, w) + if RunBy(lo, hi - 1, w) then {hi - 1} else {};
    }
  }

  function RowsOfWarps(lo: int, hi: int): (s: seq<real>)
    ensures |s| == WARPS
  {
    seq(WARPS, w requires 0 <= w < WARPS => WarpRows(lo, hi, w) as real)
  }

  lemma RowsStep(lo: int, hi: int)
    requires lo <= hi
    ensures var before, v := RowsOfWarps(lo, hi), (hi - lo) % WARPS;
            RowsOfWarps(lo, hi + 1) == before[v := before[v] + 1.0]
  {
    hide WarpRows;
    var before, v := RowsOfWarps(lo, hi), (hi - lo) % WARPS;
    forall w: nat | w < WARPS
      ensures WarpRows(lo, hi + 1, w) == WarpRows(lo, hi, w) + if v == w then 1 else 0
    {
      WarpRowsStep(lo, hi, w);
    }
  }

  /** Every row of the slice runs on exactly one warp. */
  lemma {:induction false} StrideSharesRows(lo: int, hi: int)
    requires lo <= hi
    ensures Sum(RowsOfWarps(lo, hi)) == (hi - lo) as real
    decreases hi - lo
  {
    if lo == hi {
      SumAtMost(RowsOfWarps(lo, hi), 0.0);
      SumAtLeast(RowsOfWarps(lo, hi), 0.0);
    } else {
      hide RowsOfWarps, Sum;
      StrideSharesRows(lo, hi - 1);
      RowsStep(lo, hi - 1);
      var before, v := RowsOfWarps(lo, hi - 1), (hi - 1 - lo) % WARPS;
      SumUpdate(before, v, before[v] + 1.0);
    }
  }

  lemma FirstWarpBusiest(lo: int, hi: int, w: nat)
    requires lo <= hi
    ensures WarpRows(lo, hi, w) <= WarpRows(lo, hi, 0) == CeilDiv(hi - lo, WARPS)
  {
  }

  /** The first warp is the busiest, with ceil(rows / 16). */
  lemma BusiestWarp(lo: int, hi: int)
    requires lo <= hi
    ensures Max(RowsOfWarps(lo, hi)) == CeilDiv(hi - lo, WARPS) as real
  {
    hide WarpRows, CeilDiv, Max;
    var rows := RowsOfWarps(lo, hi);
    forall w: nat | w < WARPS ensures rows[w] <= rows[0] == CeilDiv(hi - lo, WARPS) as real {
      FirstWarpBusiest(lo, hi, w);
    }
  }

  // ----- equal rows: the dynamic claim and the static stride end together -----

  function Levels(a: real, i: nat, b: real, j: nat): seq<real> {
    seq(i, _ => a) + seq(j, _ => b)
  }

  lemma {:induction false} InsertLevel(a: real, i: nat, b: real, j: nat)
    requires a <= b
    ensures Insert(Levels(a, i, b, j), b) == Levels(a, i, b, j + 1)
  {
    var s := Levels(a, i, b, j);
    if i == 0 {
      assert [b] + s == Levels(a, i, b, j + 1);
    } else {
      assert s[1..] == Levels(a, i - 1, b, j);
      InsertLevel(a, i - 1, b, j);
      assert s[0] == a;
      if b <= a {
        assert [b] + s == Levels(a, i, b, j + 1);
      } else {
        assert [a] + Levels(a, i - 1, b, j + 1) == Levels(a, i, b, j + 1);
      }
    }
  }

  function Equal(cost: real, n: nat): seq<real> {
    seq(n, _ => cost)
  }

  lemma ClaimLevel(a: real, i: nat, b: real, j: nat)
    requires a <= b && i > 0
    ensures Claim(Levels(a, i, b, j), b - a) == Levels(a, i - 1, b, j + 1)
  {
    assert Levels(a, i, b, j)[0] == a;
    assert Levels(a, i, b, j)[1..] == Levels(a, i - 1, b, j);
    InsertLevel(a, i - 1, b, j);
  }

  /** The loads when every warp has run for `a` and r warps for one row more. */
  function EqualLevels(a: real, cost: real, r: nat): seq<real>
    requires r <= WARPS
  {
    Levels(a, WARPS - r, a + cost, r)
  }

  lemma EqualLevelsStep(a: real, cost: real, r: nat)
    requires cost >= 0.0 && r < WARPS
    ensures Claim(EqualLevels(a, cost, r), cost) ==
            if r == WARPS - 1 then EqualLevels(a + cost, cost, 0) else EqualLevels(a, cost, r + 1)
  {
    hide Claim;
    ClaimLevel(a, WARPS - r, a + cost, r);
    assert a + cost - a == cost;
    if r == WARPS - 1 {
      assert EqualLevels(a + cost, cost, 0) == Levels(a, 0, a + cost, WARPS);
    }
  }

  function RowTime(cost: real, q: nat): real {
    q as real * cost
  }

  lemma OneMoreRow(cost: real, q: nat)
    ensures RowTime(cost, q + 1) == RowTime(cost, q) + cost
  {
  }

  lemma RowTimeIs(cost: real, q: nat)
    ensures RowTime(cost, q) == cost * q as real
  {
  }

  lemma WholeRows(n: nat)
    ensures n == WARPS * (n / WARPS) + n % WARPS
    ensures CeilDiv(n, WARPS) == if n % WARPS == 0 then n / WARPS else n / WARPS + 1
  {
  }

  lemma IdleLevels(cost: real)
    ensures Claims(Equal(cost, 0)) == EqualLevels(RowTime(cost, 0), cost, 0)
  {
    assert Idle() == EqualLevels(0.0, cost, 0);
  }

  lemma EqualRowsStep(cost: real, n: nat)
    requires n > 0
    ensures Claims(Equal(cost, n)) == Claim(Claims(Equal(cost, n - 1)), cost)
  {
    hide Claim;
    assert Equal(cost, n)[..n - 1] == Equal(cost, n - 1);
  }

  /** After 16q + r equal rows, r warps have run q + 1 of them and the others q. */
  lemma {:induction false} EqualClaims(cost: real, q: nat, r: nat)
    requires cost >= 0.0 && r < WARPS
    ensures Claims(Equal(cost, WARPS * q + r)) == EqualLevels(RowTime(cost, q), cost, r)
    decreases q, r
  {
    hide Claims, Claim, Equal, EqualLevels, RowTime;
    if r > 0 {
      EqualRowsStep(cost, WARPS * q + r);
      EqualClaims(cost, q, r - 1);
      EqualLevelsStep(RowTime(cost, q), cost, r - 1);
    } else if q > 0 {
      EqualRowsStep(cost, WARPS * q);
      EqualClaims(cost, q - 1, WARPS - 1);
      EqualLevelsStep(RowTime(cost, q - 1), cost, WARPS - 1);
      OneMoreRow(cost, q - 1);
    } else {
      IdleLevels(cost);
    }
  }

  lemma EqualEnd(cost: real, n: nat)
    requires cost >= 0.0
    ensures End(Equal(cost, n)) == cost * CeilDiv(n, WARPS) as real
  {
    hide Claims, Equal, EqualLevels, RowTime, Max;
    var q, r := n / WARPS, n % WARPS;
    EqualClaims(cost, q, r);
    LevelsMax(RowTime(cost, q), cost, r);
    OneMoreRow(cost, q);
    RowTimeIs(cost, q);
    RowTimeIs(cost, q + 1);
    WholeRows(n);
  }

  lemma LevelsMax(a: real, cost: real, r: nat)
    requires cost >= 0.0 && r < WARPS
    ensures Max(EqualLevels(a, cost, r)) == if r > 0 then a + cost else a
  {
    hide Max;
    var free := EqualLevels(a, cost, r);
    assert free[WARPS - 1] == if r > 0 then a + cost else a;
    assert forall k :: 0 <= k < WARPS ==> free[k] <= free[WARPS - 1];
  }

  /** Sixteen rows of cost 1 and then one of cost 10 end at 11: the long row waits. */
  lemma LongRowLast()
    ensures End(Equal(1.0, 16) + [10.0]) == 11.0
  {
    hide Claims, Equal, EqualLevels, RowTime, Max;
    var costs := Equal(1.0, 16) + [10.0];
    EqualClaims(1.0, 1, 0);
    RowTimeIs(1.0, 1);
    assert costs[..|costs| - 1] == Equal(1.0, 16);
    ClaimsSnoc(costs);
    LevelClaimEnd(1.0, 10.0);
  }

  lemma LevelClaimEnd(a: real, c: real)
    requires c >= 0.0
    ensures Max(Claim(EqualLevels(a, 1.0, 0), c)) == a + c
  {
    hide Max, Insert;
    var free := EqualLevels(a, 1.0, 0);
    var next := Claim(free, c);
    assert forall k :: 0 <= k < |free| ==> free[k] == a;
    InsertKeepsEntries(free[1..], free[0] + c);
    assert a + c in multiset(next);
    forall x | x in next ensures x <= a + c {
      ClaimEntries(free, c, x);
    }
    assert Max(next) in next;
  }

  /** For rows of one cost the dynamic claim ends exactly when the busiest static warp does. */
  lemma DynamicEqualsStatic(cost: real, lo: int, hi: int)
    requires cost >= 0.0 && lo <= hi
    ensures End(Equal(cost, hi - lo)) == cost * Max(RowsOfWarps(lo, hi))
  {
    hide End, Equal, RowsOfWarps, Max, CeilDiv;
    EqualEnd(cost, hi - lo);
    BusiestWarp(lo, hi);
  }

  // ----- a phase: every CTA over its slice -----

  function Costs(rowCost: nat -> real, lo: nat, hi: nat): (s: seq<real>)
    requires lo <= hi
    ensures |s| == hi - lo
  {
    seq(hi - lo, k requires 0 <= k < hi - lo => rowCost(lo + k))
  }

  function SliceEnds(rowCost: nat -> real, n: nat): (s: seq<real>)
    ensures |s| == GRID
  {
    SlicesTile(n, GRID);
    seq(GRID, c requires 0 <= c < GRID => End(Costs(rowCost, Slices(n, GRID)[c].0, Slices(n, GRID)[c].1)))
  }

  /** (critical, even): the slowest CTA, and the spread over every warp of the grid. */
  function Phase(rowCost: nat -> real, n: nat, slicing: bool): (real, real) {
    var even := Sum(Costs(rowCost, 0, n)) / (GRID * WARPS) as real;
    (if slicing then Max(SliceEnds(rowCost, n)) else even, even)
  }

  /** The CTA that runs rows n c / 142 to n (c + 1) / 142 ends at t. */
  ghost predicate SliceEndsAt(rowCost: nat -> real, n: nat, c: nat, t: real) {
    exists costs: seq<real> ::
      && |costs| == n * (c + 1) / 142 - n * c / 142
      && (forall k :: 0 <= k < |costs| ==> costs[k] == rowCost(n * c / 142 + k))
      && t == End(costs)
  }

  lemma SliceEndsThere(rowCost: nat -> real, n: nat, c: nat)
    requires c < GRID
    ensures SliceEndsAt(rowCost, n, c, SliceEnds(rowCost, n)[c])
  {
    hide End;
    BoundStep(n, GRID, c);
    var costs := Costs(rowCost, Bound(n, GRID, c), Bound(n, GRID, c + 1));
    assert SliceEnds(rowCost, n)[c] == End(costs);
  }

  /** With slicing the critical time is that of the slowest of the 142 CTAs; the even spread over their 2272
      warps carries every row, and is the critical time without slicing. */
  lemma PhaseIsSlowestSlice(rowCost: nat -> real, n: nat, slicing: bool, ends: seq<real>, rows: seq<real>)
    requires |ends| == 142 && forall c :: 0 <= c < 142 ==> SliceEndsAt(rowCost, n, c, ends[c])
    requires |rows| == n && forall r :: 0 <= r < n ==> rows[r] == rowCost(r)
    ensures var (critical, even) := Phase(rowCost, n, slicing);
            && (slicing ==> critical in ends && forall c :: 0 <= c < 142 ==> ends[c] <= critical)
            && (!slicing ==> critical == even)
            && even * 2272.0 == Sum(rows)
  {
    hide End, Sum, Bound, SliceEnds, SliceEndsAt, Max;
    forall c | 0 <= c < 142 ensures ends[c] == SliceEnds(rowCost, n)[c] {
      SliceEndIsOne(rowCost, n, c, ends[c]);
    }
    assert ends == SliceEnds(rowCost, n);
    assert Costs(rowCost, 0, n) == rows;
  }

  lemma SliceEndIsOne(rowCost: nat -> real, n: nat, c: nat, t: real)
    requires c < GRID && SliceEndsAt(rowCost, n, c, t)
    ensures t == SliceEnds(rowCost, n)[c]
  {
    hide End;
    BoundStep(n, GRID, c);
    var lo, hi := Bound(n, GRID, c), Bound(n, GRID, c + 1);
    var costs: seq<real> :|
      && |costs| == n * (c + 1) / 142 - n * c / 142
      && (forall k :: 0 <= k < |costs| ==> costs[k] == rowCost(n * c / 142 + k))
      && t == End(costs);
    assert costs == Costs(rowCost, lo, hi);
  }

  lemma SliceFloor(rowCost: nat -> real, lo: nat, hi: nat)
    requires lo <= hi
    ensures Sum(Costs(rowCost, 0, hi)) <= Sum(Costs(rowCost, 0, lo)) + 16.0 * End(Costs(rowCost, lo, hi))
  {
    hide Sum, Max, Claims;
    var costs := Costs(rowCost, lo, hi);
    assert Costs(rowCost, 0, hi) == Costs(rowCost, 0, lo) + costs;
    SumConcat(Costs(rowCost, 0, lo), costs);
    ClaimsSorted(costs);
    SumAtMost(Claims(costs), Max(Claims(costs)));
  }

  lemma {:induction false} SlicesCarryAll(rowCost: nat -> real, n: nat, c: nat)
    requires c <= GRID
    ensures Sum(Costs(rowCost, 0, Bound(n, GRID, c))) <= 16.0 * Sum(SliceEnds(rowCost, n)[..c])
  {
    hide Bound, End, Sum;
    BoundStep(n, GRID, 0);
    if c == 0 {
      assert Costs(rowCost, 0, 0) == [] && SliceEnds(rowCost, n)[..0] == [];
      SumNothing();
    } else {
      SlicesCarryAll(rowCost, n, c - 1);
      BoundStep(n, GRID, c - 1);
      SliceFloor(rowCost, Bound(n, GRID, c - 1), Bound(n, GRID, c));
      SumStep(SliceEnds(rowCost, n), c - 1);
    }
  }

  /** The critical time of a phase is never below its even spread. */
  lemma CriticalAtLeastEven(rowCost: nat -> real, n: nat, slicing: bool)
    ensures Phase(rowCost, n, slicing).0 >= Phase(rowCost, n, slicing).1
  {
    hide Bound, SliceEnds, Max, Sum, Costs;
    var ends := SliceEnds(rowCost, n);
    SlicesCarryAll(rowCost, n, GRID);
    BoundStep(n, GRID, 0);
    assert ends[..GRID] == ends;
    SumAtMost(ends, Max(ends));
  }

  /** Rows of one cost. */
  function Flat(cost: real): nat -> real {
    _ => cost
  }

  lemma CeilMonotone(a: nat, b: nat)
    requires a <= b
    ensures CeilDiv(a, WARPS) <= CeilDiv(b, WARPS)
  {
  }

  /** Equal rows: the slowest CTA has ceil(n/142) rows, so the phase costs ceil of that over 16. */
  lemma EqualPhase(cost: real, n: nat)
    requires cost >= 0.0
    ensures Phase(Flat(cost), n, true).0 == cost * CeilDiv(CeilDiv(n, GRID), WARPS) as real
  {
    hide Bound, End, Max, CeilDiv, Sum;
    var ends, most := SliceEnds(Flat(cost), n), CeilDiv(n, GRID);
    SlicesTile(n, GRID);
    forall c | 0 <= c < GRID ensures ends[c] <= cost * CeilDiv(most, WARPS) as real {
      var size := EqualSlice(cost, n, c);
      CeilMonotone(size, most);
    }
    LastSlice(n, GRID);
    var last := EqualSlice(cost, n, GRID - 1);
    assert ends[GRID - 1] == cost * CeilDiv(most, WARPS) as real;
  }

  lemma EqualSlice(cost: real, n: nat, c: nat) returns (size: nat)
    requires cost >= 0.0 && c < GRID
    ensures size == Bound(n, GRID, c + 1) - Bound(n, GRID, c) <= CeilDiv(n, GRID)
    ensures SliceEnds(Flat(cost), n)[c] == cost * CeilDiv(size, WARPS) as real
  {
    hide Bound, End, Max, CeilDiv, Sum;
    SlicesTile(n, GRID);
    var (lo, hi) := Slices(n, GRID)[c];
    size := hi - lo;
    assert Costs(Flat(cost), lo, hi) == Equal(cost, size);
    EqualEnd(cost, size);
  }

  lemma BusiestAtLeastMean(lo: int, hi: int)
    requires lo <= hi
    ensures Sum(RowsOfWarps(lo, hi)) == (hi - lo) as real
    ensures Max(RowsOfWarps(lo, hi)) == CeilDiv(hi - lo, WARPS) as real
    ensures Max(RowsOfWarps(lo, hi)) >= Sum(RowsOfWarps(lo, hi)) / WARPS as real
  {
    hide CeilDiv, RowsOfWarps, Sum, Max;
    StrideSharesRows(lo, hi);
    BusiestWarp(lo, hi);
    SumAtMost(RowsOfWarps(lo, hi), Max(RowsOfWarps(lo, hi)));
  }

  /** What the busiest warp of a CTA runs and what its warps run on average, both averaged over the grid. */
  method Busiest(n: nat) returns (busy: real, mean: real)
    ensures mean == n as real / (GRID * WARPS) as real
    ensures busy == BusySum(n, GRID) / GRID as real
    ensures busy >= mean
  {
    hide Bound, CeilDiv, RowsOfWarps, Sum, Max;
    var mx: real, mn: real := 0.0, 0.0;
    BoundStep(n, GRID, 0);
    for c := 0 to GRID
      invariant mx == BusySum(n, c)
      invariant mn == Bound(n, GRID, c) as real / 16.0
      invariant mx >= mn
    {
      BoundStep(n, GRID, c);
      var (lo, hi) := Slices(n, GRID)[c];
      var r := RowsOfWarps(lo, hi);
      BusiestAtLeastMean(lo, hi);
      mx := mx + Max(r);
      mn := mn + Sum(r) / WARPS as real;
    }
    busy, mean := mx / GRID as real, mn / GRID as real;
  }

  /** Rows of the busiest warp, ceil(size/16), summed over the first `c` slices. */
  ghost function BusySum(n: nat, c: nat): real
    requires c <= GRID
  {
    if c == 0 then 0.0
    else
      BoundStep(n, GRID, c - 1);
      BusySum(n, c - 1) + CeilDiv(Bound(n, GRID, c) - Bound(n, GRID, c - 1), WARPS) as real
  }
}
