/** The LRU cache over routed cells (ops/moe_lru.py).

    `Lru` is the class of the simulator; `Run` is the value it computes on a whole access
    stream. What the cache is worth is stated against the stream alone: the cells in order of
    last use, the number of distinct cells between two uses, a frozen resident set. */
module MoeLru {
  import opened Basics
  import opened Division

  /** Everything an `Lru` object holds besides its capacity. */
  datatype State = State(slots: seq<int>, hits: nat, misses: nat, compulsory: nat, seen: set<int>)

  const EMPTY := State([], 0, 0, 0, {})

  /** Where `c` stands in `s`; |s| when it does not. */
  function Find(s: seq<int>, c: int): (i: nat)
    ensures i <= |s|
    ensures i < |s| ==> s[i] == c
    ensures c !in s[..i]
    ensures i == |s| ==> c !in s
  {
    if s == [] then 0
    else if s[0] == c then 0
    else
      var i := Find(s[1..], c) + 1;
      assert s[..i] == [s[0]] + s[1..][..i - 1];
      assert s == [s[0]] + s[1..];
      i
  }

  function Without(s: seq<int>, c: int): seq<int> {
    var i := Find(s, c);
    if i < |s| then s[..i] + s[i + 1..] else s
  }

  /** One access: refresh on a hit; on a miss admit, then evict the oldest when over capacity. */
  function Step(capacity: nat, st: State, cell: int): State {
    if cell in st.slots then
      st.(slots := Without(st.slots, cell) + [cell], hits := st.hits + 1)
    else
      var counted := if cell in st.seen then st else
                     st.(seen := st.seen + {cell}, compulsory := st.compulsory + 1);
      var missed := counted.(misses := st.misses + 1);
      if capacity == 0 then missed
      else if |st.slots| + 1 > capacity then missed.(slots := (st.slots + [cell])[1..])
      else missed.(slots := st.slots + [cell])
  }

  function Run(capacity: nat, stream: seq<int>): State {
    if stream == [] then EMPTY
    else Step(capacity, Run(capacity, stream[..|stream| - 1]), stream[|stream| - 1])
  }

  class Lru {
    const capacity: nat
    var slots: seq<int>
    var hits: nat
    var misses: nat
    var compulsory: nat
    var seen: set<int>

    ghost function Contents(): State
      reads this
    {
      State(slots, hits, misses, compulsory, seen)
    }

    constructor (capacity: nat)
      ensures this.capacity == capacity && Contents() == EMPTY
    {
      this.capacity := capacity;
      slots, hits, misses, compulsory, seen := [], 0, 0, 0, {};
    }

    method Touch(cell: int) returns (resident: bool)
      modifies this
      ensures resident <==> cell in old(slots)
      ensures Contents() == Step(capacity, old(Contents()), cell)
    {
      if cell in slots {
        slots := Without(slots, cell) + [cell];
        hits := hits + 1;
        return true;
      }
      misses := misses + 1;
      if cell !in seen {
        seen := seen + {cell};
        compulsory := compulsory + 1;
      }
      if capacity == 0 {
        return false;
      }
      slots := slots + [cell];
      if |slots| > capacity {
        slots := slots[1..];
      }
      return false;
    }

    function Total(): nat
      reads this
    {
      hits + misses
    }

    function Rate(): real
      reads this
    {
      if Total() == 0 then 0.0 else hits as real / Total() as real
    }
  }

  /** The whole stream through a fresh cache; null stands for the ValueError on a negative capacity. */
  method Simulate(stream: seq<int>, capacity: int) returns (c: Lru?)
    ensures c == null <==> capacity < 0
    ensures c != null ==> fresh(c) && c.capacity == capacity && c.Contents() == Run(capacity, stream)
  {
    if capacity < 0 {
      return null;
    }
    c := new Lru(capacity);
    for i := 0 to |stream|
      invariant c != null && fresh(c) && c.capacity == capacity
      invariant c.Contents() == Run(capacity, stream[..i])
    {
      var _ := c.Touch(stream[i]);
      assert stream[..i + 1][..i] == stream[..i];
    }
    assert stream[..|stream|] == stream;
  }

  // ----- the stream alone -----

  ghost function Cells(s: seq<int>): set<int> {
    set c | c in s
  }

  /** The index of the last use of `c`, or -1. */
  ghost function LastUse(stream: seq<int>, c: int): int {
    if stream == [] then -1
    else if stream[|stream| - 1] == c then |stream| - 1
    else LastUse(stream[..|stream| - 1], c)
  }

  /** `s` lists each cell of the stream once, least recently used first. */
  ghost predicate InOrderOfLastUse(stream: seq<int>, s: seq<int>) {
    && Distinct(s)
    && Cells(s) == Cells(stream)
    && Ascending(stream, s)
  }

  ghost function Suffix<T>(s: seq<T>, k: nat): seq<T> {
    if |s| <= k then s else s[|s| - k..]
  }

  ghost predicate IsSuffix<T>(a: seq<T>, b: seq<T>) {
    |a| <= |b| && a == b[|b| - |a|..]
  }

  ghost function Recency(stream: seq<int>): seq<int> {
    if stream == [] then []
    else Without(Recency(stream[..|stream| - 1]), stream[|stream| - 1]) + [stream[|stream| - 1]]
  }

  // ----- lists without a cell -----

  lemma CellsConcat(a: seq<int>, b: seq<int>)
    ensures Cells(a + b) == Cells(a) + Cells(b)
  {
  }

  lemma InCells(s: seq<int>, c: int)
    ensures c in Cells(s) <==> c in s
  {
  }

  lemma CellsEmpty()
    ensures Cells([]) == {}
  {
  }

  lemma CellsOne(c: int)
    ensures Cells([c]) == {c}
  {
  }

  lemma CellsSnoc(s: seq<int>)
    requires s != []
    ensures s == s[..|s| - 1] + [s[|s| - 1]]
    ensures Cells(s) == Cells(s[..|s| - 1]) + {s[|s| - 1]}
  {
    assert s == s[..|s| - 1] + [s[|s| - 1]];
    CellsConcat(s[..|s| - 1], [s[|s| - 1]]);
    assert Cells([s[|s| - 1]]) == {s[|s| - 1]};
  }

  lemma FindConcat(a: seq<int>, b: seq<int>, c: int)
    ensures Find(a + b, c) == if c in a then Find(a, c) else |a| + Find(b, c)
  {
    if a == [] {
      assert a + b == b;
    } else {
      assert (a + b)[1..] == a[1..] + b;
      FindConcat(a[1..], b, c);
      assert a == [a[0]] + a[1..];
    }
  }

  /** Removal acts on the part that holds the cell. */
  lemma WithoutConcat(a: seq<int>, b: seq<int>, c: int)
    ensures c !in b ==> Without(a + b, c) == Without(a, c) + b
    ensures c in b && c !in a ==> Without(a + b, c) == a + Without(b, c)
    ensures |Without(b, c)| == if c in b then |b| - 1 else |b|
  {
    FindConcat(a, b, c);
    var i, j := Find(a + b, c), Find(b, c);
    hide Find;
    if c in a {
      assert (a + b)[..i] + (a + b)[i + 1..] == a[..i] + a[i + 1..] + b;
    } else if c in b {
      assert (a + b)[..i] + (a + b)[i + 1..] == a + (b[..j] + b[j + 1..]);
    }
  }

  /** The cell just used goes to the end; what stands after `a` is the rest of `b` and the cell. */
  lemma MovedToEnd(a: seq<int>, b: seq<int>, c: int)
    ensures c !in b ==> Without(a + b, c) + [c] == Without(a, c) + (b + [c])
    ensures c in b && c !in a ==> Without(a + b, c) + [c] == a + (Without(b, c) + [c])
    ensures |Without(b, c)| == if c in b then |b| - 1 else |b|
  {
    hide Without;
    WithoutConcat(a, b, c);
  }

  lemma WithoutFacts(s: seq<int>, c: int)
    requires Distinct(s)
    ensures Distinct(Without(s, c)) && c !in Without(s, c)
    ensures Cells(Without(s, c)) == Cells(s) - {c}
  {
    var i := Find(s, c);
    if i < |s| {
      assert s == s[..i] + [c] + s[i + 1..];
      CellsConcat(s[..i] + [c], s[i + 1..]);
      CellsConcat(s[..i], [c]);
      CellsConcat(s[..i], s[i + 1..]);
      assert Cells([c]) == {c};
      assert c !in s[i + 1..];
      assert c !in Cells(s[..i]) && c !in Cells(s[i + 1..]);
    }
  }

  lemma {:induction false} DistinctCount(s: seq<int>)
    requires Distinct(s)
    ensures |Cells(s)| == |s|
  {
    if s == [] {
      assert Cells(s) == {};
    } else {
      DistinctCount(s[..|s| - 1]);
      CellsSnoc(s);
      assert s[|s| - 1] !in Cells(s[..|s| - 1]);
    }
  }

  // ----- recency is what the cache orders by -----

  lemma {:induction false} LastUseFound(stream: seq<int>, c: int)
    ensures -1 <= LastUse(stream, c) < |stream|
    ensures LastUse(stream, c) >= 0 ==> stream[LastUse(stream, c)] == c
    ensures forall k :: LastUse(stream, c) < k < |stream| ==> stream[k] != c
  {
    if stream == [] || stream[|stream| - 1] == c {
    } else {
      LastUseFound(stream[..|stream| - 1], c);
    }
  }

  ghost predicate Ascending(stream: seq<int>, s: seq<int>) {
    forall i, j :: 0 <= i < j < |s| ==> LastUse(stream, s[i]) < LastUse(stream, s[j])
  }

  lemma WithoutAscending(stream: seq<int>, s: seq<int>, c: int)
    requires Ascending(stream, s)
    ensures Ascending(stream, Without(s, c))
  {
  }

  /** A new use moves its cell to the end of the order. */
  lemma AscendingSnoc(t: seq<int>, s: seq<int>, c: int)
    requires Ascending(t, s) && c !in s
    ensures Ascending(t + [c], s + [c])
  {
    forall x ensures LastUse(t + [c], x) == if x == c then |t| else LastUse(t, x) {
      assert (t + [c])[..|t|] == t;
    }
    forall x ensures LastUse(t, x) < |t| {
      LastUseFound(t, x);
    }
  }

  lemma {:induction false} RecencyOrdersByLastUse(stream: seq<int>)
    ensures InOrderOfLastUse(stream, Recency(stream))
  {
    if stream == [] {
    } else {
      var t, c := stream[..|stream| - 1], stream[|stream| - 1];
      RecencyOrdersByLastUse(t);
      var w := Without(Recency(t), c);
      WithoutFacts(Recency(t), c);
      CellsSnoc(stream);
      CellsSnoc(w + [c]);
      assert (w + [c])[..|w|] == w;
      assert Ascending(t, Recency(t));
      WithoutAscending(t, Recency(t), c);
      AscendingSnoc(t, w, c);
      assert Ascending(stream, w + [c]);
    }
  }

  /** Only one listing is in order of last use, so `Recency` is that listing. */
  lemma {:induction false} OrderOfLastUseIsUnique(stream: seq<int>, a: seq<int>, b: seq<int>)
    requires InOrderOfLastUse(stream, a) && InOrderOfLastUse(stream, b)
    ensures a == b
  {
    DistinctCount(a);
    DistinctCount(b);
    SameOrder(stream, a, b);
  }

  lemma {:induction false} SameOrder(stream: seq<int>, a: seq<int>, b: seq<int>)
    requires Distinct(a) && Distinct(b) && Cells(a) == Cells(b) && |a| == |b|
    requires Ascending(stream, a) && Ascending(stream, b)
    ensures a == b
  {
    if a == [] {
    } else {
      var x, y := a[|a| - 1], b[|b| - 1];
      assert x in Cells(b) && y in Cells(a);
      var i :| 0 <= i < |b| && b[i] == x;
      var j :| 0 <= j < |a| && a[j] == y;
      assert x == y;
      CellsSnoc(a);
      CellsSnoc(b);
      assert x !in Cells(a[..|a| - 1]) && x !in Cells(b[..|b| - 1]);
      assert Cells(a[..|a| - 1]) == Cells(b[..|b| - 1]);
      SameOrder(stream, a[..|a| - 1], b[..|b| - 1]);
    }
  }

  lemma SuffixSplit<T>(s: seq<T>, k: nat) returns (a: seq<T>)
    ensures s == a + Suffix(s, k)
    ensures if |s| <= k then a == [] else |Suffix(s, k)| == k
  {
    a := s[..|s| - |Suffix(s, k)|];
  }

  lemma SuffixOfConcat<T>(a: seq<T>, b: seq<T>, k: nat)
    requires |b| == k || (a == [] && |b| <= k)
    ensures Suffix(a + b, k) == b
  {
  }

  lemma SplitDistinct(a: seq<int>, b: seq<int>, c: int)
    requires Distinct(a + b)
    ensures Distinct(b)
    ensures c in b ==> c !in a
  {
    forall i, j | 0 <= i < j < |b| ensures b[i] != b[j] {
      assert (a + b)[|a| + i] == b[i] && (a + b)[|a| + j] == b[j];
    }
    forall i, j | 0 <= i < |a| && 0 <= j < |b| ensures a[i] != b[j] {
      assert (a + b)[i] == a[i] && (a + b)[|a| + j] == b[j];
    }
  }

  lemma SuffixOfEvicted(w: seq<int>, s: seq<int>, c: int, k: nat)
    requires s != [] && |s| == k
    ensures Suffix(w + (s + [c]), k) == (s + [c])[1..]
  {
    var t := (s + [c])[1..];
    assert w + (s + [c]) == w + [s[0]] + t;
    SuffixOfConcat(w + [s[0]], t, k);
  }

  lemma StepSlots(k: nat, st: State, c: int)
    ensures var s := st.slots;
            Step(k, st, c).slots == if c in s then Without(s, c) + [c]
                                    else if |s| < k then s + [c]
                                    else if k == 0 then s else (s + [c])[1..]
  {
    hide Without;
  }

  /** Keeping the last k cells commutes with one access. */
  lemma SuffixStep(k: nat, r: seq<int>, st: State, c: int)
    requires Distinct(r) && st.slots == Suffix(r, k)
    ensures Step(k, st, c).slots == Suffix(Without(r, c) + [c], k)
  {
    hide Without, Distinct, Step;
    var s := st.slots;
    var a := SuffixSplit(r, k);
    StepSlots(k, st, c);
    SplitDistinct(a, s, c);
    MovedToEnd(a, s, c);
    if c in s {
      SuffixOfConcat(a, Without(s, c) + [c], k);
    } else if |s| < k {
      MovedToEnd([], a, c);
      SuffixOfConcat(Without(a, c), s + [c], k);
    } else if k > 0 {
      hide Suffix;
      SuffixOfEvicted(Without(a, c), s, c, k);
    }
  }

  lemma {:induction false} SlotsFollowRecency(k: nat, stream: seq<int>)
    ensures Run(k, stream).slots == Suffix(Recency(stream), k)
  {
    if stream == [] {
    } else {
      var t, c := stream[..|stream| - 1], stream[|stream| - 1];
      SlotsFollowRecency(k, t);
      RecencyOrdersByLastUse(t);
      hide Find, Without, Distinct, Ascending, Suffix, LastUse, Step;
      SuffixStep(k, Recency(t), Run(k, t), c);
    }
  }

  lemma SlotsWereUsed(k: nat, stream: seq<int>)
    ensures Cells(Run(k, stream).slots) <= Cells(stream)
  {
    hide Distinct, Ascending, Recency, Run;
    SlotsFollowRecency(k, stream);
    RecencyOrdersByLastUse(stream);
  }

  lemma CountersStep(k: nat, t: seq<int>, c: int)
    requires Cells(Run(k, t).slots) <= Cells(t)
    requires Run(k, t).seen == Cells(t) && Run(k, t).compulsory == |Cells(t)|
    ensures Step(k, Run(k, t), c).seen == Cells(t + [c])
    ensures Step(k, Run(k, t), c).compulsory == |Cells(t + [c])|
    ensures Step(k, Run(k, t), c).hits + Step(k, Run(k, t), c).misses == Run(k, t).hits + Run(k, t).misses + 1
  {
    hide Run, Without;
    CellsConcat(t, [c]);
    assert Cells([c]) == {c};
    if c in Run(k, t).slots {
      assert c in Cells(t);
    }
    if c in Cells(t) {
      assert Cells(t) + {c} == Cells(t);
    }
  }

  /** What the cache holds and has counted, on every stream and at every capacity. */
  lemma {:induction false} SlotsAreMostRecent(k: nat, stream: seq<int>)
    ensures Run(k, stream).slots == Suffix(Recency(stream), k)
    ensures Run(k, stream).seen == Cells(stream)
    ensures Run(k, stream).compulsory == |Cells(stream)|
    ensures Run(k, stream).hits + Run(k, stream).misses == |stream|
  {
    hide Cells, Step, Recency, Suffix;
    SlotsFollowRecency(k, stream);
    if stream == [] {
      assert Cells(stream) == {} by { CellsEmpty(); }
    } else {
      var t, c := stream[..|stream| - 1], stream[|stream| - 1];
      SlotsAreMostRecent(k, t);
      SlotsWereUsed(k, t);
      CountersStep(k, t, c);
      assert stream == t + [c];
    }
  }

  /** Any listing in order of last use gives the slots: they are its last `k` cells. */
  lemma {:induction false} SlotsBySpecification(k: nat, stream: seq<int>, order: seq<int>)
    requires InOrderOfLastUse(stream, order)
    ensures Run(k, stream).slots == Suffix(order, k)
  {
    RecencyOrdersByLastUse(stream);
    OrderOfLastUseIsUnique(stream, order, Recency(stream));
    SlotsAreMostRecent(k, stream);
  }

  /** Stack inclusion: a larger cache holds the smaller one's cells, and never hits less. */
  lemma {:induction false} StackInclusion(a: nat, b: nat, stream: seq<int>)
    requires a <= b
    ensures IsSuffix(Run(a, stream).slots, Run(b, stream).slots)
    ensures Run(a, stream).hits <= Run(b, stream).hits
  {
    hide Recency, Find, Without, Cells;
    SlotsFollowRecency(a, stream);
    SlotsFollowRecency(b, stream);
    if stream == [] {
    } else {
      StackInclusion(a, b, stream[..|stream| - 1]);
    }
  }

  // ----- when an access hits -----

  /** The tail of length |used| of the order holds exactly `used`; one more access keeps that. */
  lemma TailStep(r: seq<int>, used: set<int>, c: int)
    requires Distinct(r) && |used| <= |r| && Cells(Suffix(r, |used|)) == used
    ensures |used + {c}| <= |Without(r, c) + [c]|
    ensures Cells(Suffix(Without(r, c) + [c], |used + {c}|)) == used + {c}
  {
    hide Find, Without, Distinct, Cells;
    var tail := Suffix(r, |used|);
    var a := SuffixSplit(r, |used|);
    SplitDistinct(a, tail, c);
    MovedToEnd(a, tail, c);
    InCells(tail, c);
    CellsOne(c);
    if c in tail {
      assert used + {c} == used;
      WithoutFacts(tail, c);
      SuffixOfConcat(a, Without(tail, c) + [c], |used|);
      CellsConcat(Without(tail, c), [c]);
    } else {
      assert c !in used;
      SuffixOfConcat(Without(a, c), tail + [c], |used| + 1);
      CellsConcat(tail, [c]);
      assert |used + {c}| == |used| + 1;
    }
  }

  /** The most recent |Cells(stream[i..])| cells are exactly the cells used since `i`. */
  lemma {:induction false} RecencyTail(stream: seq<int>, i: nat)
    requires i <= |stream|
    ensures |Cells(stream[i..])| <= |Recency(stream)|
    ensures Cells(Suffix(Recency(stream), |Cells(stream[i..])|)) == Cells(stream[i..])
  {
    hide Cells, Find, Without, Distinct, Ascending;
    if i == |stream| {
      CellsEmpty();
      assert stream[i..] == [];
      assert Suffix(Recency(stream), 0) == [];
    } else {
      var t, c := stream[..|stream| - 1], stream[|stream| - 1];
      RecencyTail(t, i);
      RecencyOrdersByLastUse(t);
      assert stream[i..][..|stream| - i - 1] == t[i..];
      CellsSnoc(stream[i..]);
      TailStep(Recency(t), Cells(t[i..]), c);
    }
  }

  lemma SuffixOfSuffix(s: seq<int>, j: nat, k: nat)
    requires j <= k
    ensures forall c :: c in Suffix(s, j) ==> c in Suffix(s, k)
  {
    assert Suffix(s, j) == Suffix(Suffix(s, k), j);
  }

  lemma {:induction false} ReuseHits(k: nat, stream: seq<int>, i: nat)
    requires i < |stream| && |Cells(stream[i..])| <= k
    ensures stream[i] in Run(k, stream).slots
  {
    SlotsAreMostRecent(k, stream);
    RecencyTail(stream, i);
    assert stream[i..][0] == stream[i];
    assert stream[i] in Cells(stream[i..]);
    var d, r := |Cells(stream[i..])|, Recency(stream);
    assert stream[i] in Suffix(r, d);
    SuffixOfSuffix(r, d, k);
  }

  lemma {:induction false} HitWasReused(k: nat, stream: seq<int>, c: int) returns (i: nat)
    requires c in Run(k, stream).slots
    ensures i < |stream| && stream[i] == c && |Cells(stream[i..])| <= k
  {
    hide Distinct, Ascending, Recency, LastUse, Run, Cells, Suffix;
    SlotsFollowRecency(k, stream);
    SlotsWereUsed(k, stream);
    InCells(Run(k, stream).slots, c);
    InCells(stream, c);
    LastUseFound(stream, c);
    i := LastUse(stream, c);
    RecencyTail(stream, i + 1);
    var since, r := Cells(stream[i + 1..]), Recency(stream);
    assert c !in stream[i + 1..];
    InCells(stream[i + 1..], c);
    InCells(Suffix(r, |since|), c);
    if k <= |since| {
      SuffixOfSuffix(r, k, |since|);
    }
    assert k > |since|;
    assert stream[i..] == [c] + stream[i + 1..];
    CellsConcat([c], stream[i + 1..]);
    CellsOne(c);
  }

  /** An access hits iff the cell was used before with at most `k` distinct cells since then. */
  lemma {:induction false} HitIffReuseDistanceFits(k: nat, stream: seq<int>, c: int)
    ensures c in Run(k, stream).slots <==>
            exists i :: 0 <= i < |stream| && stream[i] == c && |Cells(stream[i..])| <= k
  {
    if i :| 0 <= i < |stream| && stream[i] == c && |Cells(stream[i..])| <= k {
      ReuseHits(k, stream, i);
    }
    if c in Run(k, stream).slots {
      var i := HitWasReused(k, stream, c);
    }
  }

  lemma {:induction false} CardMonotone(a: set<int>, b: set<int>)
    requires a <= b
    ensures |a| <= |b|
  {
    assert b == a + (b - a);
  }

  /** A cell used earlier in a window of at most `k` distinct cells is still resident. */
  lemma WindowReuse(k: nat, before: seq<int>, w: seq<int>, c: int)
    requires c in w && |Cells(w)| <= k
    ensures c in Run(k, before + w).slots
  {
    hide Run;
    var i :| 0 <= i < |w| && w[i] == c;
    assert (before + w)[|before| + i..] == w[i..];
    CardMonotone(Cells(w[i..]), Cells(w));
    ReuseHits(k, before + w, |before| + i);
  }

  /** In a window touching at most `k` distinct cells, each of them misses at most once. */
  lemma {:induction false} WindowMisses(k: nat, before: seq<int>, window: seq<int>)
    requires |Cells(window)| <= k
    ensures Run(k, before + window).misses <= Run(k, before).misses + |Cells(window)|
  {
    hide Cells, Find, Without;
    if window == [] {
      assert before + window == before;
    } else {
      var w, c := window[..|window| - 1], window[|window| - 1];
      CellsSnoc(window);
      CardMonotone(Cells(w), Cells(window));
      assert (before + window)[..|before + window| - 1] == before + w;
      WindowMisses(k, before, w);
      InCells(w, c);
      if c in w {
        WindowReuse(k, before, w, c);
      } else {
        assert |Cells(w) + {c}| == |Cells(w)| + 1;
      }
    }
  }

  /** Accesses a frozen resident set would miss. */
  ghost function Outside(stream: seq<int>, frozen: set<int>): nat {
    if stream == [] then 0
    else Outside(stream[..|stream| - 1], frozen) + if stream[|stream| - 1] in frozen then 0 else 1
  }

  /** The part of the stream after the last access outside `frozen`. */
  ghost function InsideFrom(stream: seq<int>, frozen: set<int>): (i: nat)
    ensures i <= |stream|
    ensures Cells(stream[i..]) <= frozen
    ensures Outside(stream[..i], frozen) == Outside(stream, frozen)
    ensures i > 0 ==> stream[i - 1] !in frozen
  {
    if stream == [] then 0
    else if stream[|stream| - 1] !in frozen then
      assert stream[..|stream|] == stream;
      |stream|
    else
      var t := stream[..|stream| - 1];
      var i := InsideFrom(t, frozen);
      assert stream[i..] == t[i..] + [stream[|stream| - 1]];
      assert stream[..i] == t[..i];
      i
  }

  /** One access to anything, then a window inside the frozen set. */
  lemma SegmentMisses(k: nat, stream: seq<int>, frozen: set<int>, i: nat)
    requires |frozen| <= k && 0 < i <= |stream| && Cells(stream[i..]) <= frozen
    ensures Run(k, stream).misses <= Run(k, stream[..i - 1]).misses + 1 + k
  {
    assert stream == stream[..i] + stream[i..];
    CardMonotone(Cells(stream[i..]), frozen);
    WindowMisses(k, stream[..i], stream[i..]);
    assert stream[..i][..i - 1] == stream[..i - 1];
  }

  /** Against any frozen set of at most `k` cells, true LRU misses at most (k+1)m + k times. */
  lemma {:induction false} FrozenSetBound(k: nat, stream: seq<int>, frozen: set<int>)
    requires |frozen| <= k
    ensures Run(k, stream).misses <= (k + 1) * Outside(stream, frozen) + k
    decreases |stream|
  {
    hide Run, Cells;
    var i := InsideFrom(stream, frozen);
    if i == 0 {
      assert [] + stream == stream && stream[..0] == [] && stream[0..] == stream;
      CardMonotone(Cells(stream), frozen);
      WindowMisses(k, [], stream);
      NothingMissed(k);
    } else {
      var p := stream[..i - 1];
      SegmentMisses(k, stream, frozen, i);
      FrozenSetBound(k, p, frozen);
      assert stream[..i][..i - 1] == p;
      OneMoreOutside(k, Outside(p, frozen));
    }
  }

  lemma NothingMissed(k: nat)
    ensures Run(k, []).misses == 0
  {
  }

  lemma OneMoreOutside(k: nat, m: nat)
    ensures (k + 1) * (m + 1) == (k + 1) * m + k + 1
  {
  }

  // ----- a stream on which the bound is met -----

  ghost function UpTo(k: nat): (s: seq<int>)
    ensures |s| == k
  {
    seq(k, i => i)
  }

  /** The frozen cells once, then `m` rounds of one other cell and the frozen cells. */
  ghost function Rounds(k: nat, m: nat): seq<int> {
    if m == 0 then UpTo(k) else Rounds(k, m - 1) + ([k] + UpTo(k))
  }

  /** Every access of `w` asks for a cell that the k accesses before it did not. */
  ghost predicate AlwaysAbsent(k: nat, full: seq<int>) {
    forall i, j :: 0 <= i < j <= i + k && j < |full| ==> full[i] != full[j]
  }

  lemma {:induction false} AllMiss(k: nat, t: seq<int>, s: seq<int>, w: seq<int>)
    requires Run(k, t).slots == s && |s| == k && AlwaysAbsent(k, s + w)
    ensures Run(k, t + w).slots == (s + w)[|w|..]
    ensures Run(k, t + w).misses == Run(k, t).misses + |w|
  {
    hide Run, AlwaysAbsent, Step;
    if w == [] {
      assert t + w == t && s + w == s;
    } else {
      var n := |w| - 1;
      var v, c := w[..n], w[n];
      var full := s + v;
      SnocOfConcat(s, w);
      SnocOfConcat(t, w);
      AbsentPrefix(k, full, c);
      AllMiss(k, t, s, v);
      NextIsAbsent(k, full, c, n);
      StepMisses(k, Run(k, t + v), c);
      DropOneMore(full, c, n);
      RunStep(k, t + v, c);
    }
  }

  lemma SnocOfConcat(s: seq<int>, w: seq<int>)
    requires w != []
    ensures s + w == s + w[..|w| - 1] + [w[|w| - 1]]
  {
  }

  lemma DropOneMore(full: seq<int>, c: int, n: nat)
    requires n <= |full|
    ensures (full[n..] + [c])[1..] == (full + [c])[n + 1..]
  {
  }

  lemma AbsentPrefix(k: nat, full: seq<int>, c: int)
    requires AlwaysAbsent(k, full + [c])
    ensures AlwaysAbsent(k, full)
  {
    forall i, j | 0 <= i < j <= i + k && j < |full| ensures full[i] != full[j] {
      assert (full + [c])[i] == full[i] && (full + [c])[j] == full[j];
    }
  }

  lemma NextIsAbsent(k: nat, full: seq<int>, c: int, n: nat)
    requires AlwaysAbsent(k, full + [c]) && |full| == n + k
    ensures c !in full[n..]
  {
    forall i | n <= i < |full| ensures full[i] != c {
      assert (full + [c])[i] == full[i] && (full + [c])[|full|] == c;
    }
  }

  lemma StepMisses(k: nat, st: State, c: int)
    requires c !in st.slots && |st.slots| == k
    ensures Step(k, st, c).slots == (st.slots + [c])[1..] && Step(k, st, c).misses == st.misses + 1
  {
  }

  lemma RunStep(k: nat, t: seq<int>, c: int)
    ensures Run(k, t + [c]) == Step(k, Run(k, t), c)
  {
    hide Step;
    assert (t + [c])[..|t|] == t;
  }

  lemma {:induction false} FirstRound(k: nat, j: nat)
    requires j <= k
    ensures Run(k, UpTo(j)).slots == UpTo(j) && Run(k, UpTo(j)).misses == j
  {
    if j == 0 {
    } else {
      FirstRound(k, j - 1);
      assert UpTo(j)[..j - 1] == UpTo(j - 1);
    }
  }

  lemma RoundIsAbsent(k: nat)
    ensures AlwaysAbsent(k, UpTo(k) + ([k] + UpTo(k)))
    ensures (UpTo(k) + ([k] + UpTo(k)))[k + 1..] == UpTo(k)
  {
    var full := UpTo(k) + ([k] + UpTo(k));
    assert forall i :: 0 <= i < |full| ==> full[i] == if i <= k then i else i - k - 1;
  }

  lemma {:induction false} RoundsMissAll(k: nat, m: nat)
    ensures Run(k, Rounds(k, m)).slots == UpTo(k)
    ensures Run(k, Rounds(k, m)).misses == (k + 1) * m + k
  {
    hide Run, AlwaysAbsent, UpTo;
    if m == 0 {
      FirstRound(k, k);
    } else {
      RoundsMissAll(k, m - 1);
      RoundIsAbsent(k);
      AllMiss(k, Rounds(k, m - 1), UpTo(k), [k] + UpTo(k));
      OneMoreOutside(k, m - 1);
    }
  }

  lemma {:induction false} OutsideConcat(a: seq<int>, b: seq<int>, frozen: set<int>)
    ensures Outside(a + b, frozen) == Outside(a, frozen) + Outside(b, frozen)
  {
    if b == [] {
      assert a + b == a;
    } else {
      assert (a + b)[..|a + b| - 1] == a + b[..|b| - 1];
      OutsideConcat(a, b[..|b| - 1], frozen);
    }
  }

  lemma {:induction false} NoneOutside(s: seq<int>, frozen: set<int>)
    requires Cells(s) <= frozen
    ensures Outside(s, frozen) == 0
  {
    if s == [] {
    } else {
      CellsSnoc(s);
      NoneOutside(s[..|s| - 1], frozen);
    }
  }

  lemma {:induction false} RoundsOutside(k: nat, m: nat)
    ensures Outside(Rounds(k, m), Cells(UpTo(k))) == m
  {
    NoneOutside(UpTo(k), Cells(UpTo(k)));
    if m == 0 {
    } else {
      RoundsOutside(k, m - 1);
      hide UpTo;
      OutsideConcat(Rounds(k, m - 1), [k] + UpTo(k), Cells(UpTo(k)));
      OutsideConcat([k], UpTo(k), Cells(UpTo(k)));
      OtherIsOutside(k);
    }
  }

  lemma OtherIsOutside(k: nat)
    ensures Outside([k], Cells(UpTo(k))) == 1
  {
    assert [k][..0] == [];
  }

  /** The bound is met, for every k and m: one cell outside, asked for between rounds of the frozen ones. */
  lemma FrozenSetBoundIsTight(k: nat, m: nat)
    ensures |Cells(UpTo(k))| == k && Outside(Rounds(k, m), Cells(UpTo(k))) == m
    ensures Run(k, Rounds(k, m)).misses == (k + 1) * m + k
  {
    DistinctCount(UpTo(k));
    RoundsOutside(k, m);
    RoundsMissAll(k, m);
  }

  /** When the working set fits, every miss is compulsory. */
  lemma FittingStreamMissesOnce(k: nat, stream: seq<int>)
    requires |Cells(stream)| <= k
    ensures Run(k, stream).misses == Run(k, stream).compulsory == |Cells(stream)|
  {
    SlotsAreMostRecent(k, stream);
    assert [] + stream == stream;
    WindowMisses(k, [], stream);
    MissesCoverCompulsory(k, stream);
  }

  lemma {:induction false} MissesCoverCompulsory(k: nat, stream: seq<int>)
    ensures Run(k, stream).compulsory <= Run(k, stream).misses
  {
    if stream == [] {
    } else {
      MissesCoverCompulsory(k, stream[..|stream| - 1]);
    }
  }

  // ----- the order a decode visits the cells in -----

  function CellAt(trace: seq<nat>, i: nat, layers: nat, topK: nat, experts: nat): nat
    requires i < |trace|
  {
    if layers == 0 || topK == 0 then 0 else i / topK % layers * experts + trace[i]
  }

  /** `for t, for l, the K`: each trace byte once, in order, as a cell of its layer. A trace that is too
      short ends in an IndexError, here `!complete`. */
  method DecodeOrder(trace: seq<nat>, tokens: nat, layers: nat, topK: nat, experts: nat)
    returns (cells: seq<nat>, complete: bool)
    ensures complete <==> tokens * (layers * topK) <= |trace|
    ensures complete ==> |cells| == tokens * (layers * topK)
    ensures |cells| <= |trace|
    ensures forall i :: 0 <= i < |cells| ==> cells[i] == CellAt(trace, i, layers, topK, experts)
  {
    cells := [];
    var stride := layers * topK;
    for t := 0 to tokens
      invariant |cells| == t * stride <= |trace|
      invariant forall i :: 0 <= i < |cells| ==> cells[i] == CellAt(trace, i, layers, topK, experts)
    {
      var start := t * stride;
      for l := 0 to layers
        invariant |cells| == start + l * topK <= |trace|
        invariant forall i :: 0 <= i < |cells| ==> cells[i] == CellAt(trace, i, layers, topK, experts)
      {
        var off := start + l * topK;
        for k := 0 to topK
          invariant |cells| == off + k <= |trace|
          invariant forall i :: 0 <= i < |cells| ==> cells[i] == CellAt(trace, i, layers, topK, experts)
        {
          Place(t, l, k, layers, topK);
          if off + k >= |trace| {
            TooShort(t, l, k, tokens, layers, topK);
            return cells, false;
          }
          cells := cells + [l * experts + trace[off + k]];
        }
        assert (l + 1) * topK == l * topK + topK;
      }
      assert (t + 1) * stride == t * stride + stride;
    }
    return cells, true;
  }

  /** The position of (t, l, k) names its layer. */
  lemma Place(t: nat, l: nat, k: nat, layers: nat, topK: nat)
    requires l < layers && k < topK
    ensures (t * (layers * topK) + l * topK + k) / topK % layers == l
  {
    var q := t * layers + l;
    assert t * (layers * topK) == t * layers * topK;
    assert t * (layers * topK) + l * topK + k == topK * q + k by {
      assert topK * q == topK * (t * layers) + topK * l;
    }
    DivUnique(topK, q, k);
    assert t * layers + l == layers * t + l;
    DivUnique(layers, t, l);
  }

  lemma TooShort(t: nat, l: nat, k: nat, tokens: nat, layers: nat, topK: nat)
    requires t < tokens && l < layers && k < topK
    ensures t * (layers * topK) + l * topK + k < tokens * (layers * topK)
  {
    var stride := layers * topK;
    assert (l + 1) * topK <= layers * topK;
    assert (t + 1) * stride <= tokens * stride;
  }

  /** Cells of different layers are different cells, whatever their expert. */
  lemma CellNamesLayerAndExpert(trace: seq<nat>, i: nat, layers: nat, topK: nat, experts: nat)
    requires i < |trace| && layers > 0 && topK > 0 && trace[i] < experts
    ensures CellAt(trace, i, layers, topK, experts) / experts == i / topK % layers
    ensures CellAt(trace, i, layers, topK, experts) % experts == trace[i]
  {
    DivUnique(experts, i / topK % layers, trace[i]);
  }
}
