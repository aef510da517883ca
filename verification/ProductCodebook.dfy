/** The exact joint search over an E8 x E8 x E8 product codebook (ops/e8_stage1.py): one scan of each
    sub-block per shell, then the shell triples. `sqrt` is any function that is a positive square
    root on the positive reals. */
module ProductCodebook {
  import opened RealSeq
  import opened Vectors

  const SUB: nat := 8

  type Point = seq<int>

  function Norm(y: Point): int {
    if y == [] then 0 else Norm(y[..|y| - 1]) + y[|y| - 1] * y[|y| - 1]
  }

  function Real(y: Point): (r: seq<real>)
    ensures |r| == |y|
  {
    seq(|y|, i requires 0 <= i < |y| => y[i] as real)
  }

  // ----- the checks on loading -----

  function CountNorm(book: seq<Point>, s: int): nat {
    if book == [] then 0
    else CountNorm(book[..|book| - 1], s) + if Norm(book[|book| - 1]) == s then 1 else 0
  }

  /** The sum of d^3 over the divisors d of n up to `upTo`. */
  function DivisorCubes(n: int, upTo: int): int {
    if upTo <= 0 then 0
    else DivisorCubes(n, upTo - 1) + if n % upTo == 0 then upTo * upTo * upTo else 0
  }

  /** 1 + 8 at 2, 1 + 27 at 3, 1 + 8 + 64 at 4. */
  lemma SmallDivisorCubes()
    ensures DivisorCubes(1, 1) == 1 && DivisorCubes(2, 2) == 9 && DivisorCubes(3, 3) == 28 && DivisorCubes(4, 4) == 73
  {
  }

  function Total(y: Point): int {
    if y == [] then 0 else Total(y[..|y| - 1]) + y[|y| - 1]
  }

  /** `load_codebook`: shape, parity, coordinate sums, kissing number and theta series. */
  ghost predicate Checked(book: seq<Point>) {
    && (forall i :: 0 <= i < |book| ==> |book[i]| == SUB)
    && (forall i, k :: 0 <= i < |book| && 0 <= k < |book[i]| ==> book[i][k] % 2 == book[i][0] % 2)
    && (forall i :: 0 <= i < |book| ==> Total(book[i]) % 4 == 0)
    && CountNorm(book, 8) == 240
    && (forall i :: 0 <= i < |book| ==>
          CountNorm(book, Norm(book[i])) == 240 * DivisorCubes(Norm(book[i]) / 8, Norm(book[i]) / 8))
  }

  lemma {:induction false} NormIsSquare(y: Point)
    ensures Norm(y) >= 0 && Dot(Real(y), Real(y)) == Norm(y) as real
  {
    if y == [] {
    } else {
      NormIsSquare(y[..|y| - 1]);
      assert Real(y)[..|y| - 1] == Real(y[..|y| - 1]);
    }
  }

  lemma {:induction false} CountedOnce(book: seq<Point>, i: nat)
    requires i < |book|
    ensures CountNorm(book, Norm(book[i])) > 0
  {
    if i == |book| - 1 {
    } else {
      assert book[..|book| - 1][i] == book[i];
      CountedOnce(book[..|book| - 1], i);
    }
  }

  /** The theta check leaves no point of norm below 8, so no shell norm is zero. */
  lemma CheckedBookIsPositive(book: seq<Point>)
    requires Checked(book)
    ensures book != [] && forall i :: 0 <= i < |book| ==> Norm(book[i]) >= 8
  {
    forall i | 0 <= i < |book| ensures Norm(book[i]) >= 8 {
      NormIsSquare(book[i]);
      CountedOnce(book, i);
    }
  }

  // ----- the scan of one shell -----

  /** The first index of the largest entry. */
  function ArgMax(s: seq<real>): (r: nat)
    requires s != []
    ensures r < |s|
    ensures forall k :: 0 <= k < |s| ==> s[k] <= s[r]
    ensures forall k :: 0 <= k < r ==> s[k] < s[r]
  {
    if |s| == 1 then 0
    else
      var r := ArgMax(s[..|s| - 1]);
      if s[|s| - 1] > s[..|s| - 1][r] then |s| - 1 else r
  }

  /** The points of a shell, in order of index. */
  function Where(book: seq<Point>, s: int): (m: seq<nat>)
    ensures forall k :: 0 <= k < |m| ==> m[k] < |book| && Norm(book[m[k]]) == s
    ensures forall i :: 0 <= i < |book| && Norm(book[i]) == s ==> i in m
  {
    if book == [] then []
    else
      var n := |book| - 1;
      var m := Where(book[..n], s);
      assert forall i :: 0 <= i < n ==> book[..n][i] == book[i];
      if Norm(book[n]) == s then m + [n] else m
  }

  function InsertShell(s: seq<int>, x: int): (r: seq<int>)
    ensures forall y :: y in r <==> y in s || y == x
  {
    if s == [] then [x]
    else if x < s[0] then [x] + s
    else if x == s[0] then s
    else
      assert s == [s[0]] + s[1..];
      [s[0]] + InsertShell(s[1..], x)
  }

  /** `sorted(set(q))` */
  function Shells(book: seq<Point>): (s: seq<int>)
    ensures forall x :: x in s <==> exists i :: 0 <= i < |book| && Norm(book[i]) == x
  {
    if book == [] then []
    else
      var n := |book| - 1;
      assert forall i :: 0 <= i < n ==> book[..n][i] == book[i];
      InsertShell(Shells(book[..n]), Norm(book[n]))
  }

  ghost predicate Increasing(s: seq<int>) {
    forall i, j :: 0 <= i < j < |s| ==> s[i] < s[j]
  }

  lemma {:induction false} InsertShellIncreases(s: seq<int>, x: int)
    requires Increasing(s)
    ensures Increasing(InsertShell(s, x))
    ensures InsertShell(s, x) != [] && InsertShell(s, x)[0] == if s == [] || x < s[0] then x else s[0]
  {
    if s == [] || x <= s[0] {
    } else {
      InsertShellIncreases(s[1..], x);
      var t := InsertShell(s[1..], x);
      assert s[0] < t[0];
      assert forall k :: 0 <= k < |t| ==> t[0] <= t[k];
    }
  }

  /** The shells are listed once each, smallest norm first. */
  lemma {:induction false} ShellsIncrease(book: seq<Point>)
    ensures Increasing(Shells(book))
  {
    if book == [] {
    } else {
      ShellsIncrease(book[..|book| - 1]);
      InsertShellIncreases(Shells(book[..|book| - 1]), Norm(book[|book| - 1]));
    }
  }

  lemma {:induction false} WhereIncreases(book: seq<Point>, s: int)
    ensures Increasing(Where(book, s))
    ensures forall k :: 0 <= k < |Where(book, s)| ==> Where(book, s)[k] < |book|
  {
    if book == [] {
    } else {
      WhereIncreases(book[..|book| - 1], s);
    }
  }

  ghost predicate BookOf(book: seq<Point>) {
    book != [] && forall i :: 0 <= i < |book| ==> |book[i]| == SUB && Norm(book[i]) > 0
  }

  /** The inner products of the listed points with `x`. */
  function DotsOf(book: seq<Point>, m: seq<nat>, x: seq<real>): (d: seq<real>)
    requires BookOf(book) && |x| == SUB && forall k :: 0 <= k < |m| ==> m[k] < |book|
    ensures |d| == |m| && forall k :: 0 <= k < |m| ==> d[k] == Dot(Real(book[m[k]]), x)
  {
    seq(|m|, k requires 0 <= k < |m| => Dot(Real(book[m[k]]), x))
  }

  lemma ShellNotEmpty(book: seq<Point>, s: int)
    requires s in Shells(book)
    ensures Where(book, s) != []
  {
    var i :| 0 <= i < |book| && Norm(book[i]) == s;
    assert i in Where(book, s);
  }

  /** The index of the first point of shell `s` with the largest inner product with `x`. */
  function BestInShell(book: seq<Point>, s: int, x: seq<real>): (i: nat)
    requires BookOf(book) && |x| == SUB && s in Shells(book)
    ensures i < |book| && Norm(book[i]) == s
  {
    ShellNotEmpty(book, s);
    var m := Where(book, s);
    m[ArgMax(DotsOf(book, m, x))]
  }

  lemma BestInShellIsBest(book: seq<Point>, s: int, x: seq<real>, j: nat)
    requires BookOf(book) && |x| == SUB && s in Shells(book)
    requires j < |book| && Norm(book[j]) == s
    ensures Dot(Real(book[j]), x) <= Dot(Real(book[BestInShell(book, s, x)]), x)
  {
    hide Dot, Shells, ArgMax, Real;
    ShellNotEmpty(book, s);
    var m := Where(book, s);
    var k :| 0 <= k < |m| && m[k] == j;
    var d := DotsOf(book, m, x);
    assert d[k] <= d[ArgMax(d)];
  }

  /** Of equally good points of a shell the first is taken. */
  lemma BestInShellIsFirst(book: seq<Point>, s: int, x: seq<real>, j: nat)
    requires BookOf(book) && |x| == SUB && s in Shells(book)
    requires j < BestInShell(book, s, x) && Norm(book[j]) == s
    ensures Dot(Real(book[j]), x) < Dot(Real(book[BestInShell(book, s, x)]), x)
  {
    hide Dot, Shells, ArgMax, Real;
    ShellNotEmpty(book, s);
    WhereIncreases(book, s);
    var m := Where(book, s);
    assert j in m;
    var k :| 0 <= k < |m| && m[k] == j;
    var d := DotsOf(book, m, x);
    assert k < ArgMax(d) && d[k] < d[ArgMax(d)];
  }

  method ScanShell(book: seq<Point>, s: int, xs: seq<seq<real>>) returns (dots: seq<real>, best: seq<nat>)
    requires BookOf(book) && s in Shells(book) && forall c :: 0 <= c < |xs| ==> |xs[c]| == SUB
    ensures Row(book, s, xs, dots, best)
  {
    hide BestInShell, Shells, Dot;
    best := seq(|xs|, c requires 0 <= c < |xs| => BestInShell(book, s, xs[c]));
    dots := seq(|xs|, c requires 0 <= c < |xs| => Dot(Real(book[best[c]]), xs[c]));
  }

  method BestPerShell(book: seq<Point>, xs: seq<seq<real>>)
    returns (out: seq<seq<real>>, arg: seq<seq<nat>>)
    requires BookOf(book) && forall c :: 0 <= c < |xs| ==> |xs[c]| == SUB
    ensures Table(book, xs, out, arg)
  {
    hide Row, Shells, BookOf;
    var shells := Shells(book);
    out, arg := [], [];
    for i := 0 to |shells|
      invariant |out| == |arg| == i
      invariant forall a :: 0 <= a < i ==> Row(book, shells[a], xs, out[a], arg[a])
    {
      var dots, best := ScanShell(book, shells[i], xs);
      out, arg := out + [dots], arg + [best];
    }
  }

  ghost predicate Row(book: seq<Point>, s: int, xs: seq<seq<real>>, out: seq<real>, arg: seq<nat>)
    requires BookOf(book) && forall c :: 0 <= c < |xs| ==> |xs[c]| == SUB
    requires s in Shells(book)
  {
    && |out| == |arg| == |xs|
    && (forall c :: 0 <= c < |xs| ==> arg[c] == BestInShell(book, s, xs[c]))
    && (forall c :: 0 <= c < |xs| ==> out[c] == Dot(Real(book[arg[c]]), xs[c]))
  }

  ghost predicate Table(book: seq<Point>, xs: seq<seq<real>>, out: seq<seq<real>>, arg: seq<seq<nat>>)
    requires BookOf(book) && forall c :: 0 <= c < |xs| ==> |xs[c]| == SUB
  {
    && |out| == |arg| == |Shells(book)|
    && forall a :: 0 <= a < |out| ==> Row(book, Shells(book)[a], xs, out[a], arg[a])
  }

  // ----- the shell triples -----

  function Flat<T>(n: nat, f: nat -> seq<T>): seq<T> {
    if n == 0 then [] else Flat(n - 1, f) + f(n - 1)
  }

  lemma {:induction false} FlatContains<T>(n: nat, f: nat -> seq<T>, k: nat, x: T)
    requires k < n && x in f(k)
    ensures x in Flat(n, f)
  {
    if k == n - 1 {
    } else {
      FlatContains(n - 1, f, k, x);
    }
  }

  lemma {:induction false} FlatOnly<T>(n: nat, f: nat -> seq<T>, x: T) returns (k: nat)
    requires x in Flat(n, f)
    ensures k < n && x in f(k)
  {
    if x in f(n - 1) {
      k := n - 1;
    } else {
      k := FlatOnly(n - 1, f, x);
    }
  }

  function Inner(n: nat, a: nat): nat -> seq<(nat, nat, nat)> {
    (b: nat) => seq(n, c => (a, b, c))
  }

  function Outer(n: nat): nat -> seq<(nat, nat, nat)> {
    (a: nat) => Flat(n, Inner(n, a))
  }

  /** All (a, b, c) below n, c fastest. */
  function Triples(n: nat): seq<(nat, nat, nat)> {
    Flat(n, Outer(n))
  }

  lemma TriplesAreAll(n: nat, a: nat, b: nat, c: nat)
    ensures (a, b, c) in Triples(n) <==> a < n && b < n && c < n
  {
    var t := (a, b, c);
    if a < n && b < n && c < n {
      assert Inner(n, a)(b)[c] == t;
      FlatContains(n, Inner(n, a), b, t);
      FlatContains(n, Outer(n), a, t);
    }
    if t in Triples(n) {
      var i := FlatOnly(n, Outer(n), t);
      var j := FlatOnly(n, Inner(n, i), t);
      assert t in Inner(n, i)(j);
    }
  }

  lemma {:induction false} FlatIndex<T>(n: nat, f: nat -> seq<T>, m: nat, k: nat, r: nat)
    requires (forall i: nat :: i < n ==> |f(i)| == m) && k < n && r < m
    ensures |Flat(n, f)| == n * m && k * m + r < n * m && Flat(n, f)[k * m + r] == f(k)[r]
  {
    FlatSize(n, f, m);
    Within(n, m, k, r);
    if k == n - 1 {
      FlatSize(n - 1, f, m);
    } else {
      FlatIndex(n - 1, f, m, k, r);
    }
  }

  lemma {:induction false} FlatSize<T>(n: nat, f: nat -> seq<T>, m: nat)
    requires forall i: nat :: i < n ==> |f(i)| == m
    ensures |Flat(n, f)| == n * m
  {
    if n == 0 {
    } else {
      FlatSize(n - 1, f, m);
      assert n * m == (n - 1) * m + m;
    }
  }

  lemma Within(n: nat, m: nat, k: nat, r: nat)
    requires k < n && r < m
    ensures k * m + r < n * m
  {
    assert n * m == k * m + (n - k) * m;
    assert (n - k) * m >= m by { assert (n - k - 1) * m >= 0; }
  }

  /** The place of a triple when c runs fastest. */
  function Rank(t: (nat, nat, nat), n: nat): nat {
    t.0 * (n * n) + (t.1 * n + t.2)
  }

  lemma TripleAt(n: nat, t: (nat, nat, nat))
    requires t.0 < n && t.1 < n && t.2 < n
    ensures Rank(t, n) < |Triples(n)| && Triples(n)[Rank(t, n)] == t
  {
    var a := t.0;
    forall i: nat | i < n ensures |Outer(n)(i)| == n * n {
      FlatSize(n, Inner(n, i), n);
    }
    FlatIndex(n, Inner(n, a), n, t.1, t.2);
    FlatIndex(n, Outer(n), n * n, a, t.1 * n + t.2);
    assert Inner(n, a)(t.1)[t.2] == (a, t.1, t.2);
  }

  ghost predicate IsSqrt(sqrt: real -> real) {
    forall t :: t > 0.0 ==> sqrt(t) > 0.0 && sqrt(t) * sqrt(t) == t
  }

  /** The triple's best inner product with a unit vector. */
  function Score(out: seq<seq<real>>, shells: seq<int>, sqrt: real -> real, t: (nat, nat, nat)): real
    requires t.0 < |out| && t.1 < |out| && t.2 < |out| == |shells|
    requires forall a :: 0 <= a < |out| ==> |out[a]| == 3
    requires sqrt((shells[t.0] + shells[t.1] + shells[t.2]) as real) != 0.0
  {
    (out[t.0][0] + out[t.1][1] + out[t.2][2]) / sqrt((shells[t.0] + shells[t.1] + shells[t.2]) as real)
  }

  // ----- the product codebook -----

  /** Three codebook indices, one a sub-block. */
  type Choice = (nat, nat, nat)

  ghost predicate IsChoice(book: seq<Point>, i: Choice) {
    i.0 < |book| && i.1 < |book| && i.2 < |book|
  }

  function Product(book: seq<Point>, i: Choice): (p: seq<real>)
    requires BookOf(book) && i.0 < |book| && i.1 < |book| && i.2 < |book|
    ensures |p| == 3 * SUB
  {
    Real(book[i.0]) + Real(book[i.1]) + Real(book[i.2])
  }

  function ShellSum(book: seq<Point>, i: Choice): real
    requires i.0 < |book| && i.1 < |book| && i.2 < |book|
  {
    (Norm(book[i.0]) + Norm(book[i.1]) + Norm(book[i.2])) as real
  }

  lemma ProductNorm(book: seq<Point>, i: Choice)
    requires BookOf(book) && IsChoice(book, i)
    ensures Dot(Product(book, i), Product(book, i)) == ShellSum(book, i) > 0.0
  {
    var a, b, c := Real(book[i.0]), Real(book[i.1]), Real(book[i.2]);
    DotConcat(a + b, c, a + b, c);
    DotConcat(a, b, a, b);
    NormIsSquare(book[i.0]);
    NormIsSquare(book[i.1]);
    NormIsSquare(book[i.2]);
  }

  /** The unit vector of a product point. */
  function Unit(book: seq<Point>, sqrt: real -> real, i: Choice): (u: seq<real>)
    requires BookOf(book) && i.0 < |book| && i.1 < |book| && i.2 < |book|
    requires sqrt(Dot(Product(book, i), Product(book, i))) != 0.0
    ensures |u| == 3 * SUB
  {
    Scale(Product(book, i), 1.0 / sqrt(Dot(Product(book, i), Product(book, i))))
  }

  /** The three sub-blocks of a block of 24 weights. */
  function Columns(x: seq<real>): (xs: seq<seq<real>>)
    requires |x| == 3 * SUB
    ensures |xs| == 3 && forall c :: 0 <= c < 3 ==> |xs[c]| == SUB
  {
    [x[..SUB], x[SUB..2 * SUB], x[2 * SUB..]]
  }

  /** The inner product with each sub-block, added up. */
  ghost function Dots(book: seq<Point>, x: seq<real>, i: Choice): real
    requires BookOf(book) && IsChoice(book, i) && |x| == 3 * SUB
  {
    var xs := Columns(x);
    Dot(Real(book[i.0]), xs[0]) + Dot(Real(book[i.1]), xs[1]) + Dot(Real(book[i.2]), xs[2])
  }

  lemma DotsSplit(book: seq<Point>, x: seq<real>, i: Choice)
    requires BookOf(book) && IsChoice(book, i) && |x| == 3 * SUB
    ensures Dot(x, Product(book, i)) == Dots(book, x, i)
  {
    var xs := Columns(x);
    var a, b, c := Real(book[i.0]), Real(book[i.1]), Real(book[i.2]);
    assert x == xs[0] + xs[1] + xs[2];
    DotConcat(xs[0] + xs[1], xs[2], a + b, c);
    DotConcat(xs[0], xs[1], a, b);
    DotSymmetric(xs[0], a);
    DotSymmetric(xs[1], b);
    DotSymmetric(xs[2], c);
  }

  lemma UnitFacts(book: seq<Point>, sqrt: real -> real, x: seq<real>, i: Choice)
    requires BookOf(book) && IsChoice(book, i) && IsSqrt(sqrt) && |x| == 3 * SUB
    ensures sqrt(ShellSum(book, i)) > 0.0
    ensures Dot(Product(book, i), Product(book, i)) == ShellSum(book, i)
    ensures Dot(x, Unit(book, sqrt, i)) == Dots(book, x, i) / sqrt(ShellSum(book, i))
    ensures Dot(Unit(book, sqrt, i), Unit(book, sqrt, i)) == 1.0
  {
    hide Dot, Scale, Product, Dots;
    ProductNorm(book, i);
    DotsSplit(book, x, i);
    var p, r := Product(book, i), sqrt(ShellSum(book, i));
    var k := 1.0 / r;
    DotScale(x, p, k);
    var u := Scale(p, k);
    DotScale(u, p, k);
    DotScale(p, p, k);
    DotSymmetric(u, p);
    UnitLength(ShellSum(book, i), r, k, Dots(book, x, i));
  }

  lemma UnitLength(n: real, r: real, k: real, d: real)
    requires r > 0.0 && r * r == n && k == 1.0 / r
    ensures Mul(Mul(n, k), k) == 1.0
    ensures Mul(d, k) == d / r
  {
    assert r * k == 1.0;
    assert n * k == r * (r * k);
  }

  // ----- the search of one block -----

  ghost predicate Below(t: (nat, nat, nat), n: nat) {
    t.0 < n && t.1 < n && t.2 < n
  }

  ghost predicate Scored(out: seq<seq<real>>, shells: seq<int>, sqrt: real -> real) {
    && |out| == |shells|
    && (forall a :: 0 <= a < |out| ==> |out[a]| == 3)
    && forall t: (nat, nat, nat) :: Below(t, |shells|) ==>
         sqrt((shells[t.0] + shells[t.1] + shells[t.2]) as real) > 0.0
  }

  /** The comparison of the shell triples. */
  method BestTriple(out: seq<seq<real>>, shells: seq<int>, sqrt: real -> real)
    returns (best: (nat, nat, nat), score: real)
    requires shells != [] && Scored(out, shells, sqrt)
    ensures Below(best, |shells|) && score == Score(out, shells, sqrt, best)
    ensures forall t: (nat, nat, nat) :: Below(t, |shells|) ==> Score(out, shells, sqrt, t) <= score
    ensures forall t: (nat, nat, nat) :: Below(t, |shells|) && Rank(t, |shells|) < Rank(best, |shells|) ==>
              Score(out, shells, sqrt, t) < score
  {
    hide Triples, Score, Rank;
    var triples := Triples(|shells|);
    forall k | 0 <= k < |triples| ensures Below(triples[k], |shells|) {
      var t := triples[k];
      assert (t.0, t.1, t.2) in triples;
      TriplesAreAll(|shells|, t.0, t.1, t.2);
    }
    var scores := seq(|triples|, k requires 0 <= k < |triples| => Score(out, shells, sqrt, triples[k]));
    TriplesAreAll(|shells|, 0, 0, 0);
    assert (0, 0, 0) in triples;
    var j := ArgMax(scores);
    best, score := triples[j], scores[j];
    forall t: (nat, nat, nat) | Below(t, |shells|) ensures Score(out, shells, sqrt, t) <= score {
      TriplesAreAll(|shells|, t.0, t.1, t.2);
      assert t == (t.0, t.1, t.2);
      var k :| 0 <= k < |triples| && triples[k] == t;
      assert scores[k] <= score;
    }
    forall t: (nat, nat, nat) | Below(t, |shells|) && Rank(t, |shells|) < Rank(best, |shells|)
      ensures Score(out, shells, sqrt, t) < score
    {
      TripleAt(|shells|, t);
      RankIsPlace(|shells|, j);
      assert scores[Rank(t, |shells|)] < scores[j];
    }
  }

  lemma TriplesSize(n: nat)
    ensures |Triples(n)| == (n * n) * n
  {
    forall i: nat | i < n ensures |Outer(n)(i)| == n * n {
      FlatSize(n, Inner(n, i), n);
    }
    FlatSize(n, Outer(n), n * n);
  }

  /** j as q m + r. */
  lemma Divided(j: nat, m: nat, n: nat) returns (q: nat, r: nat)
    requires j < m * n
    ensures q < n && r < m && j == q * m + r
  {
    FactorsArePositive(m, n);
    q, r := j / m, j % m;
    assert q * m + r == j;
    AtLeastTimes(q, n, m);
  }

  lemma AtLeastTimes(q: nat, n: nat, m: nat)
    ensures q >= n ==> q * m >= n * m == m * n
  {
    if q >= n {
      assert q * m == n * m + (q - n) * m;
      assert (q - n) * m >= 0;
    }
  }

  lemma FactorsArePositive(m: nat, n: nat)
    requires 0 < m * n
    ensures m > 0
  {
  }

  lemma PlaceOf(n: nat, j: nat) returns (t: (nat, nat, nat))
    requires j < |Triples(n)|
    ensures t.0 < n && t.1 < n && t.2 < n && Rank(t, n) == j
  {
    hide Triples;
    TriplesSize(n);
    var a, r := Divided(j, n * n, n);
    var b, c := Divided(r, n, n);
    t := (a, b, c);
  }

  /** Each triple stands at its rank only. */
  lemma RankIsPlace(n: nat, j: nat)
    requires j < |Triples(n)|
    ensures Rank(Triples(n)[j], n) == j
  {
    hide Rank;
    var t := PlaceOf(n, j);
    TripleAt(n, t);
  }

  ghost predicate NoneBetter(book: seq<Point>, sqrt: real -> real, x: seq<real>, dot: real)
    requires BookOf(book) && IsSqrt(sqrt) && |x| == 3 * SUB
  {
    forall i :: IsChoice(book, i) ==>
      sqrt(ShellSum(book, i)) > 0.0 && Dots(book, x, i) / sqrt(ShellSum(book, i)) <= dot
  }

  /** `main`'s arm B on one block: the direction, its inner product and the analytic error at gain
      `picked`. */
  method Search(book: seq<Point>, sqrt: real -> real, x: seq<real>, picked: real)
    returns (best: Choice, dot: real, error: real, rec: seq<real>)
    requires BookOf(book) && IsSqrt(sqrt) && |x| == 3 * SUB
    ensures IsChoice(book, best) && sqrt(ShellSum(book, best)) > 0.0
    ensures dot == Dots(book, x, best) / sqrt(ShellSum(book, best))
    ensures NoneBetter(book, sqrt, x, dot)
    ensures error == Dot(x, x) - 2.0 * Mul(picked, dot) + Mul(picked, picked)
    ensures sqrt(Dot(Product(book, best), Product(book, best))) != 0.0
    ensures rec == Scale(Unit(book, sqrt, best), picked)
  {
    hide Dot, Product, Shells, Scale, Dots, Table, Score;
    var xs, shells := Columns(x), Shells(book);
    var out, arg := BestPerShell(book, xs);
    ShellRoots(book, sqrt, x, out, arg);
    var t;
    t, dot := BestTriple(out, shells, sqrt);
    TableEntry(book, sqrt, x, out, arg, t);
    best := (arg[t.0][0], arg[t.1][1], arg[t.2][2]);
    error := Dot(x, x) - 2.0 * Mul(picked, dot) + Mul(picked, picked);
    forall i | IsChoice(book, i)
      ensures sqrt(ShellSum(book, i)) > 0.0 && Dots(book, x, i) / sqrt(ShellSum(book, i)) <= dot
    {
      var s := ScoreCovers(book, sqrt, x, out, arg, i);
    }
    UnitFacts(book, sqrt, x, best);
    rec := Scale(Unit(book, sqrt, best), picked);
  }

  /** The winning triple's score is the inner product of the points it stands for. */
  lemma TableEntry(book: seq<Point>, sqrt: real -> real, x: seq<real>,
                   out: seq<seq<real>>, arg: seq<seq<nat>>, t: (nat, nat, nat))
    requires BookOf(book) && IsSqrt(sqrt) && |x| == 3 * SUB && Table(book, Columns(x), out, arg)
    requires Below(t, |Shells(book)|) && Scored(out, Shells(book), sqrt)
    ensures |arg| == |out| && |arg[t.0]| == |arg[t.1]| == |arg[t.2]| == 3
    ensures var i := (arg[t.0][0], arg[t.1][1], arg[t.2][2]);
            && IsChoice(book, i)
            && sqrt(ShellSum(book, i)) > 0.0
            && Score(out, Shells(book), sqrt, t) == Dots(book, x, i) / sqrt(ShellSum(book, i))
  {
    hide Dot, Real, Shells, Table, Columns, BookOf, IsSqrt;
    var xs := Columns(x);
    EntryOf(book, xs, out, arg, t.0, 0);
    EntryOf(book, xs, out, arg, t.1, 1);
    EntryOf(book, xs, out, arg, t.2, 2);
  }

  lemma EntryOf(book: seq<Point>, xs: seq<seq<real>>, out: seq<seq<real>>, arg: seq<seq<nat>>, a: nat, c: nat)
    requires BookOf(book) && forall k :: 0 <= k < |xs| ==> |xs[k]| == SUB
    requires Table(book, xs, out, arg) && a < |Shells(book)| && c < |xs|
    ensures |arg| == |out| == |Shells(book)| && |arg[a]| == |out[a]| == |xs|
    ensures arg[a][c] < |book| && Norm(book[arg[a][c]]) == Shells(book)[a]
    ensures out[a][c] == Dot(Real(book[arg[a][c]]), xs[c])
  {
    hide Shells, BestInShell, Dot, Real;
    assert Row(book, Shells(book)[a], xs, out[a], arg[a]);
  }

  lemma ShellRoots(book: seq<Point>, sqrt: real -> real, x: seq<real>, out: seq<seq<real>>, arg: seq<seq<nat>>)
    requires BookOf(book) && IsSqrt(sqrt) && |x| == 3 * SUB && Table(book, Columns(x), out, arg)
    ensures Shells(book) != [] && Scored(out, Shells(book), sqrt)
  {
    var s := Shells(book);
    forall a | 0 <= a < |s| ensures s[a] > 0 {
      assert s[a] in s;
    }
    assert Norm(book[0]) in s;
    hide Shells;
    forall a | 0 <= a < |out| ensures |out[a]| == 3 {
      assert Row(book, s[a], Columns(x), out[a], arg[a]);
    }
  }

  /** Every product point is covered by the triple of its shells. */
  lemma ScoreCovers(book: seq<Point>, sqrt: real -> real, x: seq<real>,
                    out: seq<seq<real>>, arg: seq<seq<nat>>, i: Choice) returns (t: (nat, nat, nat))
    requires BookOf(book) && IsSqrt(sqrt) && |x| == 3 * SUB && IsChoice(book, i)
    requires Table(book, Columns(x), out, arg) && Scored(out, Shells(book), sqrt)
    ensures Below(t, |Shells(book)|)
    ensures sqrt(ShellSum(book, i)) > 0.0
    ensures Dots(book, x, i) / sqrt(ShellSum(book, i)) <= Score(out, Shells(book), sqrt, t)
  {
    hide Dot, Real, Columns, BestInShell, Shells, Table, BookOf, IsSqrt;
    var xs := Columns(x);
    var a := ShellIndex(book, i.0);
    var b := ShellIndex(book, i.1);
    var c := ShellIndex(book, i.2);
    t := (a, b, c);
    InTable(book, xs, out, arg, a, 0, i.0);
    InTable(book, xs, out, arg, b, 1, i.1);
    InTable(book, xs, out, arg, c, 2, i.2);
    assert Below(t, |Shells(book)|);
    DivideOrder(Dots(book, x, i), out[a][0] + out[b][1] + out[c][2], sqrt(ShellSum(book, i)));
  }

  lemma DivideOrder(a: real, b: real, r: real)
    requires a <= b && r > 0.0
    ensures a / r <= b / r
  {
  }

  lemma ShellIndex(book: seq<Point>, i: nat) returns (a: nat)
    requires i < |book|
    ensures a < |Shells(book)| && Shells(book)[a] == Norm(book[i])
  {
    assert Norm(book[i]) in Shells(book);
    a :| 0 <= a < |Shells(book)| && Shells(book)[a] == Norm(book[i]);
  }

  lemma InTable(book: seq<Point>, xs: seq<seq<real>>, out: seq<seq<real>>, arg: seq<seq<nat>>,
                a: nat, c: nat, i: nat)
    requires BookOf(book) && forall k :: 0 <= k < |xs| ==> |xs[k]| == SUB
    requires Table(book, xs, out, arg) && a < |out| && c < |xs| && i < |book|
    requires Norm(book[i]) == Shells(book)[a]
    ensures |out[a]| == |xs| && Dot(Real(book[i]), xs[c]) <= out[a][c]
  {
    hide Shells, BestInShell, Dot, Real;
    assert Row(book, Shells(book)[a], xs, out[a], arg[a]);
    BestInShellIsBest(book, Shells(book)[a], xs[c], i);
  }

  // ----- what the search is worth -----

  /** A choice whose inner product with x no product point exceeds. */
  ghost predicate Maximal(book: seq<Point>, sqrt: real -> real, x: seq<real>, best: Choice)
    requires BookOf(book) && IsSqrt(sqrt) && |x| == 3 * SUB
  {
    IsChoice(book, best) &&
    forall i :: IsChoice(book, i) ==> Cosine(book, sqrt, x, i) <= Cosine(book, sqrt, x, best)
  }

  /** <x, u> for the unit vector u of a product point. */
  ghost function Cosine(book: seq<Point>, sqrt: real -> real, x: seq<real>, i: Choice): real
    requires BookOf(book) && IsSqrt(sqrt) && |x| == 3 * SUB && IsChoice(book, i)
  {
    ProductNorm(book, i);
    Dot(x, Unit(book, sqrt, i))
  }

  /** |x - g u|^2 */
  ghost function ErrorAt(book: seq<Point>, sqrt: real -> real, x: seq<real>, g: real, i: Choice): real
    requires BookOf(book) && IsSqrt(sqrt) && |x| == 3 * SUB && IsChoice(book, i)
  {
    ProductNorm(book, i);
    var e := Minus(x, Scale(Unit(book, sqrt, i), g));
    Dot(e, e)
  }

  /** The analytic error is the error of the assembled row. */
  lemma AnalyticError(book: seq<Point>, sqrt: real -> real, x: seq<real>, g: real, i: Choice)
    requires BookOf(book) && IsSqrt(sqrt) && |x| == 3 * SUB && IsChoice(book, i)
    ensures ErrorAt(book, sqrt, x, g, i) ==
            Dot(x, x) - 2.0 * Mul(g, Cosine(book, sqrt, x, i)) + Mul(g, g)
  {
    UnitFacts(book, sqrt, x, i);
    NormOfDifference(x, Unit(book, sqrt, i), g);
  }

  /** What the search finds is the joint maximum over the product codebook, it attains it, and its
      analytic error is the error of the row it assembles. */
  method SearchIsExact(book: seq<Point>, sqrt: real -> real, x: seq<real>, picked: real)
    returns (best: Choice, dot: real, error: real, rec: seq<real>)
    requires Checked(book) && IsSqrt(sqrt) && |x| == 3 * SUB
    ensures BookOf(book) && Maximal(book, sqrt, x, best)
    ensures dot == Cosine(book, sqrt, x, best)
    ensures error == ErrorAt(book, sqrt, x, picked, best)
    ensures |rec| == |x| && error == Dot(Minus(x, rec), Minus(x, rec))
  {
    CheckedBookIsPositive(book);
    best, dot, error, rec := Search(book, sqrt, x, picked);
    forall i | IsChoice(book, i)
      ensures Cosine(book, sqrt, x, i) == Dots(book, x, i) / sqrt(ShellSum(book, i))
    {
      UnitFacts(book, sqrt, x, i);
    }
    hide Dot, Dots;
    AnalyticError(book, sqrt, x, picked, best);
  }

  /** At any gain that is not negative the angular maximum is the nearest product point. */
  lemma MaximumIsNearest(book: seq<Point>, sqrt: real -> real, x: seq<real>, g: real, best: Choice, i: Choice)
    requires BookOf(book) && IsSqrt(sqrt) && |x| == 3 * SUB && g >= 0.0
    requires Maximal(book, sqrt, x, best) && IsChoice(book, i)
    ensures ErrorAt(book, sqrt, x, g, best) <= ErrorAt(book, sqrt, x, g, i)
  {
    AnalyticError(book, sqrt, x, g, best);
    AnalyticError(book, sqrt, x, g, i);
    GainOrder(g, Cosine(book, sqrt, x, i), Cosine(book, sqrt, x, best));
  }

  lemma GainOrder(g: real, a: real, b: real)
    requires g >= 0.0 && a <= b
    ensures Mul(g, a) <= Mul(g, b)
  {
  }
}
