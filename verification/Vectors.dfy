/** Inner products of real vectors. */
module Vectors {
  import opened RealSeq

  function Dot(a: seq<real>, b: seq<real>): real
    requires |a| == |b|
  {
    if a == [] then 0.0 else Dot(a[..|a| - 1], b[..|b| - 1]) + Mul(a[|a| - 1], b[|b| - 1])
  }

  function Scale(v: seq<real>, k: real): (r: seq<real>)
    ensures |r| == |v|
  {
    seq(|v|, i requires 0 <= i < |v| => Mul(v[i], k))
  }

  function Minus(a: seq<real>, b: seq<real>): (r: seq<real>)
    requires |a| == |b|
    ensures |r| == |a|
  {
    seq(|a|, i requires 0 <= i < |a| => a[i] - b[i])
  }

  lemma {:induction false} DotConcat(a: seq<real>, b: seq<real>, c: seq<real>, d: seq<real>)
    requires |a| == |c| && |b| == |d|
    ensures Dot(a + b, c + d) == Dot(a, c) + Dot(b, d)
  {
    if b == [] {
      assert a + b == a && c + d == c;
    } else {
      assert (a + b)[..|a + b| - 1] == a + b[..|b| - 1];
      assert (c + d)[..|c + d| - 1] == c + d[..|d| - 1];
      DotConcat(a, b[..|b| - 1], c, d[..|d| - 1]);
    }
  }

  lemma {:induction false} DotScale(a: seq<real>, b: seq<real>, k: real)
    requires |a| == |b|
    ensures Dot(a, Scale(b, k)) == Mul(Dot(a, b), k)
  {
    if a == [] {
      MulByZero(k);
    } else {
      hide Mul;
      var n := |a| - 1;
      DotScale(a[..n], b[..n], k);
      assert Scale(b, k)[..n] == Scale(b[..n], k);
      DotScaleStep(Dot(a[..n], b[..n]), a[n], b[n], k);
    }
  }

  lemma MulByZero(k: real)
    ensures Mul(0.0, k) == 0.0 == Mul(k, 0.0)
  {
  }

  lemma DotScaleStep(d: real, x: real, y: real, k: real)
    ensures Mul(d, k) + Mul(x, Mul(y, k)) == Mul(d + Mul(x, y), k)
  {
  }

  /** The inner product does not depend on the order of its arguments. */
  lemma {:induction false} DotSymmetric(a: seq<real>, b: seq<real>)
    requires |a| == |b|
    ensures Dot(a, b) == Dot(b, a)
  {
    if a == [] {
    } else {
      DotSymmetric(a[..|a| - 1], b[..|b| - 1]);
    }
  }

  /** |x - g u|^2 expanded. */
  lemma {:induction false} NormOfDifference(x: seq<real>, u: seq<real>, g: real)
    requires |x| == |u|
    ensures var e := Minus(x, Scale(u, g));
            Dot(e, e) == Dot(x, x) - 2.0 * Mul(g, Dot(x, u)) + Mul(Mul(g, g), Dot(u, u))
  {
    if x == [] {
      MulByZero(g);
      MulByZero(Mul(g, g));
    } else {
      hide Mul;
      var n := |x| - 1;
      NormOfDifference(x[..n], u[..n], g);
      assert Minus(x, Scale(u, g))[..n] == Minus(x[..n], Scale(u[..n], g));
      DifferenceStep(Dot(x[..n], u[..n]), Dot(u[..n], u[..n]), x[n], u[n], g);
    }
  }

  lemma DifferenceStep(xu: real, uu: real, x: real, u: real, g: real)
    ensures Mul(x - Mul(u, g), x - Mul(u, g)) - 2.0 * Mul(g, xu) + Mul(Mul(g, g), uu) ==
            Mul(x, x) - 2.0 * Mul(g, xu + Mul(x, u)) + Mul(Mul(g, g), uu + Mul(u, u))
  {
    assert (u * g) * (u * g) == (g * g) * (u * u);
    assert x * (u * g) == g * (x * u);
  }
}
