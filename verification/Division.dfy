/** Integer division by quotient and remainder. */
module Division {

  lemma MulFar(g: nat, d: int)
    ensures d >= 1 ==> g * d >= g
    ensures d <= -1 ==> g * d + g <= 0
  {
    if d >= 1 {
      assert g * (d - 1) >= 0;
    } else if d <= -1 {
      assert g * (-d - 1) >= 0;
    }
  }

  lemma DivUnique(g: nat, q: int, r: nat)
    requires r < g
    ensures (g * q + r) / g == q && (g * q + r) % g == r
  {
    var a := g * q + r;
    assert a == g * (a / g) + a % g;
    assert g * (a / g - q) == r - a % g;
    MulFar(g, a / g - q);
  }

  lemma Distribute(p: nat, a: nat, b: nat)
    ensures p * (a + b) == p * a + p * b
  {
  }

  lemma DivAdd(low: nat, p: nat, m: nat)
    requires p > 0
    ensures (low + p * m) / p == low / p + m
  {
    var q, r := low / p, low % p;
    assert low == p * q + r;
    Distribute(p, q, m);
    DivUnique(p, q + m, r);
  }
}
