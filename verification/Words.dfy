/** Bit operations on the unbounded non-negative integers of Python, and the 64-bit words of Rust
    inside them. */
module Words {
  import opened Division

  const WORD: nat := 0x1_0000_0000_0000_0000
  const MASK: nat := 0xFFFF_FFFF_FFFF_FFFF

  type word = w: nat | w < WORD
  type byte = b: nat | b < 256

  function Pow2(k: nat): (p: nat)
    ensures p > 0
  {
    if k == 0 then 1 else 2 * Pow2(k - 1)
  }

  function Xor(a: nat, b: nat): nat
    decreases a + b
  {
    if a == 0 && b == 0 then 0
    else 2 * Xor(a / 2, b / 2) + if a % 2 != b % 2 then 1 else 0
  }

  function And(a: nat, b: nat): nat {
    if a == 0 then 0
    else 2 * And(a / 2, b / 2) + if a % 2 == 1 && b % 2 == 1 then 1 else 0
  }

  function Or(a: nat, b: nat): nat
    decreases a + b
  {
    if a == 0 && b == 0 then 0
    else 2 * Or(a / 2, b / 2) + if a % 2 == 1 || b % 2 == 1 then 1 else 0
  }

  /** `a >> s`. */
  function Shr(a: nat, s: nat): nat {
    if s == 0 then a else Shr(a / 2, s - 1)
  }

  /** `a << s`. */
  function Shl(a: nat, s: nat): nat {
    a * Pow2(s)
  }

  // ----- exclusive or -----

  lemma {:induction false} XorZero(a: nat)
    ensures Xor(a, 0) == a == Xor(0, a)
  {
    if a == 0 {
    } else {
      XorZero(a / 2);
    }
  }

  lemma {:induction false} XorSelf(a: nat)
    ensures Xor(a, a) == 0
  {
    if a == 0 {
    } else {
      XorSelf(a / 2);
    }
  }

  /** The same mask twice gives the word back. */
  lemma {:induction false} XorCancels(a: nat, b: nat)
    ensures Xor(Xor(a, b), b) == a
    decreases a + b
  {
    if a == 0 && b == 0 {
    } else {
      XorCancels(a / 2, b / 2);
      assert Xor(a, b) / 2 == Xor(a / 2, b / 2);
    }
  }

  lemma {:induction false} XorSymmetric(a: nat, b: nat)
    ensures Xor(a, b) == Xor(b, a)
    decreases a + b
  {
    if a == 0 && b == 0 {
    } else {
      XorSymmetric(a / 2, b / 2);
    }
  }

  lemma {:induction false} XorBound(a: nat, b: nat, k: nat)
    requires a < Pow2(k) && b < Pow2(k)
    ensures Xor(a, b) < Pow2(k)
  {
    if a == 0 && b == 0 {
    } else {
      XorBound(a / 2, b / 2, k - 1);
    }
  }

  /** A shift by s divides by 2^s. */
  lemma {:induction false} ShrDivides(a: nat, s: nat)
    ensures Shr(a, s) == a / Pow2(s)
  {
    if s == 0 {
    } else {
      ShrDivides(a / 2, s - 1);
      HalfMod(a, Pow2(s - 1));
    }
  }

  /** Shifting right distributes over exclusive or. */
  lemma {:induction false} ShrXor(a: nat, b: nat, s: nat)
    ensures Shr(Xor(a, b), s) == Xor(Shr(a, s), Shr(b, s))
  {
    if s == 0 {
    } else {
      assert Xor(a, b) / 2 == Xor(a / 2, b / 2);
      ShrXor(a / 2, b / 2, s - 1);
    }
  }

  lemma {:induction false} ShrSmaller(a: nat, s: nat)
    ensures Shr(a, s) <= a
    ensures s > 0 && a > 0 ==> Shr(a, s) < a
  {
    if s == 0 {
    } else {
      ShrSmaller(a / 2, s - 1);
    }
  }

  // ----- masks and disjoint fields -----

  /** Masking with 2^k - 1 is the remainder modulo 2^k: Python's `& U64` is Rust's wrap-around. */
  lemma {:induction false} AndMask(a: nat, k: nat)
    ensures And(a, Pow2(k) - 1) == a % Pow2(k)
  {
    if k == 0 {
      AndZero(a);
    } else {
      AndMask(a / 2, k - 1);
      AndMaskStep(a, Pow2(k - 1));
    }
  }

  lemma AndMaskStep(a: nat, p: nat)
    requires p > 0 && And(a / 2, p - 1) == a / 2 % p
    ensures And(a, 2 * p - 1) == a % (2 * p)
  {
    assert (2 * p - 1) / 2 == p - 1 && (2 * p - 1) % 2 == 1;
    HalfMod(a, p);
  }

  lemma HalfMod(a: nat, p: nat)
    requires p > 0
    ensures a % (2 * p) == 2 * (a / 2 % p) + a % 2
    ensures a / (2 * p) == a / 2 / p
  {
    var q, r := (a / 2) / p, (a / 2) % p;
    assert a / 2 == p * q + r;
    assert a == (2 * p) * q + (2 * r + a % 2) by {
      assert a == 2 * (p * q + r) + a % 2;
    }
    DivUnique(2 * p, q, 2 * r + a % 2);
  }

  lemma {:induction false} AndZero(a: nat)
    ensures And(a, 0) == 0
  {
    if a == 0 {
    } else {
      AndZero(a / 2);
    }
  }

  /** Fields that do not overlap are added by or. */
  lemma {:induction false} OrDisjoint(a: nat, b: nat, k: nat)
    requires a < Pow2(k)
    ensures Or(a, Shl(b, k)) == a + Shl(b, k)
  {
    if k == 0 {
      OrZero(b);
    } else {
      var p := Pow2(k - 1);
      assert Shl(b, k) == 2 * (b * p) by {
        assert b * (2 * p) == 2 * (b * p);
      }
      assert Shl(b, k) / 2 == Shl(b, k - 1) && Shl(b, k) % 2 == 0;
      OrDisjoint(a / 2, b, k - 1);
    }
  }

  lemma {:induction false} OrZero(a: nat)
    ensures Or(0, a) == a
  {
    if a == 0 {
    } else {
      OrZero(a / 2);
    }
  }

  lemma Pow2At4()
    ensures Pow2(4) == 16
  {
  }

  lemma Pow2At32()
    ensures Pow2(32) == 0x1_0000_0000
  {
    hide Pow2;
    Pow2At4();
    Pow2Add(4, 4);
    Pow2Add(8, 8);
    Pow2Add(16, 16);
  }

  lemma Pow2At64()
    ensures Pow2(64) == WORD == MASK + 1
  {
    hide Pow2;
    Pow2At32();
    Pow2Add(32, 32);
  }

  lemma {:induction false} Pow2Add(a: nat, b: nat)
    ensures Pow2(a + b) == Pow2(a) * Pow2(b)
  {
    if b == 0 {
    } else {
      Pow2Add(a, b - 1);
      MulDouble(Pow2(a), Pow2(b - 1));
    }
  }

  lemma MulDouble(a: nat, p: nat)
    ensures a * (2 * p) == 2 * (a * p)
  {
  }

  // ----- multiplication modulo 2^64 -----

  lemma ModAddMultiple(a: int, k: int)
    ensures (a + k * WORD) % WORD == a % WORD
  {
  }

  lemma MulFacts(x: int, c: int, d: int, q: int, k: int)
    ensures (x * c - q * WORD) * d == x * c * d - q * d * WORD
    ensures x * c * d == x * (c * d)
    ensures x * (k * WORD + 1) == x * k * WORD + x
    ensures (x * k - q * d) * WORD == x * k * WORD - q * d * WORD
  {
    assert (x * c - q * WORD) * d == x * c * d - q * WORD * d;
    assert q * WORD * d == q * d * WORD;
  }

  /** An odd constant with inverse `d` is undone by `d`. */
  lemma MulUndone(x: word, c: nat, d: nat)
    requires c * d % WORD == 1
    ensures x * c % WORD * d % WORD == x
  {
    var q, k := x * c / WORD, c * d / WORD;
    MulFacts(x, c, d, q, k);
    Reassembled(x, x * c % WORD * d, x * k - q * d);
  }

  lemma Reassembled(x: word, a: int, m: int)
    requires a == x + m * WORD
    ensures a % WORD == x
  {
    ModAddMultiple(x, m);
  }
}
