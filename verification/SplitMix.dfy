/** The SplitMix64 stream (ops/gsm8k_vllm.py, `splitmix64`) and the mixer of the codebook
    fingerprint (llvq-artifact/src/codebook.rs, `mix`): one finaliser, masked in Python and
    wrapping in Rust. */
module SplitMix {
  import opened Words

  const GAMMA: nat := 0x9E37_79B9_7F4A_7C15
  const MUL1: nat := 0xBF58_476D_1CE4_E5B9
  const MUL2: nat := 0x94D0_49BB_1331_11EB

  // Inverses modulo 2^64.
  const GAMMA_INVERSE: nat := 0xF1DE_83E1_9937_733D
  const MUL1_INVERSE: nat := 0x96DE_1B17_3F11_9089
  const MUL2_INVERSE: nat := 0x3196_42B2_D24D_8EC3

  /** z ^ (z >> s) */
  function XorShift(z: nat, s: nat): nat {
    Xor(z, Shr(z, s))
  }

  /** Rust: `wrapping_mul` is multiplication modulo 2^64. */
  function Mix(z: nat): nat {
    var z1 := XorShift(z, 30) * MUL1 % WORD;
    var z2 := XorShift(z1, 27) * MUL2 % WORD;
    XorShift(z2, 31)
  }

  /** Python: unbounded products cut by `& U64`. */
  function MixMasked(z: nat): nat {
    var z1 := And(XorShift(z, 30) * MUL1, MASK);
    var z2 := And(XorShift(z1, 27) * MUL2, MASK);
    XorShift(z2, 31)
  }

  lemma MaskWraps(a: nat)
    ensures And(a, MASK) == a % WORD
  {
    Pow2At64();
    AndMask(a, 64);
  }

  /** The masked Python form and the wrapping Rust form compute the same word. */
  lemma MaskedIsWrapping(z: nat)
    ensures MixMasked(z) == Mix(z)
  {
    var z1 := XorShift(z, 30) * MUL1 % WORD;
    MaskWraps(XorShift(z, 30) * MUL1);
    MaskWraps(XorShift(z1, 27) * MUL2);
  }

  // ----- the finaliser is a bijection -----

  function UnXorShift(y: nat, s: nat): nat
    requires s > 0
  {
    if y == 0 then 0 else
    ShrSmaller(y, s);
    Xor(y, UnXorShift(Shr(y, s), s))
  }

  lemma {:induction false} UnXorShiftLeft(z: nat, s: nat)
    requires s > 0
    ensures UnXorShift(XorShift(z, s), s) == z
  {
    var y, w := XorShift(z, s), Shr(z, s);
    ShrXor(z, w, s);
    XorCancels(z, w);
    ShrSmaller(z, s);
    ShrSmaller(0, s);
    if z == 0 {
    } else {
      UnXorShiftLeft(w, s);
      XorZero(z);
    }
  }

  lemma {:induction false} UnXorShiftRight(y: nat, s: nat)
    requires s > 0
    ensures XorShift(UnXorShift(y, s), s) == y
  {
    if y == 0 {
      ShrSmaller(0, s);
      XorZero(0);
    } else {
      var t := Shr(y, s);
      ShrSmaller(y, s);
      UnXorShiftRight(t, s);
      var w := UnXorShift(t, s);
      ShrXor(y, w, s);
      XorCancels(w, Shr(w, s));
      XorSymmetric(w, Shr(w, s));
      XorCancels(Shr(w, s), w);
      assert t == Xor(w, Shr(w, s));
      assert Shr(Xor(y, w), s) == w;
      XorCancels(y, w);
    }
  }

  lemma {:induction false} UnXorShiftBound(y: nat, s: nat, k: nat)
    requires s > 0 && y < Pow2(k)
    ensures UnXorShift(y, s) < Pow2(k)
  {
    if y == 0 {
    } else {
      ShrSmaller(y, s);
      UnXorShiftBound(Shr(y, s), s, k);
      XorBound(y, UnXorShift(Shr(y, s), s), k);
    }
  }

  lemma XorShiftBound(z: word, s: nat)
    ensures XorShift(z, s) < WORD
  {
    Pow2At64();
    ShrSmaller(z, s);
    XorBound(z, Shr(z, s), 64);
  }

  lemma MixIsWord(z: nat)
    ensures Mix(z) < WORD
  {
    var z1 := XorShift(z, 30) * MUL1 % WORD;
    XorShiftBound(XorShift(z1, 27) * MUL2 % WORD, 31);
  }

  function Unmix(y: nat): nat {
    var z2 := UnXorShift(y, 31) * MUL2_INVERSE % WORD;
    var z1 := UnXorShift(z2, 27) * MUL1_INVERSE % WORD;
    UnXorShift(z1, 30)
  }

  lemma Inverses()
    ensures MUL1 * MUL1_INVERSE % WORD == 1 && MUL1_INVERSE * MUL1 % WORD == 1
    ensures MUL2 * MUL2_INVERSE % WORD == 1 && MUL2_INVERSE * MUL2 % WORD == 1
    ensures GAMMA * GAMMA_INVERSE % WORD == 1 && GAMMA_INVERSE * GAMMA % WORD == 1
  {
  }

  /** `Mix` is a bijection on 64-bit words: `Unmix` undoes it on both sides. */
  lemma MixIsBijective(z: word)
    ensures Mix(z) < WORD && Unmix(Mix(z)) == z
    ensures Unmix(z) < WORD && Mix(Unmix(z)) == z
  {
    MixIsWord(z);
    UnmixLeft(z);
    UnmixRight(z);
  }

  lemma UnmixLeft(z: word)
    ensures Unmix(Mix(z)) == z
  {
    hide XorShift, UnXorShift;
    Inverses();
    var a := XorShift(z, 30);
    var z1 := a * MUL1 % WORD;
    var b := XorShift(z1, 27);
    var z2 := b * MUL2 % WORD;
    XorShiftBound(z, 30);
    XorShiftBound(z1, 27);
    UnXorShiftLeft(z2, 31);
    MulUndone(b, MUL2, MUL2_INVERSE);
    UnXorShiftLeft(z1, 27);
    MulUndone(a, MUL1, MUL1_INVERSE);
    UnXorShiftLeft(z, 30);
  }

  lemma UnmixRight(y: word)
    ensures Unmix(y) < WORD && Mix(Unmix(y)) == y
  {
    hide XorShift, UnXorShift;
    Inverses();
    Pow2At64();
    var a := UnXorShift(y, 31);
    var z2 := a * MUL2_INVERSE % WORD;
    var b := UnXorShift(z2, 27);
    var z1 := b * MUL1_INVERSE % WORD;
    UnXorShiftBound(y, 31, 64);
    UnXorShiftBound(z2, 27, 64);
    UnXorShiftBound(z1, 30, 64);
    UnXorShiftRight(z1, 30);
    MulUndone(b, MUL1_INVERSE, MUL1);
    UnXorShiftRight(z2, 27);
    MulUndone(a, MUL2_INVERSE, MUL2);
    UnXorShiftRight(y, 31);
  }

  // ----- the stream -----

  /** The generator's state after `i` increments. */
  function State(seed: nat, i: nat): nat {
    if i == 0 then seed else And(State(seed, i - 1) + GAMMA, MASK)
  }

  /** The `i`-th value the generator yields, counting from 0. */
  function Draw(seed: nat, i: nat): nat {
    MixMasked(State(seed, i + 1))
  }

  /** The generator object: `next` advances the state and yields the finalised word. */
  class SplitMix64 {
    var state: nat

    constructor (seed: nat)
      ensures state == seed
    {
      state := seed;
    }

    method Next(ghost seed: nat, ghost i: nat) returns (out: nat)
      requires state == State(seed, i)
      modifies this
      ensures out == Draw(seed, i) && state == State(seed, i + 1)
    {
      state := And(state + GAMMA, MASK);
      var z := state;
      z := And(Xor(z, Shr(z, 30)) * MUL1, MASK);
      z := And(Xor(z, Shr(z, 27)) * MUL2, MASK);
      return Xor(z, Shr(z, 31));
    }
  }

  lemma {:induction false} StateIsLinear(seed: nat, i: nat)
    ensures i > 0 ==> State(seed, i) == (seed + i * GAMMA) % WORD
  {
    hide And;
    if i == 0 {
    } else {
      MaskWraps(State(seed, i - 1) + GAMMA);
      StateIsLinear(seed, i - 1);
      if i > 1 {
        var t := seed + (i - 1) * GAMMA;
        var k := t / WORD;
        assert t % WORD + GAMMA == t + GAMMA + (-k) * WORD;
        ModAddMultiple(t + GAMMA, -k);
      }
    }
  }

  /** Draws are equal exactly when they are a multiple of 2^64 apart, for every seed. */
  lemma DrawsRepeatOnlyAfterPeriod(seed: nat, i: nat, j: nat)
    requires i <= j
    ensures Draw(seed, i) == Draw(seed, j) <==> (j - i) % WORD == 0
  {
    hide Mix, MixMasked, Unmix;
    StateIsLinear(seed, i + 1);
    StateIsLinear(seed, j + 1);
    var s, t := State(seed, i + 1), State(seed, j + 1);
    MaskedIsWrapping(s);
    MaskedIsWrapping(t);
    MixIsBijective(s);
    MixIsBijective(t);
    SameState(seed, i + 1, j + 1);
  }

  /** seed + i * GAMMA repeats modulo 2^64 only with i, because GAMMA is odd. */
  lemma SameState(seed: nat, i: nat, j: nat)
    requires i <= j
    ensures (seed + i * GAMMA) % WORD == (seed + j * GAMMA) % WORD <==> (j - i) % WORD == 0
  {
    var a, b, d := seed + i * GAMMA, seed + j * GAMMA, j - i;
    assert b == a + d * GAMMA;
    if d % WORD == 0 {
      var k := d / WORD;
      assert d * GAMMA == k * GAMMA * WORD;
      ModAddMultiple(a, k * GAMMA);
    }
    if a % WORD == b % WORD {
      var k := b / WORD - a / WORD;
      assert d * GAMMA == k * WORD;
      ModAddMultiple(0, k);
      var r := d % WORD;
      var q := d / WORD;
      assert r * GAMMA == (k - q * GAMMA) * WORD + 0;
      ModAddMultiple(0, k - q * GAMMA);
      Inverses();
      MulUndone(r, GAMMA, GAMMA_INVERSE);
      assert r * GAMMA % WORD == 0;
    }
  }

  /** Within one period every 64-bit word is drawn. */
  lemma EveryWordIsDrawn(seed: nat, w: word) returns (i: nat)
    ensures i < WORD && Draw(seed, i) == w
  {
    hide Mix, MixMasked, Unmix, State;
    MixIsBijective(w);
    i := StepsTo(seed, Unmix(w));
    StateIsLinear(seed, i + 1);
    MaskedIsWrapping(State(seed, i + 1));
  }

  /** How many increments, less one, lead from the seed to the state `target`. */
  lemma StepsTo(seed: nat, target: word) returns (i: nat)
    ensures i < WORD && (seed + (i + 1) * GAMMA) % WORD == target
  {
    var gap: nat := (target - seed - GAMMA) % WORD;
    i := gap * GAMMA_INVERSE % WORD;
    Inverses();
    MulUndone(gap, GAMMA_INVERSE, GAMMA);
    var k := i * GAMMA / WORD;
    var m := (target - seed - GAMMA) / WORD;
    assert seed + (i + 1) * GAMMA == target + (k - m) * WORD;
    ModAddMultiple(target, k - m);
  }
}
