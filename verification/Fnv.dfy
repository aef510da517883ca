/** FNV-1a, 64 bits: the hasher of the codebook fingerprint (llvq-artifact/src/codebook.rs) and the
    token fingerprint of the two scorers (ops/gsm8k_vllm.py, ops/vllm_score.py). */
module Fnv1a {
  import opened Basics
  import opened Division
  import opened Words
  import opened SplitMix

  const FNV_OFFSET: nat := 0xCBF2_9CE4_8422_2325
  const FNV_PRIME: nat := 0x0000_0100_0000_01B3
  const FNV_PRIME_INVERSE: nat := 0xCE96_5057_AFF6_957B

  /** One byte: exclusive or, then a multiplication that wraps. */
  function Absorb(h: nat, b: nat): (r: nat)
    ensures r < WORD
  {
    Xor(h, b) * FNV_PRIME % WORD
  }

  function Digest(h: nat, bytes: seq<byte>): nat {
    if bytes == [] then h else Absorb(Digest(h, bytes[..|bytes| - 1]), bytes[|bytes| - 1])
  }

  /** `n` bytes of `v`, least significant first; higher bits are cut. */
  function LittleEndian(v: nat, n: nat): (bs: seq<byte>)
    ensures |bs| == n
  {
    if n == 0 then [] else [v % 256] + LittleEndian(v / 256, n - 1)
  }

  function FromLittleEndian(bs: seq<byte>): nat {
    if bs == [] then 0 else bs[0] + 256 * FromLittleEndian(bs[1..])
  }

  /** The Rust hasher. */
  class Fnv {
    var h: nat

    constructor ()
      ensures h == FNV_OFFSET
    {
      h := FNV_OFFSET;
    }

    method Byte(b: byte)
      modifies this
      ensures h == Absorb(old(h), b)
    {
      h := Xor(h, b);
      h := h * FNV_PRIME % WORD;
    }

    method Bytes(bs: seq<byte>)
      modifies this
      ensures h == Digest(old(h), bs)
    {
      for i := 0 to |bs|
        invariant h == Digest(old(h), bs[..i])
      {
        Byte(bs[i]);
        assert bs[..i + 1][..i] == bs[..i];
      }
      assert bs[..|bs|] == bs;
    }

    method U64(v: word)
      modifies this
      ensures h == Digest(old(h), LittleEndian(v, 8))
    {
      Bytes(LittleEndian(v, 8));
    }

    /** A signed 32-bit value is absorbed as its two's complement. */
    method I32(v: int)
      requires -0x8000_0000 <= v < 0x8000_0000
      modifies this
      ensures h == Digest(old(h), LittleEndian(v % 0x1_0000_0000, 4))
    {
      Bytes(LittleEndian(v % 0x1_0000_0000, 4));
    }
  }

  // ----- one step permutes the states -----

  /** The state before `b` was absorbed. */
  function Unabsorb(h: nat, b: nat): nat {
    Xor(h * FNV_PRIME_INVERSE % WORD, b)
  }

  lemma XorByteBound(h: word, b: byte)
    ensures Xor(h, b) < WORD
  {
    Pow2At64();
    XorBound(h, b, 64);
  }

  /** For a fixed byte the step is a permutation of the 64-bit states, undone by `Unabsorb`. */
  lemma AbsorbPermutesStates(h: word, b: byte)
    ensures Unabsorb(Absorb(h, b), b) == h
    ensures Unabsorb(h, b) < WORD && Absorb(Unabsorb(h, b), b) == h
  {
    assert FNV_PRIME * FNV_PRIME_INVERSE % WORD == 1 == FNV_PRIME_INVERSE * FNV_PRIME % WORD;
    XorByteBound(h, b);
    MulUndone(Xor(h, b), FNV_PRIME, FNV_PRIME_INVERSE);
    XorCancels(h, b);
    MulUndone(h, FNV_PRIME_INVERSE, FNV_PRIME);
    var t := h * FNV_PRIME_INVERSE % WORD;
    XorByteBound(t, b);
    XorCancels(t, b);
  }

  /** For a fixed state the step is injective in the byte. */
  lemma AbsorbInjectiveInByte(h: word, a: byte, b: byte)
    requires Absorb(h, a) == Absorb(h, b)
    ensures a == b
  {
    assert FNV_PRIME * FNV_PRIME_INVERSE % WORD == 1;
    XorByteBound(h, a);
    XorByteBound(h, b);
    MulUndone(Xor(h, a), FNV_PRIME, FNV_PRIME_INVERSE);
    MulUndone(Xor(h, b), FNV_PRIME, FNV_PRIME_INVERSE);
    XorSymmetric(h, a);
    XorSymmetric(h, b);
    XorCancels(a, h);
    XorCancels(b, h);
  }

  lemma DigestConcat(h: nat, a: seq<byte>, b: seq<byte>)
    ensures Digest(h, a + b) == Digest(Digest(h, a), b)
  {
    if b == [] {
      assert a + b == a;
    } else {
      assert (a + b)[..|a + b| - 1] == a + b[..|b| - 1];
      DigestConcat(h, a, b[..|b| - 1]);
    }
  }

  lemma DigestIsWord(h: word, bs: seq<byte>)
    ensures Digest(h, bs) < WORD
  {
  }

  /** Absorbing the same bytes keeps two states equal or keeps them apart. */
  lemma {:induction false} SameBytesKeepApart(g: word, h: word, bs: seq<byte>)
    ensures Digest(g, bs) == Digest(h, bs) <==> g == h
  {
    if bs == [] {
    } else {
      var t, b := bs[..|bs| - 1], bs[|bs| - 1];
      SameBytesKeepApart(g, h, t);
      DigestIsWord(g, t);
      DigestIsWord(h, t);
      AbsorbPermutesStates(Digest(g, t), b);
      AbsorbPermutesStates(Digest(h, t), b);
    }
  }

  /** A common suffix neither creates nor removes a collision. */
  lemma CommonSuffix(a: seq<byte>, b: seq<byte>, suffix: seq<byte>)
    ensures Digest(FNV_OFFSET, a + suffix) == Digest(FNV_OFFSET, b + suffix) <==>
            Digest(FNV_OFFSET, a) == Digest(FNV_OFFSET, b)
  {
    DigestConcat(FNV_OFFSET, a, suffix);
    DigestConcat(FNV_OFFSET, b, suffix);
    DigestIsWord(FNV_OFFSET, a);
    DigestIsWord(FNV_OFFSET, b);
    SameBytesKeepApart(Digest(FNV_OFFSET, a), Digest(FNV_OFFSET, b), suffix);
  }

  /** Streams of one length that differ in exactly one byte never share a digest. */
  lemma OneByteChangesDigest(a: seq<byte>, b: seq<byte>, k: nat)
    requires |a| == |b| && k < |a| && a[k] != b[k]
    requires forall i :: 0 <= i < |a| && i != k ==> a[i] == b[i]
    ensures Digest(FNV_OFFSET, a) != Digest(FNV_OFFSET, b)
  {
    var prefix, suffix := a[..k], a[k + 1..];
    assert a == prefix + [a[k]] + suffix;
    assert b == prefix + [b[k]] + suffix;
    CommonSuffix(prefix + [a[k]], prefix + [b[k]], suffix);
    assert (prefix + [a[k]])[..k] == prefix == (prefix + [b[k]])[..k];
    DigestIsWord(FNV_OFFSET, prefix);
    if Absorb(Digest(FNV_OFFSET, prefix), a[k]) == Absorb(Digest(FNV_OFFSET, prefix), b[k]) {
      AbsorbInjectiveInByte(Digest(FNV_OFFSET, prefix), a[k], b[k]);
    }
  }

  // ----- integers as bytes -----

  lemma {:induction false} LittleEndianInverse(v: nat, n: nat)
    ensures FromLittleEndian(LittleEndian(v, n)) == v % Pow2(8 * n)
  {
    if n == 0 {
      assert v % 1 == 0;
    } else {
      LittleEndianInverse(v / 256, n - 1);
      var bs := LittleEndian(v, n);
      assert bs[1..] == LittleEndian(v / 256, n - 1);
      Pow2Add(8 * n - 8, 8);
      assert Pow2(8) == 256;
      ByteMod(v, Pow2(8 * n - 8));
    }
  }

  lemma ByteMod(v: nat, p: nat)
    requires p > 0
    ensures v % (256 * p) == v % 256 + 256 * (v / 256 % p)
  {
    var q, r := v / 256 / p, v / 256 % p;
    assert v / 256 == p * q + r;
    assert 256 * (p * q + r) == 256 * p * q + 256 * r;
    DivUnique(256 * p, q, 256 * r + v % 256);
  }

  // ----- the token fingerprint of the Python scorers -----

  /** One byte in Python: an unbounded product, cut by the mask. */
  function AbsorbMasked(h: nat, b: nat): nat {
    And(Xor(h, b) * FNV_PRIME, MASK)
  }

  function DigestMasked(h: nat, bytes: seq<byte>): nat {
    if bytes == [] then h else AbsorbMasked(DigestMasked(h, bytes[..|bytes| - 1]), bytes[|bytes| - 1])
  }

  /** The masked form and the wrapping form agree on every byte string, from every state. */
  lemma {:induction false} MaskedDigestIsWrapping(h: nat, bytes: seq<byte>)
    ensures DigestMasked(h, bytes) == Digest(h, bytes)
  {
    hide And, Xor;
    if bytes == [] {
    } else {
      var t := bytes[..|bytes| - 1];
      MaskedDigestIsWrapping(h, t);
      MaskWraps(Xor(Digest(h, t), bytes[|bytes| - 1]) * FNV_PRIME);
    }
  }

  function TokenBytes(ids: seq<int>): (bs: seq<byte>)
    ensures |bs| == 4 * |ids|
    requires forall k :: 0 <= k < |ids| ==> 0 <= ids[k] < 0x1_0000_0000
  {
    if ids == [] then []
    else TokenBytes(ids[..|ids| - 1]) + LittleEndian(ids[|ids| - 1], 4)
  }

  /** Python's masked loop gives the digest the wrapping hasher gives on the same bytes; None where a token
      does not fit four bytes. */
  method TokenFingerprint(ids: seq<int>) returns (r: Option<nat>)
    ensures r.None? <==> exists k :: 0 <= k < |ids| && !(0 <= ids[k] < 0x1_0000_0000)
    ensures r.Some? ==> r.value == Digest(FNV_OFFSET, TokenBytes(ids))
  {
    var h := FNV_OFFSET;
    for i := 0 to |ids|
      invariant forall k :: 0 <= k < i ==> 0 <= ids[k] < 0x1_0000_0000
      invariant h == Digest(FNV_OFFSET, TokenBytes(ids[..i]))
    {
      if !(0 <= ids[i] < 0x1_0000_0000) {
        return None;
      }
      ghost var before := h;
      var bs := LittleEndian(ids[i], 4);
      for j := 0 to 4
        invariant h == DigestMasked(before, bs[..j])
      {
        h := And(Xor(h, bs[j]) * FNV_PRIME, MASK);
        assert bs[..j + 1][..j] == bs[..j];
      }
      assert bs[..4] == bs;
      MaskedDigestIsWrapping(before, bs);
      assert ids[..i + 1][..i] == ids[..i];
      DigestConcat(FNV_OFFSET, TokenBytes(ids[..i]), bs);
    }
    assert ids[..|ids|] == ids;
    return Some(h);
  }

  ghost predicate AreTokens(ids: seq<int>) {
    forall k :: 0 <= k < |ids| ==> 0 <= ids[k] < 0x1_0000_0000
  }

  lemma {:induction false} TokenBytesConcat(a: seq<int>, b: seq<int>)
    requires AreTokens(a) && AreTokens(b)
    ensures AreTokens(a + b) && TokenBytes(a + b) == TokenBytes(a) + TokenBytes(b)
  {
    if b == [] {
      assert a + b == a;
    } else {
      assert (a + b)[..|a + b| - 1] == a + b[..|b| - 1];
      TokenBytesConcat(a, b[..|b| - 1]);
    }
  }

  /** Changing one token in a single byte always changes the fingerprint. */
  lemma OneTokenByteChangesFingerprint(before: seq<int>, a: int, b: int, after: seq<int>, k: nat)
    requires AreTokens(before) && AreTokens([a]) && AreTokens([b]) && AreTokens(after) && k < 4
    requires TokenBytes([a])[k] != TokenBytes([b])[k]
    requires forall i :: 0 <= i < 4 && i != k ==> TokenBytes([a])[i] == TokenBytes([b])[i]
    ensures AreTokens(before + [a] + after) && AreTokens(before + [b] + after)
    ensures Digest(FNV_OFFSET, TokenBytes(before + [a] + after)) !=
            Digest(FNV_OFFSET, TokenBytes(before + [b] + after))
  {
    TokenBytesConcat(before, [a]);
    TokenBytesConcat(before, [b]);
    TokenBytesConcat(before + [a], after);
    TokenBytesConcat(before + [b], after);
    var p := |TokenBytes(before)|;
    OneByteChangesDigest(TokenBytes(before + [a] + after), TokenBytes(before + [b] + after), p + k);
  }
}
