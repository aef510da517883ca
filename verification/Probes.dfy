/** What the codebook fingerprint absorbs of the decoder (llvq-artifact/src/codebook.rs, `probe` and the
    probe positions of `compute`): each probed index and the point it decodes to. The decoder itself
    is any function from indices to points. */
module Probes {
  import opened Basics
  import opened Words
  import opened SplitMix
  import opened Fnv1a

  const DIM: nat := 24
  const SCRAMBLED_PROBES: nat := 2

  predicate Int32s(p: seq<int>) {
    forall k :: 0 <= k < |p| ==> -0x8000_0000 <= p[k] < 0x8000_0000
  }

  type Point = p: seq<int> | |p| == DIM && Int32s(p) witness seq(DIM, _ => 0)

  /** None where the codebook refuses the index. */
  type Decoder = nat -> Option<Point>

  // ----- where a class is probed -----

  /** The k-th scrambled position of class `ci`. */
  function Scrambled(ci: nat, lo: nat, hi: nat, k: nat): nat
    requires lo <= hi
  {
    lo + Mix(Xor(ci, Mix(k))) % (hi - lo + 1)
  }

  /** `lo + card * num / 4`, the last index, and two scrambled positions: every probe is an index of the
      class, its first and its last among them. */
  method ClassProbes(ci: word, lo: word, hi: word) returns (at: seq<nat>)
    requires lo <= hi && 3 * (hi - lo + 1) < WORD
    ensures |at| == 5 + SCRAMBLED_PROBES
    ensures forall i :: 0 <= i < |at| ==> lo <= at[i] <= hi
    ensures at[0] == lo && at[4] == hi
    ensures forall k :: 0 <= k < 4 ==> AtQuarter(k, at[k] - lo, hi - lo + 1)
    ensures forall k: nat :: k < SCRAMBLED_PROBES ==> at[5 + k] == Scrambled(ci, lo, hi, k)
  {
    hide Scrambled;
    var card := hi - lo + 1;
    at := [];
    for num := 0 to 4
      invariant |at| == num
      invariant forall k :: 0 <= k < num ==> lo <= at[k] <= hi
      invariant forall k :: 0 <= k < num ==> AtQuarter(k, at[k] - lo, card)
    {
      Quarter(card, num);
      at := at + [lo + card * num / 4];
    }
    at := at + [hi];
    for k := 0 to SCRAMBLED_PROBES
      invariant |at| == 5 + k && at[4] == hi
      invariant forall i :: 0 <= i < |at| ==> lo <= at[i] <= hi
      invariant forall i :: 0 <= i < 4 ==> AtQuarter(i, at[i] - lo, card)
      invariant forall i: nat :: i < k ==> at[5 + i] == Scrambled(ci, lo, hi, i)
    {
      ScrambledMeans(ci, lo, hi, k);
      at := at + [Scrambled(ci, lo, hi, k)];
    }
  }

  /** It is an index of the class, at the distance from the first that the mixer gives, modulo the class size. */
  lemma ScrambledMeans(ci: nat, lo: nat, hi: nat, k: nat)
    requires lo <= hi
    ensures lo <= Scrambled(ci, lo, hi, k) <= hi
    ensures Scrambled(ci, lo, hi, k) - lo == Mix(Xor(ci, Mix(k))) % (hi - lo + 1)
  {
    hide Mix, Xor;
  }

  /** q is k quarters of card, rounded down. */
  ghost predicate AtQuarter(k: int, q: int, card: int) {
    4 * q <= k * card < 4 * q + 4
  }

  lemma Quarter(card: nat, num: nat)
    requires card > 0 && num < 4
    ensures card * num / 4 < card && AtQuarter(num, card * num / 4, card)
  {
    assert card * num <= card * 3;
  }

  // ----- what a probe absorbs -----

  /** Two's complement, little-endian. */
  function IntBytes(v: int): (bs: seq<byte>)
    ensures |bs| == 4
  {
    LittleEndian(v % 0x1_0000_0000, 4)
  }

  function PointBytes(p: seq<int>): (bs: seq<byte>)
    ensures |bs| == 4 * |p|
  {
    if p == [] then [] else PointBytes(p[..|p| - 1]) + IntBytes(p[|p| - 1])
  }

  function ProbeBytes(decode: Decoder, idx: nat): seq<byte> {
    LittleEndian(idx, 8) +
    match decode(idx)
    case Some(p) => [1] + PointBytes(p)
    case None => [0]
  }

  /** The bytes of a list of probes. */
  ghost function Stream(decode: Decoder, at: seq<nat>): seq<byte> {
    if at == [] then [] else ProbeBytes(decode, at[0]) + Stream(decode, at[1..])
  }

  method Probe(h: Fnv, decode: Decoder, idx: word)
    modifies h
    ensures h.h == Digest(old(h.h), ProbeBytes(decode, idx))
  {
    hide Digest, LittleEndian, PointBytes;
    ghost var start, head := h.h, LittleEndian(idx, 8);
    h.U64(idx);
    match decode(idx)
    case Some(p) =>
      h.Byte(1);
      DigestOne(Digest(start, head), 1);
      Coordinates(h, p);
      DigestConcat(Digest(start, head), [1], PointBytes(p));
      DigestConcat(start, head, [1] + PointBytes(p));
    case None =>
      h.Byte(0);
      DigestOne(Digest(start, head), 0);
      DigestConcat(start, head, [0]);
  }

  /** The probes of a list, one after the other. */
  method ProbeAll(h: Fnv, decode: Decoder, at: seq<word>)
    modifies h
    ensures h.h == Digest(old(h.h), Stream(decode, at))
  {
    hide ProbeBytes;
    for i := 0 to |at|
      invariant Digest(h.h, Stream(decode, at[i..])) == Digest(old(h.h), Stream(decode, at))
    {
      assert at[i..][0] == at[i] && at[i..][1..] == at[i + 1..];
      DigestConcat(h.h, ProbeBytes(decode, at[i]), Stream(decode, at[i + 1..]));
      Probe(h, decode, at[i]);
    }
    assert at[|at|..] == [];
  }

  method Coordinates(h: Fnv, p: Point)
    modifies h
    ensures h.h == Digest(old(h.h), PointBytes(p))
  {
    hide LittleEndian;
    assert p[..0] == [];
    for k := 0 to DIM
      invariant h.h == Digest(old(h.h), PointBytes(p[..k]))
    {
      h.I32(p[k]);
      assert p[..k + 1][..k] == p[..k];
      DigestConcat(old(h.h), PointBytes(p[..k]), IntBytes(p[k]));
    }
    assert p[..DIM] == p;
  }

  lemma DigestOne(h: nat, b: byte)
    ensures Digest(h, [b]) == Absorb(h, b)
  {
    assert [b][..0] == [];
  }

  // ----- the stream determines what was probed -----

  lemma WordOfInt(v: int, w: int)
    requires Int32s([v]) && Int32s([w]) && IntBytes(v) == IntBytes(w)
    ensures v == w
  {
    hide LittleEndian;
    assert [v][0] == v && [w][0] == w;
    LittleEndianInverse(v % 0x1_0000_0000, 4);
    LittleEndianInverse(w % 0x1_0000_0000, 4);
    Pow2At32();
    hide Pow2;
    SameResidue(v, w);
  }

  lemma SameResidue(v: int, w: int)
    requires -0x8000_0000 <= v < 0x8000_0000 && -0x8000_0000 <= w < 0x8000_0000
    requires v % 0x1_0000_0000 % 0x1_0000_0000 == w % 0x1_0000_0000 % 0x1_0000_0000
    ensures v == w
  {
  }

  lemma {:induction false} PointOfBytes(p: seq<int>, q: seq<int>)
    requires |p| == |q| && Int32s(p) && Int32s(q) && PointBytes(p) == PointBytes(q)
    ensures p == q
  {
    hide IntBytes, Int32s;
    if p == [] {
    } else {
      var n := |p| - 1;
      Int32sParts(p, n);
      Int32sParts(q, n);
      SameParts(PointBytes(p[..n]), IntBytes(p[n]), PointBytes(q[..n]), IntBytes(q[n]));
      PointOfBytes(p[..n], q[..n]);
      WordOfInt(p[n], q[n]);
      assert p == p[..n] + [p[n]] && q == q[..n] + [q[n]];
    }
  }

  lemma Int32sParts(p: seq<int>, n: nat)
    requires Int32s(p) && n < |p|
    ensures Int32s(p[..n]) && Int32s([p[n]])
  {
  }

  lemma SameParts(a: seq<byte>, x: seq<byte>, b: seq<byte>, y: seq<byte>)
    requires |a| == |b| && a + x == b + y
    ensures a == b && x == y
  {
    assert (a + x)[..|a|] == a && (b + y)[..|b|] == b;
    assert (a + x)[|a|..] == x && (b + y)[|b|..] == y;
  }

  lemma {:induction false} CoordinateAt(p: seq<int>, k: nat)
    requires k < |p|
    ensures PointBytes(p)[4 * k..4 * k + 4] == IntBytes(p[k])
  {
    var n := |p| - 1;
    if k == n {
    } else {
      CoordinateAt(p[..n], k);
      assert PointBytes(p)[4 * k..4 * k + 4] == PointBytes(p[..n])[4 * k..4 * k + 4];
    }
  }

  /** A probe is nine bytes for a refused index: the index and a 0; and 105 for a point: the index, a 1 and 24
      coordinates of four bytes, each in two's complement. */
  lemma ProbeLayout(decode: Decoder, idx: word, k: nat)
    requires k < DIM
    ensures var bs := ProbeBytes(decode, idx);
            && |bs| == (if decode(idx).Some? then 105 else 9)
            && FromLittleEndian(bs[..8]) == idx
            && bs[8] == (if decode(idx).Some? then 1 else 0)
            && (decode(idx).Some? ==>
                  FromLittleEndian(bs[9 + 4 * k..13 + 4 * k]) == decode(idx).value[k] % 0x1_0000_0000)
  {
    hide LittleEndian, FromLittleEndian, Pow2, PointBytes, IntBytes;
    IndexReads(idx);
    var bs, head := ProbeBytes(decode, idx), LittleEndian(idx, 8);
    assert bs[..8] == head;
    if decode(idx).Some? {
      var p := decode(idx).value;
      assert bs == head + ([1] + PointBytes(p));
      BytesBehind(head, [1], PointBytes(p), 4 * k);
      CoordinateAt(p, k);
      CoordinateReads(p[k]);
    }
  }

  lemma IndexReads(idx: word)
    ensures FromLittleEndian(LittleEndian(idx, 8)) == idx
  {
    LittleEndianInverse(idx, 8);
    Pow2At64();
  }

  lemma CoordinateReads(v: int)
    ensures FromLittleEndian(IntBytes(v)) == v % 0x1_0000_0000
  {
    hide LittleEndian, FromLittleEndian, Pow2;
    LittleEndianInverse(v % 0x1_0000_0000, 4);
    Pow2At32();
  }

  lemma BytesBehind(a: seq<byte>, b: seq<byte>, c: seq<byte>, i: nat)
    requires |a| == 8 && |b| == 1 && i + 4 <= |c|
    ensures (a + (b + c))[9 + i..13 + i] == c[i..i + 4]
  {
  }

  lemma OneProbe(f: Decoder, g: Decoder, idx: nat, s: seq<byte>, t: seq<byte>)
    requires ProbeBytes(f, idx) + s == ProbeBytes(g, idx) + t
    ensures f(idx) == g(idx) && s == t
  {
    hide LittleEndian, PointBytes;
    var head := LittleEndian(idx, 8);
    var a := match f(idx) case Some(p) => [1] + PointBytes(p) case None => [0];
    var b := match g(idx) case Some(p) => [1] + PointBytes(p) case None => [0];
    assert ProbeBytes(f, idx) + s == head + (a + s);
    assert ProbeBytes(g, idx) + t == head + (b + t);
    SameParts(head, a + s, head, b + t);
    assert a[0] == (a + s)[0] == (b + t)[0] == b[0];
    SameParts(a, s, b, t);
    if f(idx).Some? {
      assert a[1..] == PointBytes(f(idx).value) && b[1..] == PointBytes(g(idx).value);
      PointOfBytes(f(idx).value, g(idx).value);
    }
  }

  /** Two decoders feed the hasher the same bytes exactly when they agree at every probe: one that refuses
      an index, or moves one coordinate of one point, changes the bytes. */
  lemma {:induction false} StreamDeterminesMap(f: Decoder, g: Decoder, at: seq<nat>)
    ensures Stream(f, at) == Stream(g, at) <==> forall k :: 0 <= k < |at| ==> f(at[k]) == g(at[k])
  {
    if at == [] {
    } else {
      StreamDeterminesMap(f, g, at[1..]);
      hide ProbeBytes;
      if Stream(f, at) == Stream(g, at) {
        OneProbe(f, g, at[0], Stream(f, at[1..]), Stream(g, at[1..]));
        assert at == [at[0]] + at[1..];
      }
      if forall k :: 0 <= k < |at| ==> f(at[k]) == g(at[k]) {
        assert forall k :: 0 <= k < |at[1..]| ==> at[1..][k] == at[k + 1];
        SameProbe(f, g, at[0]);
      }
    }
  }

  lemma SameProbe(f: Decoder, g: Decoder, idx: nat)
    requires f(idx) == g(idx)
    ensures ProbeBytes(f, idx) == ProbeBytes(g, idx)
  {
  }
}
