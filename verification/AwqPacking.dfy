/** The packed nibbles of an AWQ checkpoint (ops/awq_dequant.py): eight nibbles an int32 word, permuted
    inside the word, and the byte control that goes back from recovered integers to packed words. */
module AwqPacking {
  import opened Basics
  import opened Division
  import opened Words

  const AWQ_ORDER: seq<nat> := [0, 2, 4, 6, 1, 3, 5, 7]
  const AWQ_REVERSE_ORDER: seq<nat> := [0, 4, 1, 5, 2, 6, 3, 7]

  type int32 = w: int | -0x8000_0000 <= w < 0x8000_0000

  type Grid<T> = seq<seq<T>>

  ghost predicate Shaped<T>(m: Grid<T>, cols: nat) {
    forall r :: 0 <= r < |m| ==> |m[r]| == cols
  }

  /** `.view(np.uint32)` and back. */
  function Unsigned(w: int32): nat {
    if w < 0 then w + 0x1_0000_0000 else w
  }

  function Signed(u: nat): int32
    requires u < 0x1_0000_0000
  {
    if u >= 0x8000_0000 then u - 0x1_0000_0000 else u
  }

  /** A permutation of the eight places of a word and its inverse. */
  ghost predicate Inverse(order: seq<nat>, reverse: seq<nat>) {
    && |order| == |reverse| == 8
    && forall t :: 0 <= t < 8 ==> order[t] < 8 && reverse[t] < 8 && order[reverse[t]] == t && reverse[order[t]] == t
  }

  lemma AwqOrdersAreInverse()
    ensures Inverse(AWQ_ORDER, AWQ_REVERSE_ORDER)
  {
  }

  // ----- unpacking -----

  function Nibble(u: nat, i: nat): nat {
    And(Shr(u, 4 * i), 0xF)
  }

  /** Eight contiguous nibbles a word, least significant first. */
  function Unfold(row: seq<int32>): (v: seq<nat>)
    ensures |v| == 8 * |row|
  {
    seq(8 * |row|, k requires 0 <= k < 8 * |row| => Nibble(Unsigned(row[k / 8]), k % 8))
  }

  function Gather(v: seq<nat>, reverse: seq<nat>): (g: seq<nat>)
    requires |v| % 8 == 0 && |reverse| == 8 && forall t :: 0 <= t < 8 ==> reverse[t] < 8
    ensures |g| == |v|
  {
    seq(|v|, k requires 0 <= k < |v| => v[8 * (k / 8) + reverse[k % 8]])
  }

  function UnpackRow(row: seq<int32>, reverse: seq<nat>): (g: seq<nat>)
    requires |reverse| == 8 && forall t :: 0 <= t < 8 ==> reverse[t] < 8
    ensures |g| == 8 * |row|
  {
    Gather(Unfold(row), reverse)
  }

  function Unpack(packed: Grid<int32>, reverse: seq<nat>): (g: Grid<nat>)
    requires |reverse| == 8 && forall t :: 0 <= t < 8 ==> reverse[t] < 8
    ensures |g| == |packed|
    ensures forall r :: 0 <= r < |g| ==> g[r] == UnpackRow(packed[r], reverse)
  {
    seq(|packed|, r requires 0 <= r < |packed| => UnpackRow(packed[r], reverse))
  }

  // ----- packing -----

  /** The first `i` fields of a word whose nibble t is ns[t], or-ed in one by one. */
  function OrFields(ns: seq<int>, i: nat): nat
    requires i <= |ns| && forall t :: 0 <= t < |ns| ==> ns[t] >= 0
  {
    if i == 0 then 0 else Or(OrFields(ns, i - 1), Shl(And(ns[i - 1], 0xF), 4 * (i - 1)))
  }

  /** The eight entries that go into word c, in the order of its nibbles. */
  function Fields(row: seq<int>, order: seq<nat>, c: nat): (ns: seq<int>)
    requires 8 * c + 8 <= |row| && |order| == 8 && forall t :: 0 <= t < 8 ==> order[t] < 8
    ensures |ns| == 8
  {
    seq(8, t requires 0 <= t < 8 => row[8 * c + order[t]])
  }

  ghost predicate NibbleRow(row: seq<int>) {
    |row| % 8 == 0 && forall k :: 0 <= k < |row| ==> 0 <= row[k] <= 15
  }

  ghost predicate Nibbles(m: Grid<int>, cols: nat) {
    Shaped(m, cols) && cols % 8 == 0 && forall r :: 0 <= r < |m| ==> NibbleRow(m[r])
  }

  function InRange(m: Grid<int>): bool {
    forall r :: 0 <= r < |m| ==> forall k :: 0 <= k < |m[r]| ==> 0 <= m[r][k] <= 15
  }

  lemma FieldsAreNibbles(row: seq<int>, order: seq<nat>, c: nat)
    requires NibbleRow(row) && 8 * c + 8 <= |row|
    requires |order| == 8 && forall t :: 0 <= t < 8 ==> order[t] < 8
    ensures forall t :: 0 <= t < 8 ==> 0 <= Fields(row, order, c)[t] <= 15
  {
  }

  function PackRow(row: seq<int>, order: seq<nat>): (p: seq<int32>)
    requires NibbleRow(row) && |order| == 8 && forall t :: 0 <= t < 8 ==> order[t] < 8
    ensures |p| == |row| / 8
  {
    seq(|row| / 8, c requires 0 <= c < |row| / 8 =>
      FieldsAreNibbles(row, order, c);
      OrFieldsBound(Fields(row, order, c));
      Signed(OrFields(Fields(row, order, c), 8)))
  }

  function Pack(m: Grid<int>, order: seq<nat>): (p: Grid<int32>)
    requires |order| == 8 && forall t :: 0 <= t < 8 ==> order[t] < 8
    requires forall r :: 0 <= r < |m| ==> NibbleRow(m[r])
    ensures |p| == |m|
    ensures forall r :: 0 <= r < |p| ==> p[r] == PackRow(m[r], order)
  {
    seq(|m|, r requires 0 <= r < |m| => PackRow(m[r], order))
  }

  /** `repack_nibbles`: refused unless whole words of nibbles; then eight or-ing passes. */
  method RepackNibbles(m: Grid<int>, cols: nat) returns (r: Option<Grid<int32>>)
    requires Shaped(m, cols)
    ensures r.Some? <==> cols % 8 == 0 && InRange(m)
    ensures r.Some? ==> Nibbles(m, cols) && r.value == Pack(m, AWQ_ORDER)
  {
    if cols % 8 != 0 || !InRange(m) {
      return None;
    }
    assert Nibbles(m, cols);
    var out := OrPasses(m, cols / 8);
    return Some(ToSigned(m, cols / 8, out));
  }

  /** Pass i ors field i into every word. */
  method OrPasses(m: Grid<int>, words: nat) returns (out: Grid<nat>)
    requires Nibbles(m, 8 * words)
    ensures OredFields(m, words, out, 8)
  {
    out := seq(|m|, a => seq(words, c => 0));
    forall a, c | 0 <= a < |m| && 0 <= c < words ensures OrFieldsOf(m[a], c) {
      assert NibbleRow(m[a]);
      FieldsAreNibbles(m[a], AWQ_ORDER, c);
    }
    hide Fields, Or, Shl, And;
    for i := 0 to 8
      invariant OredFields(m, words, out, i)
    {
      out := seq(|m|, a requires 0 <= a < |m| =>
        seq(words, c requires 0 <= c < words =>
          Or(out[a][c], Shl(And(Fields(m[a], AWQ_ORDER, c)[i], 0xF), 4 * i))));
    }
  }

  ghost predicate OredFields(m: Grid<int>, words: nat, out: Grid<nat>, i: nat) {
    && i <= 8 && |out| == |m|
    && (forall a :: 0 <= a < |m| ==> |out[a]| == words)
    && forall a, c :: 0 <= a < |m| && 0 <= c < words ==>
         OrFieldsOf(m[a], c) && out[a][c] == OrFields(Fields(m[a], AWQ_ORDER, c), i)
  }

  /** `out.view(np.int32)` */
  function ToSigned(m: Grid<int>, words: nat, out: Grid<nat>): (p: Grid<int32>)
    requires Nibbles(m, 8 * words) && OredFields(m, words, out, 8)
    ensures p == Pack(m, AWQ_ORDER)
  {
    var p: Grid<int32> := seq(|m|, a requires 0 <= a < |m| =>
      seq(words, c requires 0 <= c < words =>
        assert OrFieldsOf(m[a], c);
        OrFieldsBound(Fields(m[a], AWQ_ORDER, c));
        Signed(out[a][c])));
    assert forall a :: 0 <= a < |m| ==> p[a] == PackRow(m[a], AWQ_ORDER);
    p
  }

  ghost predicate OrFieldsOf(row: seq<int>, c: nat) {
    && 8 * c + 8 <= |row|
    && forall t :: 0 <= t < 8 ==> 0 <= Fields(row, AWQ_ORDER, c)[t] <= 15
  }

  // ----- one word -----

  lemma NibbleIsDigit(u: nat, i: nat)
    ensures Nibble(u, i) == u / Pow2(4 * i) % 16
  {
    ShrDivides(u, 4 * i);
    assert Pow2(4) == 16;
    AndMask(Shr(u, 4 * i), 4);
  }

  ghost predicate Digits(ns: seq<int>) {
    |ns| == 8 && forall t :: 0 <= t < 8 ==> 0 <= ns[t] <= 15
  }

  /** Or-ing disjoint fields adds them. */
  lemma {:induction false} OrFieldsAdd(ns: seq<int>, i: nat)
    requires Digits(ns) && i <= 8
    ensures OrFields(ns, i) < Pow2(4 * i)
    ensures i > 0 ==> OrFields(ns, i) == OrFields(ns, i - 1) + Shl(ns[i - 1], 4 * (i - 1))
  {
    if i == 0 {
    } else {
      hide Or, And, Pow2, Shl;
      OrFieldsAdd(ns, i - 1);
      NibbleMask(ns[i - 1]);
      OrDisjoint(OrFields(ns, i - 1), ns[i - 1], 4 * (i - 1));
      FieldFits(OrFields(ns, i - 1), ns[i - 1], 4 * (i - 1));
    }
  }

  lemma NibbleMask(n: nat)
    requires n <= 15
    ensures And(n, 0xF) == n
  {
    Pow2At4();
    AndMask(n, 4);
  }

  lemma FieldFits(low: nat, n: nat, k: nat)
    requires low < Pow2(k) && n <= 15
    ensures low + Shl(n, k) < Pow2(k + 4)
  {
    hide Pow2;
    Pow2At4();
    Pow2Add(k, 4);
    FieldStep(low, n, Pow2(k));
  }

  lemma FieldStep(low: nat, n: nat, p: nat)
    requires low < p && n <= 15
    ensures low + n * p < p * 16
  {
    assert n * p <= 15 * p;
  }

  lemma OrFieldsBound(ns: seq<int>)
    requires Digits(ns)
    ensures OrFields(ns, 8) < 0x1_0000_0000
  {
    OrFieldsAdd(ns, 8);
    Pow2At32();
  }

  /** A field is read back whatever is or-ed in above it. */
  lemma {:induction false} FieldReadBack(ns: seq<int>, i: nat, t: nat)
    requires Digits(ns) && t < i <= 8
    ensures Nibble(OrFields(ns, i), t) == ns[t]
  {
    hide Or, And, Pow2, Nibble, OrFields, Shl;
    NibbleIsDigit(OrFields(ns, i), t);
    OrFieldsAdd(ns, i);
    OrFieldsAdd(ns, i - 1);
    var low := OrFields(ns, i - 1);
    if t == i - 1 {
      TopField(low, ns[t], 4 * t);
    } else {
      FieldReadBack(ns, i - 1, t);
      NibbleIsDigit(low, t);
      HighPart(low, ns[i - 1], 4 * t, 4 * (i - 2 - t));
    }
  }

  lemma TopField(low: nat, n: nat, k: nat)
    requires low < Pow2(k) && n <= 15
    ensures (low + Shl(n, k)) / Pow2(k) % 16 == n
  {
    hide Pow2;
    DivUnique(Pow2(k), n, low);
  }

  /** A field at place a + 4 or higher does not reach the nibble at place a. */
  lemma HighPart(low: nat, n: nat, a: nat, b: nat)
    ensures (low + Shl(n, a + 4 + b)) / Pow2(a) % 16 == low / Pow2(a) % 16
  {
    hide Pow2;
    Pow2At4();
    Pow2Add(a, 4);
    Pow2Add(a + 4, b);
    Regroup(n, Pow2(a), Pow2(b));
    AboveNibble(low, Pow2(a), n * Pow2(b));
  }

  lemma Regroup(n: nat, p: nat, k: nat)
    ensures n * (p * 16 * k) == p * (16 * (n * k))
  {
  }

  lemma AboveNibble(low: nat, p: nat, h: nat)
    requires p > 0
    ensures (low + p * (16 * h)) / p % 16 == low / p % 16
  {
    DivAdd(low, p, 16 * h);
    AddSixteens(low / p, h);
  }

  lemma AddSixteens(q: nat, h: nat)
    ensures (q + 16 * h) % 16 == q % 16
  {
  }

  /** The nibbles of a word, put back, give the word. */
  lemma {:induction false} FieldsOfWord(u: nat, ns: seq<int>, i: nat)
    requires Digits(ns) && i <= 8 && forall t :: 0 <= t < 8 ==> ns[t] == Nibble(u, t)
    ensures OrFields(ns, i) == u % Pow2(4 * i)
  {
    OrFieldsAdd(ns, i);
    if i == 0 {
      assert u % 1 == 0;
    } else {
      hide Or, And, Pow2, Nibble, OrFields, Shl;
      FieldsOfWord(u, ns, i - 1);
      NibbleIsDigit(u, i - 1);
      Pow2Add(4 * (i - 1), 4);
      Pow2At4();
      ModSplit(u, 4 * (i - 1));
    }
  }

  lemma ModSplit(u: nat, k: nat)
    ensures u % (Pow2(k) * 16) == u % Pow2(k) + Shl(u / Pow2(k) % 16, k)
  {
    hide Pow2;
    var p := Pow2(k);
    var a, b := u / p, u % p;
    var q, r := a / 16, a % 16;
    assert u == p * a + b;
    assert p * a == p * (16 * q) + p * r;
    assert p * (16 * q) == p * 16 * q;
    FieldStep(b, r, p);
    DivUnique(p * 16, q, b + r * p);
  }

  // ----- rows: the two functions undo each other -----

  ghost predicate Places(order: seq<nat>) {
    |order| == 8 && forall t :: 0 <= t < 8 ==> order[t] < 8
  }

  lemma UnpackOfPackRow(row: seq<int>, order: seq<nat>, reverse: seq<nat>)
    requires NibbleRow(row) && Inverse(order, reverse)
    ensures UnpackRow(PackRow(row, order), reverse) == row
  {
    var p := PackRow(row, order);
    var u := UnpackRow(p, reverse);
    forall k | 0 <= k < |row| ensures u[k] == row[k] {
      EntryReadBack(row, order, reverse, k);
    }
  }

  lemma EntryReadBack(row: seq<int>, order: seq<nat>, reverse: seq<nat>, k: nat)
    requires NibbleRow(row) && Inverse(order, reverse) && k < |row|
    ensures UnpackRow(PackRow(row, order), reverse)[k] == row[k]
  {
    var c, t := k / 8, k % 8;
    var ns := Fields(row, order, c);
    FieldsAreNibbles(row, order, c);
    OrFieldsBound(ns);
    FieldReadBack(ns, 8, reverse[t]);
    var j := 8 * c + reverse[t];
    assert j / 8 == c && j % 8 == reverse[t];
    assert Unfold(PackRow(row, order))[j] == Nibble(OrFields(ns, 8), reverse[t]);
    assert ns[reverse[t]] == row[8 * c + order[reverse[t]]];
  }

  lemma UnpackedIsNibbles(row: seq<int32>, reverse: seq<nat>)
    requires Places(reverse)
    ensures NibbleRow(UnpackRow(row, reverse))
  {
    forall k | 0 <= k < 8 * |row| ensures 0 <= UnpackRow(row, reverse)[k] <= 15 {
      NibbleIsDigit(Unsigned(row[(8 * (k / 8) + reverse[k % 8]) / 8]), (8 * (k / 8) + reverse[k % 8]) % 8);
    }
  }

  lemma PackOfUnpackRow(row: seq<int32>, order: seq<nat>, reverse: seq<nat>)
    requires Inverse(order, reverse)
    ensures NibbleRow(UnpackRow(row, reverse))
    ensures PackRow(UnpackRow(row, reverse), order) == row
  {
    UnpackedIsNibbles(row, reverse);
    var u := UnpackRow(row, reverse);
    forall c | 0 <= c < |row| ensures PackRow(u, order)[c] == row[c] {
      WordPutBack(row, order, reverse, c);
    }
  }

  lemma WordPutBack(row: seq<int32>, order: seq<nat>, reverse: seq<nat>, c: nat)
    requires Inverse(order, reverse) && c < |row| && NibbleRow(UnpackRow(row, reverse))
    ensures PackRow(UnpackRow(row, reverse), order)[c] == row[c]
  {
    hide UnpackRow, Nibble, OrFields, Pow2;
    var u := UnpackRow(row, reverse);
    var ns := Fields(u, order, c);
    FieldsAreNibbles(u, order, c);
    forall t | 0 <= t < 8 ensures ns[t] == Nibble(Unsigned(row[c]), t) {
      FieldOfUnpacked(row, order, reverse, c, t);
    }
    FieldsOfWord(Unsigned(row[c]), ns, 8);
    Pow2At32();
    OrFieldsBound(ns);
    assert OrFields(ns, 8) == Unsigned(row[c]);
  }

  lemma FieldOfUnpacked(row: seq<int32>, order: seq<nat>, reverse: seq<nat>, c: nat, t: nat)
    requires Inverse(order, reverse) && c < |row| && t < 8
    ensures Fields(UnpackRow(row, reverse), order, c)[t] == Nibble(Unsigned(row[c]), t)
  {
    var k := 8 * c + order[t];
    assert k / 8 == c && k % 8 == order[t];
    assert UnpackRow(row, reverse)[k] == Unfold(row)[8 * c + reverse[order[t]]];
    assert (8 * c + t) / 8 == c && (8 * c + t) % 8 == t;
  }

  /** Unpacking undoes packing on every matrix of nibbles, for any permutation used on both sides. */
  lemma UnpackUndoesPack(m: Grid<int>, order: seq<nat>, reverse: seq<nat>)
    requires Inverse(order, reverse) && forall r :: 0 <= r < |m| ==> NibbleRow(m[r])
    ensures Unpack(Pack(m, order), reverse) == m
  {
    forall r | 0 <= r < |m| ensures Unpack(Pack(m, order), reverse)[r] == m[r] {
      UnpackOfPackRow(m[r], order, reverse);
    }
  }

  /** Packing undoes unpacking on every matrix of words, sign bit included. */
  lemma PackUndoesUnpack(packed: Grid<int32>, order: seq<nat>, reverse: seq<nat>)
    requires Inverse(order, reverse)
    ensures forall r :: 0 <= r < |packed| ==> NibbleRow(Unpack(packed, reverse)[r])
    ensures Pack(Unpack(packed, reverse), order) == packed
  {
    forall r | 0 <= r < |packed|
      ensures NibbleRow(Unpack(packed, reverse)[r])
      ensures PackRow(Unpack(packed, reverse)[r], order) == packed[r]
    {
      PackOfUnpackRow(packed[r], order, reverse);
    }
    assert Pack(Unpack(packed, reverse), order) == packed;
  }

  // ----- the order itself -----

  /** First the even entries of the eight, then the odd ones. */
  function EvenThenOdd(i: nat): (k: nat)
    requires i < 8
    ensures k < 8
  {
    if i < 4 then 2 * i else 2 * i - 7
  }

  /** Bit field i of word c holds that entry of its eight. */
  lemma FieldsInOrder(row: seq<int>, c: nat, i: nat)
    requires NibbleRow(row) && 8 * c + 8 <= |row| && i < 8
    ensures Nibble(Unsigned(PackRow(row, AWQ_ORDER)[c]), i) == row[8 * c + EvenThenOdd(i)]
  {
    var ns := Fields(row, AWQ_ORDER, c);
    FieldsAreNibbles(row, AWQ_ORDER, c);
    hide Nibble, OrFields;
    OrFieldsBound(ns);
    FieldReadBack(ns, 8, i);
  }

  lemma SixteenTo(i: nat)
    requires i <= 8
    ensures Pow2(4 * i) == if i == 0 then 1 else if i == 1 then 0x10 else if i == 2 then 0x100
                           else if i == 3 then 0x1000 else if i == 4 then 0x1_0000 else if i == 5 then 0x10_0000
                           else if i == 6 then 0x100_0000 else if i == 7 then 0x1000_0000 else 0x1_0000_0000
  {
    hide Pow2;
    Pow2At4();
    Pow2At0();
    Pow2Add(4, 4);
    Pow2Add(8, 4);
    Pow2Add(12, 4);
    Pow2Add(16, 4);
    Pow2Add(20, 4);
    Pow2Add(24, 4);
    Pow2Add(28, 4);
  }

  lemma Pow2At0()
    ensures Pow2(0) == 1
  {
  }

  /** The number whose hexadecimal digits are the eight fields, the first one last. */
  function WordOf(ns: seq<int>): int
    requires |ns| == 8
  {
    ns[0] + 0x10 * ns[1] + 0x100 * ns[2] + 0x1000 * ns[3] + 0x1_0000 * ns[4] + 0x10_0000 * ns[5] +
    0x100_0000 * ns[6] + 0x1000_0000 * ns[7]
  }

  lemma FieldAdds(ns: seq<int>, i: nat, p: nat)
    requires Digits(ns) && i < 8 && p == Pow2(4 * i)
    ensures OrFields(ns, i + 1) == OrFields(ns, i) + ns[i] * p
  {
    hide OrFields, Pow2;
    OrFieldsAdd(ns, i + 1);
  }

  lemma FieldsAddUp(ns: seq<int>)
    requires Digits(ns)
    ensures OrFields(ns, 8) == WordOf(ns)
  {
    assert OrFields(ns, 0) == 0;
    hide OrFields, Pow2, Digits;
    SixteenTo(0);
    SixteenTo(1);
    SixteenTo(2);
    SixteenTo(3);
    SixteenTo(4);
    SixteenTo(5);
    SixteenTo(6);
    SixteenTo(7);
    FieldAdds(ns, 0, 1);
    FieldAdds(ns, 1, 0x10);
    FieldAdds(ns, 2, 0x100);
    FieldAdds(ns, 3, 0x1000);
    FieldAdds(ns, 4, 0x1_0000);
    FieldAdds(ns, 5, 0x10_0000);
    FieldAdds(ns, 6, 0x100_0000);
    FieldAdds(ns, 7, 0x1000_0000);
  }

  /** Eight integers a to h pack to the word with the digits hfdbgeca. */
  lemma PackedWord(row: seq<int>)
    requires NibbleRow(row) && |row| == 8
    ensures var w := WordOf([row[0], row[2], row[4], row[6], row[1], row[3], row[5], row[7]]);
            0 <= w < 0x1_0000_0000 && PackRow(row, AWQ_ORDER) == [Signed(w)]
  {
    var ns := Fields(row, AWQ_ORDER, 0);
    assert ns == [row[0], row[2], row[4], row[6], row[1], row[3], row[5], row[7]];
    FieldsAreNibbles(row, AWQ_ORDER, 0);
    hide OrFields, WordOf;
    OrFieldsBound(ns);
    FieldsAddUp(ns);
  }

  /** The integers 0 to 7 pack to 0x75316420. */
  lemma KnownWord()
    ensures NibbleRow([0, 1, 2, 3, 4, 5, 6, 7])
    ensures PackRow([0, 1, 2, 3, 4, 5, 6, 7], AWQ_ORDER) == [0x7531_6420]
  {
    assert NibbleRow([0, 1, 2, 3, 4, 5, 6, 7]);
    hide PackRow, NibbleRow;
    PackedWord([0, 1, 2, 3, 4, 5, 6, 7]);
  }

  // ----- the byte control -----

  function Differs(a: seq<int>, b: seq<int>): nat
    requires |a| == |b|
  {
    if a == [] then 0 else Differs(a[1..], b[1..]) + if a[0] != b[0] then 1 else 0
  }

  /** `np.count_nonzero(a != b)` */
  function Mismatches(a: Grid<int>, b: Grid<int>): nat
    requires |a| == |b| && forall r :: 0 <= r < |a| ==> |a[r]| == |b[r]|
  {
    if a == [] then 0 else Mismatches(a[1..], b[1..]) + Differs(a[0], b[0])
  }

  lemma {:induction false} NoneDiffers(a: seq<int>, b: seq<int>)
    requires |a| == |b|
    ensures Differs(a, b) == 0 <==> a == b
  {
    if a == [] {
    } else {
      NoneDiffers(a[1..], b[1..]);
      assert a == [a[0]] + a[1..] && b == [b[0]] + b[1..];
    }
  }

  lemma {:induction false} NoMismatch(a: Grid<int>, b: Grid<int>)
    requires |a| == |b| && forall r :: 0 <= r < |a| ==> |a[r]| == |b[r]|
    ensures Mismatches(a, b) == 0 <==> a == b
  {
    if a == [] {
    } else {
      NoMismatch(a[1..], b[1..]);
      NoneDiffers(a[0], b[0]);
      assert a == [a[0]] + a[1..] && b == [b[0]] + b[1..];
    }
  }

  function ZerosIn(row: seq<real>): nat {
    if row == [] then 0 else ZerosIn(row[1..]) + if row[0] == 0.0 then 1 else 0
  }

  /** How many scales are zero. */
  function ZeroScales(scales: Grid<real>): nat {
    if scales == [] then 0 else ZeroScales(scales[1..]) + ZerosIn(scales[0])
  }

  lemma {:induction false} NoZeroIn(row: seq<real>)
    ensures ZerosIn(row) == 0 <==> 0.0 !in row
  {
    if row == [] {
    } else {
      NoZeroIn(row[1..]);
      assert row == [row[0]] + row[1..];
    }
  }

  lemma {:induction false} NoZeroScale(scales: Grid<real>)
    ensures ZeroScales(scales) == 0 <==> forall r :: 0 <= r < |scales| ==> 0.0 !in scales[r]
  {
    if scales == [] {
    } else {
      NoZeroScale(scales[1..]);
      NoZeroIn(scales[0]);
      assert scales == [scales[0]] + scales[1..];
    }
  }

  /** The dictionary the control returns. */
  datatype Control = Control(
    ok: bool, integersRecovered: bool, inRange: bool, mismatched: nat, zeroScales: nat,
    qweightIdentical: bool, qzerosIdentical: bool)

  /** Every field of the control, given the recovered integers: the byte comparisons are made only on a match,
      and then never fail. */
  ghost predicate Reports(c: Control, rec: Grid<int>, iweights: Grid<int>, scales: Grid<real>)
    requires |rec| == |iweights| && forall r :: 0 <= r < |rec| ==> |rec[r]| == |iweights[r]|
  {
    && c.inRange == InRange(rec)
    && c.mismatched == Mismatches(rec, iweights)
    && c.zeroScales == ZeroScales(scales)
    && (c.ok <==> rec == iweights)
    && (c.integersRecovered <==> rec == iweights)
    && (c.qweightIdentical <==> rec == iweights)
    && (c.qzerosIdentical <==> rec == iweights)
    && (c.mismatched == 0 <==> rec == iweights)
    && (rec == iweights ==> c.inRange)
    && (c.zeroScales == 0 <==> forall r :: 0 <= r < |scales| ==> 0.0 !in scales[r])
  }

  /** `control_l2` from the recovered integers on; None where numpy has no minimum to take. */
  method ControlL2(rec: Grid<int>, qweight: Grid<int32>, qzeros: Grid<int32>, scales: Grid<real>, words: nat)
    returns (r: Option<Control>)
    requires Shaped(qweight, words) && Shaped(qzeros, words) && Shaped(rec, 8 * words) && |rec| == |qweight|
    ensures r.None? <==> rec == [] || words == 0
    ensures r.Some? ==> Reports(r.value, rec, Unpack(qweight, AWQ_REVERSE_ORDER), scales)
  {
    if |rec| == 0 || words == 0 {
      return None;
    }
    var iweights, izeros := Unpack(qweight, AWQ_REVERSE_ORDER), Unpack(qzeros, AWQ_REVERSE_ORDER);
    var inRange, bad, zeroScales := InRange(rec), Mismatches(rec, iweights), ZeroScales(scales);
    NoMismatch(rec, iweights);
    NoZeroScale(scales);
    AwqOrdersAreInverse();
    hide Inverse, Unpack, UnpackRow, Pack, PackRow, Mismatches, ZeroScales;
    PackUndoesUnpack(qweight, AWQ_ORDER, AWQ_REVERSE_ORDER);
    PackUndoesUnpack(qzeros, AWQ_ORDER, AWQ_REVERSE_ORDER);
    var sameW, sameZ := false, false;
    if inRange && bad == 0 {
      var w := RepackNibbles(rec, 8 * words);
      sameW := w.value == qweight;
      var z := RepackNibbles(izeros, 8 * words);
      sameZ := z.value == qzeros;
    }
    return Some(Control(inRange && bad == 0 && sameW && sameZ, bad == 0, inRange, bad, zeroScales, sameW, sameZ));
  }

  /** For integers in range, the packed bytes agree exactly when no nibble differs. */
  lemma BytesAgreeIffNibblesDo(rec: Grid<int>, qweight: Grid<int32>)
    requires |rec| == |qweight| && forall r :: 0 <= r < |rec| ==> NibbleRow(rec[r]) && |rec[r]| == 8 * |qweight[r]|
    ensures Pack(rec, AWQ_ORDER) == qweight <==> Mismatches(rec, Unpack(qweight, AWQ_REVERSE_ORDER)) == 0
  {
    AwqOrdersAreInverse();
    hide Inverse, Mismatches, Unpack, Pack;
    NoMismatch(rec, Unpack(qweight, AWQ_REVERSE_ORDER));
    UnpackUndoesPack(rec, AWQ_ORDER, AWQ_REVERSE_ORDER);
    PackUndoesUnpack(qweight, AWQ_ORDER, AWQ_REVERSE_ORDER);
  }
}
