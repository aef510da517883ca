/** One AWQ projection (ops/awq_dequant.py, `Projection`): integers less zero points times group scales, and
    the way back that the byte control takes from a matrix of weights. What the control accepts is stated
    for every real matrix, so it covers weights that carry a rounding error. */
module Dequant {
  import opened Basics
  import opened Division
  import opened Words
  import opened RealSeq
  import opened AwqPacking

  /** `words` packed columns; one row of zero points and scales a group of `groupSize` input channels. */
  datatype Projection = Projection(
    qweight: Grid<int32>, qzeros: Grid<int32>, scales: Grid<real>, groupSize: nat, words: nat)

  /** The shapes that loading demands; anything else is `Fatal`. */
  ghost predicate Loads(p: Projection) {
    && Shaped(p.qweight, p.words) && Shaped(p.qzeros, p.words) && Shaped(p.scales, 8 * p.words)
    && |p.qzeros| == |p.scales|
    && |p.scales| * p.groupSize == |p.qweight|
  }

  lemma QuotientBelow(r: nat, n: nat, g: nat)
    requires r < n * g
    ensures g > 0 && r / g < n
  {
    assert g > 0;
    var q := r / g;
    assert r == g * q + r % g;
    assert g * (n - q) == n * g - g * q > 0;
    PositiveFactor(g, n - q);
  }

  lemma PositiveFactor(g: nat, x: int)
    requires g * x > 0
    ensures x > 0
  {
  }

  /** The group of input channel r. */
  function Group(p: Projection, r: nat): (g: nat)
    requires Loads(p) && r < |p.qweight|
    ensures g < |p.scales|
  {
    QuotientBelow(r, |p.scales|, p.groupSize);
    r / p.groupSize
  }

  function Weights(p: Projection): (g: Grid<nat>)
    requires Loads(p)
    ensures |g| == |p.qweight| && forall r :: 0 <= r < |g| ==> |g[r]| == 8 * p.words
  {
    Unpack(p.qweight, AWQ_REVERSE_ORDER)
  }

  function Zeros(p: Projection): (g: Grid<nat>)
    requires Loads(p)
    ensures |g| == |p.scales| && forall r :: 0 <= r < |g| ==> |g[r]| == 8 * p.words
  {
    Unpack(p.qzeros, AWQ_REVERSE_ORDER)
  }

  ghost predicate At(p: Projection, r: nat, c: nat) {
    Loads(p) && r < |p.qweight| && c < 8 * p.words
  }

  function ScaleAt(p: Projection, r: nat, c: nat): real
    requires Loads(p) && r < |p.qweight| && c < 8 * p.words
  {
    p.scales[Group(p, r)][c]
  }

  function ZeroAt(p: Projection, r: nat, c: nat): nat
    requires Loads(p) && r < |p.qweight| && c < 8 * p.words
  {
    Zeros(p)[Group(p, r)][c]
  }

  /** Steps above its zero point. */
  function StepsAt(p: Projection, r: nat, c: nat): int
    requires Loads(p) && r < |p.qweight| && c < 8 * p.words
  {
    Weights(p)[r][c] - ZeroAt(p, r, c)
  }

  function Value(steps: int, scale: real): real {
    steps as real * scale
  }

  /** The dequantised matrix, when `shift` is added to every integer: 0 is what the code does, 1 is a
      spurious -1 on the zero points. */
  function Dequantised(p: Projection, shift: int): (w: Grid<real>)
    requires Loads(p)
    ensures |w| == |p.qweight| && forall r :: 0 <= r < |w| ==> w[r] == DequantisedRow(p, shift, r)
  {
    seq(|p.qweight|, r requires 0 <= r < |p.qweight| => DequantisedRow(p, shift, r))
  }

  function DequantisedRow(p: Projection, shift: int, r: nat): (row: seq<real>)
    requires Loads(p) && r < |p.qweight|
    ensures |row| == 8 * p.words
    ensures forall c :: 0 <= c < |row| ==> row[c] == Value(StepsAt(p, r, c) + shift, ScaleAt(p, r, c))
  {
    seq(8 * p.words, c requires 0 <= c < 8 * p.words => Value(StepsAt(p, r, c) + shift, ScaleAt(p, r, c)))
  }

  // ----- back to the integers -----

  /** `np.rint`: to the nearest integer, halves to the even one. */
  function Rint(x: real): int {
    var f := x.Floor;
    var d := x - f as real;
    if d < 0.5 then f else if d > 0.5 then f + 1 else if f % 2 == 0 then f else f + 1
  }

  function RecoveredAt(weight: real, scale: real, zero: int): int {
    Rint(if scale != 0.0 then weight / scale else 0.0) + zero
  }

  ghost predicate SameShape(p: Projection, w: Grid<real>) {
    Loads(p) && |w| == |p.qweight| && forall r :: 0 <= r < |w| ==> |w[r]| == 8 * p.words
  }

  function Recovered(p: Projection, w: Grid<real>): (rec: Grid<int>)
    requires Loads(p) && |w| == |p.qweight| && forall r :: 0 <= r < |w| ==> |w[r]| == 8 * p.words
    ensures |rec| == |p.qweight| && forall r :: 0 <= r < |rec| ==> |rec[r]| == 8 * p.words
    ensures forall r, c :: 0 <= r < |rec| && 0 <= c < 8 * p.words ==>
              rec[r][c] == RecoveredAt(w[r][c], ScaleAt(p, r, c), ZeroAt(p, r, c))
  {
    seq(|p.qweight|, r requires 0 <= r < |p.qweight| =>
      seq(8 * p.words, c requires 0 <= c < 8 * p.words =>
        RecoveredAt(w[r][c], ScaleAt(p, r, c), ZeroAt(p, r, c))))
  }

  /** The control on a matrix of weights. */
  method ControlWeights(p: Projection, w: Grid<real>) returns (r: Option<Control>)
    requires SameShape(p, w)
    ensures r.None? <==> p.qweight == [] || p.words == 0
    ensures r.Some? ==> Reports(r.value, Recovered(p, w), Weights(p), p.scales)
  {
    r := ControlL2(Recovered(p, w), p.qweight, p.qzeros, p.scales, p.words);
  }

  // ----- what the control accepts -----

  /** Rounding gives n back from less than a half away, and from a half away when n is even. */
  lemma RintNearest(x: real, n: int)
    ensures Rint(x) == n <==> Abs(x - n as real) < 0.5 || (Abs(x - n as real) == 0.5 && n % 2 == 0)
  {
    var f := x.Floor;
    if n == f {
      assert Abs(x - n as real) == x - f as real;
    } else if n == f + 1 {
      assert Abs(x - n as real) == f as real + 1.0 - x;
    } else {
      assert n as real <= f as real - 1.0 || n as real >= f as real + 2.0;
      assert Abs(x - n as real) >= 1.0;
    }
  }

  lemma StepDistance(weight: real, scale: real, n: int)
    requires scale != 0.0
    ensures Abs(weight / scale - n as real) < 0.5 <==> Abs(weight - Value(n, scale)) < 0.5 * Abs(scale)
    ensures Abs(weight / scale - n as real) == 0.5 <==> Abs(weight - Value(n, scale)) == 0.5 * Abs(scale)
  {
    var d, e := weight / scale - n as real, weight - Value(n, scale);
    QuotientDistance(weight, scale, n);
    ScaledDistance(d, scale, e);
  }

  lemma QuotientDistance(weight: real, scale: real, n: int)
    requires scale != 0.0
    ensures weight - Value(n, scale) == (weight / scale - n as real) * scale
  {
    assert weight / scale * scale == weight;
  }

  lemma ScaledDistance(d: real, scale: real, e: real)
    requires scale != 0.0 && e == d * scale
    ensures Abs(d) < 0.5 <==> Abs(e) < 0.5 * Abs(scale)
    ensures Abs(d) == 0.5 <==> Abs(e) == 0.5 * Abs(scale)
  {
    AbsProduct(d, scale);
    AgainstHalf(Abs(d), Abs(scale), Abs(e));
  }

  lemma AbsProduct(a: real, b: real)
    ensures Abs(a * b) == Abs(a) * Abs(b)
  {
  }

  /** Scaling keeps the comparison with one half. */
  lemma AgainstHalf(d: real, k: real, e: real)
    requires k > 0.0 && e == d * k
    ensures d < 0.5 <==> e < 0.5 * k
    ensures d == 0.5 <==> e == 0.5 * k
    ensures d > 0.5 <==> e > 0.5 * k
  {
    assert (d - 0.5) * k == e - 0.5 * k;
    if d < 0.5 {
      assert (0.5 - d) * k > 0.0;
    } else if d > 0.5 {
      assert (d - 0.5) * k > 0.0;
    }
  }

  /** How far the weight is from the integer times the scale. */
  ghost function OffAt(p: Projection, w: Grid<real>, r: nat, c: nat): real
    requires SameShape(p, w) && At(p, r, c)
  {
    Abs(w[r][c] - Value(StepsAt(p, r, c), ScaleAt(p, r, c)))
  }

  /** The integer comes back: from less than half a step away, from half a step when the steps are even, and
      under a zero scale when it is the zero point. */
  ghost predicate Close(p: Projection, w: Grid<real>, r: nat, c: nat)
    requires SameShape(p, w) && At(p, r, c)
  {
    var half := 0.5 * Abs(ScaleAt(p, r, c));
    if ScaleAt(p, r, c) == 0.0 then StepsAt(p, r, c) == 0
    else OffAt(p, w, r, c) < half || (OffAt(p, w, r, c) == half && StepsAt(p, r, c) % 2 == 0)
  }

  lemma EntryRecovered(p: Projection, w: Grid<real>, r: nat, c: nat)
    requires SameShape(p, w) && At(p, r, c)
    ensures Recovered(p, w)[r][c] == Weights(p)[r][c] <==> Close(p, w, r, c)
  {
    hide Rint, Abs, Weights, Zeros, Group;
    var s, n := ScaleAt(p, r, c), StepsAt(p, r, c);
    if s == 0.0 {
      RintOfZero();
    } else {
      RintNearest(w[r][c] / s, n);
      StepDistance(w[r][c], s, n);
    }
  }

  lemma RintOfZero()
    ensures Rint(0.0) == 0
  {
  }

  /** The integers come back exactly when every weight is close to its own, whatever its rounding. */
  lemma HalfStepDecides(p: Projection, w: Grid<real>)
    requires SameShape(p, w)
    ensures Recovered(p, w) == Weights(p) <==> forall r: nat, c: nat :: At(p, r, c) ==> Close(p, w, r, c)
  {
    hide Close, Recovered, Weights;
    if r: nat, c: nat :| At(p, r, c) && !Close(p, w, r, c) {
      EntryRecovered(p, w, r, c);
    } else {
      forall r: nat | r < |p.qweight| ensures Recovered(p, w)[r] == Weights(p)[r] {
        forall c: nat | c < 8 * p.words ensures Recovered(p, w)[r][c] == Weights(p)[r][c] {
          assert At(p, r, c);
          EntryRecovered(p, w, r, c);
        }
      }
    }
  }

  ghost predicate ZeroScalesAgree(p: Projection) {
    forall r: nat, c: nat :: At(p, r, c) ==> (ScaleAt(p, r, c) == 0.0 ==> StepsAt(p, r, c) == 0)
  }

  ghost predicate NoScales(p: Projection) {
    forall r: nat, c: nat :: At(p, r, c) ==> ScaleAt(p, r, c) == 0.0
  }

  lemma ShiftedOff(p: Projection, shift: int, r: nat, c: nat)
    requires At(p, r, c)
    ensures SameShape(p, Dequantised(p, shift))
    ensures OffAt(p, Dequantised(p, shift), r, c) == Abs(shift as real) * Abs(ScaleAt(p, r, c))
    ensures ScaleAt(p, r, c) != 0.0 ==> Abs(ScaleAt(p, r, c)) > 0.0
  {
    hide StepsAt, ScaleAt;
    var n, s := StepsAt(p, r, c), ScaleAt(p, r, c);
    Difference(n, shift, s);
    AbsProduct(shift as real, s);
  }

  lemma Difference(n: int, shift: int, s: real)
    ensures Value(n + shift, s) - Value(n, s) == shift as real * s
  {
  }

  /** The control passes on the matrix the code computes exactly when every zero scale stands over integers at
      their zero point; with every integer shifted, it passes only where no scale is left to show it. */
  lemma ShiftIsCaught(p: Projection, shift: int)
    requires Loads(p)
    ensures Recovered(p, Dequantised(p, shift)) == Weights(p) <==>
            ZeroScalesAgree(p) && (shift == 0 || NoScales(p))
  {
    hide Recovered, Weights, Dequantised, StepsAt, ScaleAt, Close;
    var w := Dequantised(p, shift);
    HalfStepDecides(p, w);
    if !ZeroScalesAgree(p) {
      var r: nat, c: nat :| At(p, r, c) && ScaleAt(p, r, c) == 0.0 && StepsAt(p, r, c) != 0;
      ShiftedEntry(p, shift, r, c);
    } else if shift != 0 && !NoScales(p) {
      var r: nat, c: nat :| At(p, r, c) && ScaleAt(p, r, c) != 0.0;
      ShiftedEntry(p, shift, r, c);
    } else {
      forall r: nat, c: nat | At(p, r, c) ensures Close(p, w, r, c) {
        ShiftedEntry(p, shift, r, c);
      }
    }
  }

  /** One word of one row: the first integer is 1, every zero point is 0 and every scale is 0. */
  function HiddenStep(): Projection {
    Projection([[1]], [[0]], [seq(8, _ => 0.0)], 1, 1)
  }

  lemma FirstNibbles()
    ensures Nibble(Unsigned(1), 0) == 1 && Nibble(Unsigned(0), 0) == 0
  {
    NibbleIsDigit(1, 0);
    NibbleIsDigit(0, 0);
  }

  /** It loads, and the control refuses the very matrix the code computes for it. */
  lemma HiddenStepIsRefused()
    ensures Loads(HiddenStep())
    ensures Recovered(HiddenStep(), Dequantised(HiddenStep(), 0)) != Weights(HiddenStep())
  {
    var p := HiddenStep();
    hide Nibble, Unsigned;
    FirstNibbles();
    assert UnpackRow(p.qweight[0], AWQ_REVERSE_ORDER)[0] == Nibble(Unsigned(1), 0);
    assert UnpackRow(p.qzeros[0], AWQ_REVERSE_ORDER)[0] == Nibble(Unsigned(0), 0);
    assert At(p, 0, 0) && ScaleAt(p, 0, 0) == 0.0 && StepsAt(p, 0, 0) == 1;
    hide Recovered, Weights, Dequantised, StepsAt, ScaleAt, ZeroScalesAgree;
    ShiftIsCaught(p, 0);
    NotAgreeing(p);
  }

  lemma NotAgreeing(p: Projection)
    requires At(p, 0, 0) && ScaleAt(p, 0, 0) == 0.0 && StepsAt(p, 0, 0) == 1
    ensures !ZeroScalesAgree(p)
  {
    hide ScaleAt, StepsAt;
  }

  lemma ShiftedEntry(p: Projection, shift: int, r: nat, c: nat)
    requires At(p, r, c)
    ensures SameShape(p, Dequantised(p, shift))
    ensures var w, s := Dequantised(p, shift), ScaleAt(p, r, c);
            Close(p, w, r, c) <==> if s == 0.0 then StepsAt(p, r, c) == 0 else shift == 0
  {
    hide Recovered, Weights, Dequantised, StepsAt, ScaleAt, OffAt, Abs;
    ShiftedOff(p, shift, r, c);
    HalfOfShift(shift, Abs(ScaleAt(p, r, c)));
  }

  lemma HalfOfShift(shift: int, s: real)
    requires s >= 0.0
    ensures s > 0.0 ==> (Abs(shift as real) * s < 0.5 * s <==> shift == 0)
    ensures s > 0.0 ==> (Abs(shift as real) * s > 0.5 * s <==> shift != 0)
  {
    if s > 0.0 {
      AgainstHalf(Abs(shift as real), s, Abs(shift as real) * s);
    }
  }

  // ----- which group a row belongs to -----

  lemma RowInside(n: nat, size: nat, g: nat, t: nat)
    requires g < n && t < size
    ensures g * size + t < n * size
  {
    MoreRows(g + 1, n - g - 1, size);
    MoreRows(g, 1, size);
  }

  lemma MoreRows(a: nat, b: nat, size: nat)
    ensures (a + b) * size == a * size + b * size >= a * size
    ensures 1 * size == size
  {
  }

  /** Group g is the `groupSize` rows from g * groupSize on, both in the matrix and in the control. */
  lemma GroupsAreContiguous(p: Projection, g: nat, t: nat, c: nat, w: Grid<real>)
    requires Loads(p) && g < |p.scales| && t < p.groupSize && c < 8 * p.words && SameShape(p, w)
    ensures g * p.groupSize + t < |p.qweight|
    ensures var r := g * p.groupSize + t;
            var q: int := Unpack(p.qweight, AWQ_REVERSE_ORDER)[r][c];
            var z: int := Unpack(p.qzeros, AWQ_REVERSE_ORDER)[g][c];
            && Dequantised(p, 0)[r][c] == (q - z) as real * p.scales[g][c]
            && Recovered(p, w)[r][c] ==
               (if p.scales[g][c] == 0.0 then 0 else Rint(w[r][c] / p.scales[g][c])) + z
  {
    hide *;
    GroupOf(p, g, t);
    EntryOfGroup(p, g, g * p.groupSize + t, c, w);
  }

  lemma EntryOfGroup(p: Projection, g: nat, r: nat, c: nat, w: Grid<real>)
    requires Loads(p) && r < |p.qweight| && c < 8 * p.words && Group(p, r) == g && SameShape(p, w)
    ensures var q: int := Unpack(p.qweight, AWQ_REVERSE_ORDER)[r][c];
            var z: int := Unpack(p.qzeros, AWQ_REVERSE_ORDER)[g][c];
            && Dequantised(p, 0)[r][c] == (q - z) as real * p.scales[g][c]
            && Recovered(p, w)[r][c] ==
               (if p.scales[g][c] == 0.0 then 0 else Rint(w[r][c] / p.scales[g][c])) + z
  {
    hide Unpack, Group, Rint, Dequantised, DequantisedRow, Recovered;
    RintOfZero();
  }

  lemma GroupOf(p: Projection, g: nat, t: nat)
    requires Loads(p) && g < |p.scales| && t < p.groupSize
    ensures g * p.groupSize + t < |p.qweight|
    ensures Group(p, g * p.groupSize + t) == g
  {
    RowInside(|p.scales|, p.groupSize, g, t);
    assert p.groupSize * g == g * p.groupSize;
    DivUnique(p.groupSize, g, t);
  }

  /** Two groups of two rows: every integer is 1 and every zero point 0; the scales are 1 and 2. */
  function TwoGroups(): Projection {
    Projection([[0x1111_1111], [0x1111_1111], [0x1111_1111], [0x1111_1111]], [[0], [0]],
               [seq(8, _ => 1.0), seq(8, _ => 2.0)], 2, 1)
  }

  lemma SameDigits(d: nat, w: int32)
    requires (d == 1 && w == 0x1111_1111) || (d == 0 && w == 0)
    ensures UnpackRow([w], AWQ_REVERSE_ORDER) == [d, d, d, d, d, d, d, d]
  {
    var row: seq<int> := [d, d, d, d, d, d, d, d];
    assert NibbleRow(row);
    hide UnpackRow, PackRow, NibbleRow;
    AwqOrdersAreInverse();
    PackedWord(row);
    UnpackOfPackRow(row, AWQ_ORDER, AWQ_REVERSE_ORDER);
  }

  /** Its rows are 1, 1, 2 and 2, and the control accepts them. */
  lemma TwoGroupsRows()
    ensures Loads(TwoGroups())
    ensures Dequantised(TwoGroups(), 0) ==
            [seq(8, _ => 1.0), seq(8, _ => 1.0), seq(8, _ => 2.0), seq(8, _ => 2.0)]
    ensures Recovered(TwoGroups(), Dequantised(TwoGroups(), 0)) == Weights(TwoGroups())
  {
    var p := TwoGroups();
    AllScaled(p);
    hide Recovered, Dequantised, Weights, ZeroScalesAgree, ScaleAt, StepsAt;
    ShiftIsCaught(p, 0);
    var w := Dequantised(p, 0);
    var rows := [seq(8, _ => 1.0), seq(8, _ => 1.0), seq(8, _ => 2.0), seq(8, _ => 2.0)];
    forall r: nat | r < 4 ensures w[r] == rows[r] {
      assert |w[r]| == 8;
      forall c: nat | c < 8 ensures w[r][c] == rows[r][c] {
        TwoGroupsEntry(r, c);
      }
    }
  }

  lemma TwoGroupsEntry(r: nat, c: nat)
    requires r < 4 && c < 8 && Loads(TwoGroups())
    ensures Dequantised(TwoGroups(), 0)[r][c] == if r < 2 then 1.0 else 2.0
  {
    hide UnpackRow, Recovered, Dequantised, DequantisedRow;
    var p := TwoGroups();
    SameDigits(1, 0x1111_1111);
    SameDigits(0, 0);
    GroupsAreContiguous(p, r / 2, r % 2, c, Dequantised(p, 0));
  }

  lemma AllScaled(p: Projection)
    requires Loads(p) && forall g, c :: 0 <= g < |p.scales| && 0 <= c < |p.scales[g]| ==> p.scales[g][c] != 0.0
    ensures ZeroScalesAgree(p)
  {
    hide StepsAt;
  }
}
