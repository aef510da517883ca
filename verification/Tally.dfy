/** The per-subject counts of the MMLU scorer and the two averages made from them (ops/vllm_score.py,
    `emit_dump`): the micro weighs each subject by its population in the whole split, the macro does
    not. None stands for the refusal when no population is known. */
module Tally {
  import opened Basics
  import opened RealSeq

  /** Right answers and questions of one subject. */
  datatype Slot = Slot(right: nat, total: nat)

  /** The dictionary `per`: its keys in insertion order, and their slots. */
  datatype Tallies = Tallies(order: seq<string>, per: map<string, Slot>)

  const NOTHING := Tallies([], map[])

  /** `per.setdefault(subject, [0, 0])`, then both counters. */
  function Count(t: Tallies, subject: string, ok: bool): Tallies {
    var slot := if subject in t.per then t.per[subject] else Slot(0, 0);
    Tallies(if subject in t.per then t.order else t.order + [subject],
            t.per[subject := Slot(slot.right + if ok then 1 else 0, slot.total + 1)])
  }

  function CountAll(asked: seq<(string, bool)>): Tallies {
    if asked == [] then NOTHING
    else Count(CountAll(asked[..|asked| - 1]), asked[|asked| - 1].0, asked[|asked| - 1].1)
  }

  // ----- what the counts are -----

  /** Questions of a subject, and those of them answered right. */
  ghost function Questions(asked: seq<(string, bool)>, subject: string): nat {
    if asked == [] then 0
    else Questions(asked[..|asked| - 1], subject) + if asked[|asked| - 1].0 == subject then 1 else 0
  }

  ghost function Rights(asked: seq<(string, bool)>, subject: string): nat {
    if asked == [] then 0
    else Rights(asked[..|asked| - 1], subject) + if asked[|asked| - 1] == (subject, true) then 1 else 0
  }

  ghost function AllRights(asked: seq<(string, bool)>): nat {
    if asked == [] then 0
    else AllRights(asked[..|asked| - 1]) + if asked[|asked| - 1].1 then 1 else 0
  }

  ghost predicate Proper(slot: Slot) {
    slot.total > 0 && slot.right <= slot.total
  }

  /** The keys are listed once each, and every slot holds a question. */
  ghost predicate Valid(t: Tallies) {
    && Distinct(t.order)
    && (forall s :: s in t.per <==> s in t.order)
    && forall s :: s in t.per ==> Proper(t.per[s])
  }

  /** Every subject asked has a slot with its own questions and right answers, and no other has one. */
  lemma {:induction false} SlotsCount(asked: seq<(string, bool)>)
    ensures Valid(CountAll(asked))
    ensures forall s :: s in CountAll(asked).per <==> Questions(asked, s) > 0
    ensures forall s :: s in CountAll(asked).per ==>
              CountAll(asked).per[s] == Slot(Rights(asked, s), Questions(asked, s))
  {
    if asked == [] {
    } else {
      var n := |asked| - 1;
      var before := asked[..n];
      SlotsCount(before);
      CountKeepsValid(CountAll(before), asked[n].0, asked[n].1);
      hide Valid;
      forall s ensures Rights(before, s) <= Questions(before, s) {
        RightsAmongQuestions(before, s);
      }
    }
  }

  lemma CountKeepsValid(t: Tallies, subject: string, ok: bool)
    requires Valid(t)
    ensures Valid(Count(t, subject, ok))
  {
  }

  lemma {:induction false} RightsAmongQuestions(asked: seq<(string, bool)>, s: string)
    ensures Rights(asked, s) <= Questions(asked, s)
  {
    if asked == [] {
    } else {
      RightsAmongQuestions(asked[..|asked| - 1], s);
    }
  }

  // ----- sums over the subjects -----

  ghost predicate Covers(per: map<string, Slot>, order: seq<string>) {
    forall i :: 0 <= i < |order| ==> order[i] in per && per[order[i]].total > 0
  }

  ghost function SlotSum(per: map<string, Slot>, order: seq<string>): Slot
    requires Covers(per, order)
  {
    if order == [] then Slot(0, 0)
    else
      var before, last := SlotSum(per, order[..|order| - 1]), per[order[|order| - 1]];
      Slot(before.right + last.right, before.total + last.total)
  }

  lemma {:induction false} SumUpdated(per: map<string, Slot>, order: seq<string>, s: string, slot: Slot)
    requires Covers(per, order) && Distinct(order) && s in per && slot.total > 0
    ensures Covers(per[s := slot], order)
    ensures var was, now := SlotSum(per, order), SlotSum(per[s := slot], order);
            if s in order
            then && now.right + per[s].right == was.right + slot.right
                 && now.total + per[s].total == was.total + slot.total
            else now == was
  {
    if order == [] {
    } else {
      var n := |order| - 1;
      SumUpdated(per, order[..n], s, slot);
      assert order == order[..n] + [order[n]];
    }
  }

  lemma {:induction false} SumIgnores(per: map<string, Slot>, order: seq<string>, s: string, slot: Slot)
    requires Covers(per, order) && s !in order
    ensures Covers(per[s := slot], order) && SlotSum(per[s := slot], order) == SlotSum(per, order)
  {
    if order == [] {
    } else {
      SumIgnores(per, order[..|order| - 1], s, slot);
    }
  }

  lemma CountAddsOne(t: Tallies, s: string, ok: bool)
    requires Valid(t)
    ensures var u := Count(t, s, ok);
            && Covers(t.per, t.order) && Covers(u.per, u.order)
            && SlotSum(u.per, u.order).total == SlotSum(t.per, t.order).total + 1
            && SlotSum(u.per, u.order).right == SlotSum(t.per, t.order).right + if ok then 1 else 0
  {
    var u := Count(t, s, ok);
    if s in t.per {
      SumUpdated(t.per, t.order, s, u.per[s]);
    } else {
      SumIgnores(t.per, t.order, s, u.per[s]);
      assert u.order[..|u.order| - 1] == t.order;
    }
  }

  /** Nothing is lost: the slots add up to the right answers and the questions of the whole run. */
  lemma {:induction false} SlotsAddUp(asked: seq<(string, bool)>)
    ensures Valid(CountAll(asked)) && Covers(CountAll(asked).per, CountAll(asked).order)
    ensures SlotSum(CountAll(asked).per, CountAll(asked).order) == Slot(AllRights(asked), |asked|)
  {
    SlotsCount(asked);
    if asked == [] {
    } else {
      var n := |asked| - 1;
      SlotsAddUp(asked[..n]);
      hide Valid, Covers;
      CountAddsOne(CountAll(asked[..n]), asked[n].0, asked[n].1);
    }
  }

  // ----- the two averages -----

  /** The size of each subject in the whole split. */
  type Populations = map<string, nat>

  function Population(populations: Populations, s: string): nat {
    if s in populations then populations[s] else 0
  }

  function TotalPopulation(order: seq<string>, populations: Populations): nat {
    if order == [] then 0
    else TotalPopulation(order[..|order| - 1], populations) + Population(populations, order[|order| - 1])
  }

  function Rate(per: map<string, Slot>, s: string): real
    requires s in per && per[s].total > 0
  {
    per[s].right as real / per[s].total as real
  }

  function Rates(per: map<string, Slot>, order: seq<string>): (rates: seq<real>)
    requires forall i :: 0 <= i < |order| ==> order[i] in per && per[order[i]].total > 0
    ensures |rates| == |order|
  {
    seq(|order|, i requires 0 <= i < |order| => Rate(per, order[i]))
  }

  function Weighed(per: map<string, Slot>, order: seq<string>, populations: Populations): (w: seq<real>)
    requires forall i :: 0 <= i < |order| ==> order[i] in per && per[order[i]].total > 0
    ensures |w| == |order|
  {
    seq(|order|, i requires 0 <= i < |order| =>
      Mul(Rate(per, order[i]), Population(populations, order[i]) as real))
  }

  datatype Averages = Refused | Averages(micro: real, macro: real)

  lemma {:induction false} NoSubjectNoPopulation(order: seq<string>, populations: Populations)
    ensures TotalPopulation(order, populations) > 0 ==> order != []
  {
  }

  function AveragesOf(t: Tallies, populations: Populations): Averages
    requires Valid(t)
  {
    var people := TotalPopulation(t.order, populations);
    if people == 0 then Refused
    else
      NoSubjectNoPopulation(t.order, populations);
      Averages(Sum(Weighed(t.per, t.order, populations)) / people as real * 100.0,
               Sum(Rates(t.per, t.order)) / |t.order| as real * 100.0)
  }

  lemma RatesSnoc(per: map<string, Slot>, order: seq<string>, populations: Populations)
    requires Covers(per, order) && order != []
    ensures var n := |order| - 1;
            && Rates(per, order)[..n] == Rates(per, order[..n])
            && Weighed(per, order, populations)[..n] == Weighed(per, order[..n], populations)
  {
  }

  lemma RateTimes(right: nat, total: nat, k: real)
    requires total > 0
    ensures Mul(right as real / total as real, Mul(k, total as real)) == Mul(k, right as real)
  {
    var q, t := right as real / total as real, total as real;
    assert q * t == right as real;
    assert q * (k * t) == k * (q * t);
  }

  lemma {:induction false} EqualRates(per: map<string, Slot>, order: seq<string>, each: nat)
    requires Covers(per, order) && each > 0
    requires forall i :: 0 <= i < |order| ==> per[order[i]].total == each
    ensures Sum(Rates(per, order)) == SlotSum(per, order).right as real / each as real
    ensures SlotSum(per, order).total == each * |order|
  {
    if order == [] {
    } else {
      var n := |order| - 1;
      EqualRates(per, order[..n], each);
      RatesSnoc(per, order, map[]);
      AddOver(SlotSum(per, order[..n]).right, per[order[n]].right, each);
      assert each * |order| == each * n + each;
    }
  }

  lemma AddOver(a: nat, b: nat, c: nat)
    requires c > 0
    ensures (a + b) as real / c as real == a as real / c as real + b as real / c as real
  {
  }

  /** Equal samples: the naive share of right answers is the macro, whatever the populations. */
  lemma NaiveIsMacro(asked: seq<(string, bool)>, populations: Populations, each: nat)
    requires forall s :: Questions(asked, s) > 0 ==> Questions(asked, s) == each
    ensures Valid(CountAll(asked))
    ensures var a := AveragesOf(CountAll(asked), populations);
            a.Averages? ==> asked != [] && a.macro == AllRights(asked) as real / |asked| as real * 100.0
  {
    SlotsCount(asked);
    SlotsAddUp(asked);
    var t := CountAll(asked);
    if TotalPopulation(t.order, populations) > 0 {
      NoSubjectNoPopulation(t.order, populations);
      assert t.order[0] in t.per;
      hide CountAll, AllRights, Questions, Rights, Sum, Rates, SlotSum;
      EqualRates(t.per, t.order, each);
      MacroOfEqual(t, populations, each);
    }
  }

  lemma MacroOfEqual(t: Tallies, populations: Populations, each: nat)
    requires Valid(t) && Covers(t.per, t.order) && TotalPopulation(t.order, populations) > 0 && each > 0
    requires Sum(Rates(t.per, t.order)) == SlotSum(t.per, t.order).right as real / each as real
    requires SlotSum(t.per, t.order).total == each * |t.order|
    ensures SlotSum(t.per, t.order).total > 0
    ensures AveragesOf(t, populations).Averages?
    ensures AveragesOf(t, populations).macro ==
            SlotSum(t.per, t.order).right as real / SlotSum(t.per, t.order).total as real * 100.0
  {
    hide Sum, Rates, SlotSum, Weighed, Valid, Covers, TotalPopulation, AveragesOf;
    NoSubjectNoPopulation(t.order, populations);
    EachTimes(SlotSum(t.per, t.order).right, each, |t.order|);
    MacroIs(t, populations);
  }

  lemma EachTimes(right: nat, each: nat, n: nat)
    requires each > 0 && n > 0
    ensures each * n > 0
    ensures right as real / each as real / n as real == right as real / (each * n) as real
  {
    assert (each * n) as real == each as real * n as real;
    OverBoth(right as real, each as real, n as real);
  }

  lemma MacroIs(t: Tallies, populations: Populations)
    requires Valid(t) && TotalPopulation(t.order, populations) > 0
    ensures t.order != [] && AveragesOf(t, populations).Averages?
    ensures AveragesOf(t, populations).macro == Sum(Rates(t.per, t.order)) / |t.order| as real * 100.0
  {
    hide Sum, Rates, Weighed, TotalPopulation;
    NoSubjectNoPopulation(t.order, populations);
  }

  lemma OverBoth(a: real, b: real, c: real)
    requires b > 0.0 && c > 0.0
    ensures b * c != 0.0 && a / b / c == a / (b * c)
  {
    var q := a / b / c;
    assert q * c == a / b;
    assert q * (b * c) == (q * c) * b;
  }

  /** The subject's population is k times the questions asked of it. */
  ghost predicate Proportional(populations: Populations, s: string, questions: nat, k: real) {
    Population(populations, s) as real == Mul(k, questions as real)
  }

  lemma {:induction false} ProportionalSums(per: map<string, Slot>, order: seq<string>,
                                            populations: Populations, k: real)
    requires Covers(per, order)
    requires forall i :: 0 <= i < |order| ==> Proportional(populations, order[i], per[order[i]].total, k)
    ensures Sum(Weighed(per, order, populations)) == Mul(k, SlotSum(per, order).right as real)
    ensures TotalPopulation(order, populations) as real == Mul(k, SlotSum(per, order).total as real)
  {
    if order == [] {
      MulZero(k);
    } else {
      var n := |order| - 1;
      ProportionalSums(per, order[..n], populations, k);
      RatesSnoc(per, order, populations);
      LastTerms(per, order, populations);
      hide Rates, Weighed, Mul, Population;
      var last := per[order[n]];
      assert Proportional(populations, order[n], last.total, k);
      RateTimes(last.right, last.total, k);
      AddProducts(k, SlotSum(per, order[..n]).right, last.right);
      AddProducts(k, SlotSum(per, order[..n]).total, last.total);
    }
  }

  lemma MulZero(k: real)
    ensures Mul(k, 0.0) == 0.0
  {
  }

  lemma AddProducts(k: real, a: nat, b: nat)
    ensures Mul(k, (a + b) as real) == Mul(k, a as real) + Mul(k, b as real)
  {
  }

  /** Samples in proportion to the populations (a census, for one): the naive share is the micro. */
  lemma NaiveIsMicro(asked: seq<(string, bool)>, populations: Populations, k: real)
    requires forall s :: Questions(asked, s) > 0 ==> Proportional(populations, s, Questions(asked, s), k)
    ensures Valid(CountAll(asked))
    ensures var a := AveragesOf(CountAll(asked), populations);
            a.Averages? ==> asked != [] && a.micro == AllRights(asked) as real / |asked| as real * 100.0
  {
    SlotsCount(asked);
    SlotsAddUp(asked);
    var t := CountAll(asked);
    if TotalPopulation(t.order, populations) > 0 {
      hide CountAll, AllRights, Questions, Rights, Sum, Weighed, SlotSum, Population, Mul, Proportional, Distinct;
      ProportionalSums(t.per, t.order, populations, k);
      CancelFactor(k, AllRights(asked) as real, |asked| as real);
    }
  }

  lemma CancelFactor(k: real, a: real, b: real)
    requires Mul(k, b) != 0.0
    ensures b != 0.0 && Mul(k, a) / Mul(k, b) == a / b
  {
    var q := a / b;
    assert q * b == a;
    assert q * (k * b) == k * a;
  }

  ghost predicate RatesWithin(per: map<string, Slot>, order: seq<string>, lo: real, hi: real)
    requires Covers(per, order)
  {
    forall i :: 0 <= i < |order| ==> lo <= Rate(per, order[i]) <= hi
  }

  lemma {:induction false} SumsWithin(per: map<string, Slot>, order: seq<string>,
                                      populations: Populations, lo: real, hi: real)
    requires Covers(per, order) && RatesWithin(per, order, lo, hi)
    ensures Mul(|order| as real, lo) <= Sum(Rates(per, order)) <= Mul(|order| as real, hi)
    ensures var people := TotalPopulation(order, populations) as real;
            Mul(people, lo) <= Sum(Weighed(per, order, populations)) <= Mul(people, hi)
  {
    hide Rate, Rates, Weighed, Population;
    if order == [] {
    } else {
      hide Mul;
      var n := |order| - 1;
      SumsWithin(per, order[..n], populations, lo, hi);
      RatesSnoc(per, order, populations);
      var p, r := Population(populations, order[n]) as real, Rate(per, order[n]);
      Bounds(p, r, lo, hi);
      MulSplit(TotalPopulation(order[..n], populations) as real, p, lo, hi);
      MulSplit(n as real, 1.0, lo, hi);
      LastTerms(per, order, populations);
    }
  }

  lemma LastTerms(per: map<string, Slot>, order: seq<string>, populations: Populations)
    requires Covers(per, order) && order != []
    ensures var n := |order| - 1;
            && Rates(per, order)[n] == Rate(per, order[n])
            && Weighed(per, order, populations)[n] ==
               Mul(Rate(per, order[n]), Population(populations, order[n]) as real)
  {
  }

  lemma Bounds(p: real, r: real, lo: real, hi: real)
    requires p >= 0.0 && lo <= r <= hi
    ensures Mul(p, lo) <= Mul(r, p) <= Mul(p, hi)
  {
  }

  /** Both averages lie between the least and the greatest rate of a subject. */
  lemma AveragesWithinRates(t: Tallies, populations: Populations, lo: real, hi: real)
    requires Valid(t) && Covers(t.per, t.order) && RatesWithin(t.per, t.order, lo, hi)
    ensures var a := AveragesOf(t, populations);
            a.Averages? ==> 100.0 * lo <= a.micro <= 100.0 * hi && 100.0 * lo <= a.macro <= 100.0 * hi
  {
    var people := TotalPopulation(t.order, populations);
    if people > 0 {
      NoSubjectNoPopulation(t.order, populations);
      SumsWithin(t.per, t.order, populations, lo, hi);
      QuotientWithin(Sum(Weighed(t.per, t.order, populations)), people as real, lo, hi);
      QuotientWithin(Sum(Rates(t.per, t.order)), |t.order| as real, lo, hi);
    }
  }

  // ----- the micro is what a census would score -----

  /** The questions of `full` are its own k times over for every subject asked, at the rate of the sample. */
  ghost predicate Census(asked: seq<(string, bool)>, full: seq<(string, bool)>, populations: Populations, k: real) {
    && (forall s :: Questions(full, s) > 0 ==> Questions(asked, s) > 0)
    && (forall s :: Questions(asked, s) > 0 ==> ScaledUp(asked, full, populations, k, s))
  }

  ghost predicate ScaledUp(asked: seq<(string, bool)>, full: seq<(string, bool)>, populations: Populations,
                           k: real, s: string) {
    && Questions(full, s) as real == Mul(k, Population(populations, s) as real)
    && Rights(full, s) * Questions(asked, s) == Rights(asked, s) * Questions(full, s)
  }

  /** Questions and right answers of the listed subjects. */
  ghost function Over(full: seq<(string, bool)>, order: seq<string>): Slot {
    if order == [] then Slot(0, 0)
    else
      var before, s := Over(full, order[..|order| - 1]), order[|order| - 1];
      Slot(before.right + Rights(full, s), before.total + Questions(full, s))
  }

  lemma {:induction false} OverNothing(order: seq<string>)
    ensures Over([], order) == Slot(0, 0)
  {
    if order == [] {
    } else {
      OverNothing(order[..|order| - 1]);
    }
  }

  /** One more question counts once, in the list that holds its subject. */
  lemma {:induction false} OverSnoc(full: seq<(string, bool)>, order: seq<string>)
    requires full != [] && Distinct(order)
    ensures var last, was := full[|full| - 1], Over(full[..|full| - 1], order);
            Over(full, order) == if last.0 in order then Slot(was.right + if last.1 then 1 else 0, was.total + 1)
                                 else was
  {
    if order == [] {
    } else {
      var n := |order| - 1;
      OverSnoc(full, order[..n]);
      assert order == order[..n] + [order[n]];
    }
  }

  lemma {:induction false} OverAll(full: seq<(string, bool)>, order: seq<string>)
    requires Distinct(order) && forall s :: Questions(full, s) > 0 ==> s in order
    ensures Over(full, order) == Slot(AllRights(full), |full|)
  {
    if full == [] {
      OverNothing(order);
    } else {
      var n := |full| - 1;
      forall s | Questions(full[..n], s) > 0 ensures s in order {
        assert Questions(full, s) > 0;
      }
      assert Questions(full, full[n].0) > 0;
      OverAll(full[..n], order);
      OverSnoc(full, order);
    }
  }

  lemma CensusTerm(right: nat, total: nat, people: nat, fullRight: nat, fullTotal: nat, k: real)
    requires total > 0 && fullTotal as real == Mul(k, people as real)
    requires fullRight * total == right * fullTotal
    ensures Mul(k, Mul(right as real / total as real, people as real)) == fullRight as real
  {
    var q, t := right as real / total as real, total as real;
    assert q * t == right as real;
    assert fullRight as real * t == right as real * fullTotal as real;
    assert (q * fullTotal as real) * t == (q * t) * fullTotal as real;
    SameProduct(q * fullTotal as real, fullRight as real, t);
    assert k * (q * people as real) == q * (k * people as real);
  }

  lemma SameProduct(a: real, b: real, t: real)
    requires t > 0.0 && a * t == b * t
    ensures a == b
  {
    assert t * (a - b) == 0.0 == t * (b - a);
    Positive(t, a - b);
    Positive(t, b - a);
  }

  lemma {:induction false} CensusSums(asked: seq<(string, bool)>, full: seq<(string, bool)>,
                                      populations: Populations, k: real, per: map<string, Slot>, order: seq<string>)
    requires Covers(per, order)
    requires forall i :: 0 <= i < |order| ==> per[order[i]] == Slot(Rights(asked, order[i]), Questions(asked, order[i]))
    requires forall i :: 0 <= i < |order| ==> ScaledUp(asked, full, populations, k, order[i])
    ensures Mul(k, Sum(Weighed(per, order, populations))) == Over(full, order).right as real
    ensures Mul(k, TotalPopulation(order, populations) as real) == Over(full, order).total as real
  {
    hide Rate, Rates, Weighed, Population, Questions, Rights;
    if order == [] {
      MulZero(k);
    } else {
      hide Mul;
      var n := |order| - 1;
      var s := order[n];
      CensusSums(asked, full, populations, k, per, order[..n]);
      RatesSnoc(per, order, populations);
      LastTerms(per, order, populations);
      RateIs(per, s);
      assert ScaledUp(asked, full, populations, k, s);
      CensusTerm(Rights(asked, s), Questions(asked, s), Population(populations, s),
                 Rights(full, s), Questions(full, s), k);
      MulAdds(k, Sum(Weighed(per, order[..n], populations)), Mul(Rate(per, s), Population(populations, s) as real));
      AddProducts(k, TotalPopulation(order[..n], populations), Population(populations, s));
    }
  }

  lemma RateIs(per: map<string, Slot>, s: string)
    requires s in per && per[s].total > 0
    ensures Rate(per, s) == per[s].right as real / per[s].total as real
  {
  }

  lemma MulAdds(k: real, a: real, b: real)
    ensures Mul(k, a + b) == Mul(k, a) + Mul(k, b)
  {
  }

  /** The micro is the share of right answers of every census of the subjects asked that keeps their rates,
      however unequal the sampling; it is refused exactly when such a census is empty. */
  lemma MicroIsCensus(asked: seq<(string, bool)>, full: seq<(string, bool)>, populations: Populations, k: real)
    requires k > 0.0 && Census(asked, full, populations, k)
    ensures Valid(CountAll(asked))
    ensures var a := AveragesOf(CountAll(asked), populations);
            && (a.Refused? <==> full == [])
            && (full != [] ==> a.micro == AllRights(full) as real / |full| as real * 100.0)
  {
    hide AllRights, Sum, Weighed, Population, Rates, Questions, Rights;
    SlotsCount(asked);
    SlotsAddUp(asked);
    var t := CountAll(asked);
    OverAll(full, t.order);
    forall i | 0 <= i < |t.order| ensures ScaledUp(asked, full, populations, k, t.order[i]) {
      assert t.order[i] in t.per;
    }
    CensusSums(asked, full, populations, k, t.per, t.order);
    hide CountAll, Mul, Over, TotalPopulation;
    var people := TotalPopulation(t.order, populations) as real;
    FactorIsZero(k, people);
    if people > 0.0 {
      CancelFactor(k, Sum(Weighed(t.per, t.order, populations)), people);
    }
  }

  lemma FactorIsZero(k: real, a: real)
    requires k > 0.0
    ensures Mul(k, a) == 0.0 <==> a == 0.0
  {
  }

  /** The macro is the micro of subjects of one size. */
  lemma MacroIsEqualMicro(t: Tallies, populations: Populations, level: Populations, each: nat)
    requires Valid(t) && each > 0 && AveragesOf(t, populations).Averages?
    requires forall s :: s in t.order ==> Population(level, s) == each
    ensures AveragesOf(t, level).Averages?
    ensures AveragesOf(t, level).micro == AveragesOf(t, populations).macro
  {
    LevelSums(t.per, t.order, level, each);
    NoSubjectNoPopulation(t.order, populations);
    hide Sum, Rates, Weighed, TotalPopulation;
    EachMore(each, |t.order|);
    CancelFactor(each as real, Sum(Rates(t.per, t.order)), |t.order| as real);
  }

  lemma EachMore(each: nat, n: nat)
    requires each > 0 && n > 0
    ensures each * n > 0 && (each * n) as real == Mul(each as real, n as real) > 0.0
  {
  }

  lemma {:induction false} LevelSums(per: map<string, Slot>, order: seq<string>, level: Populations, each: nat)
    requires Covers(per, order) && forall s :: s in order ==> Population(level, s) == each
    ensures Sum(Weighed(per, order, level)) == Mul(each as real, Sum(Rates(per, order)))
    ensures TotalPopulation(order, level) == each * |order|
  {
    hide Rate, Rates, Weighed, Population;
    if order == [] {
      MulZero(each as real);
    } else {
      hide Mul;
      var n := |order| - 1;
      LevelSums(per, order[..n], level, each);
      RatesSnoc(per, order, level);
      LastTerms(per, order, level);
      assert order[n] in order;
      MulTurns(Rate(per, order[n]), each as real);
      MulAdds(each as real, Sum(Rates(per, order[..n])), Rate(per, order[n]));
      OneMoreOf(each, n);
    }
  }

  lemma MulTurns(a: real, b: real)
    ensures Mul(a, b) == Mul(b, a)
  {
  }

  lemma OneMoreOf(each: nat, n: nat)
    ensures each * (n + 1) == each * n + each
  {
  }

  // ----- a sample that weighs its subjects unequally -----

  /** n questions of one subject, all right or all wrong. */
  ghost function Block(s: string, ok: bool, n: nat): (b: seq<(string, bool)>)
    ensures |b| == n
  {
    seq(n, _ => (s, ok))
  }

  lemma {:induction false} BlockCounts(s: string, ok: bool, n: nat, other: string)
    ensures Questions(Block(s, ok, n), other) == if s == other then n else 0
    ensures Rights(Block(s, ok, n), other) == if s == other && ok then n else 0
    ensures AllRights(Block(s, ok, n)) == if ok then n else 0
  {
    if n == 0 {
    } else {
      BlockCounts(s, ok, n - 1, other);
      assert Block(s, ok, n)[..n - 1] == Block(s, ok, n - 1);
    }
  }

  lemma {:induction false} CountsConcat(a: seq<(string, bool)>, b: seq<(string, bool)>, s: string)
    ensures Questions(a + b, s) == Questions(a, s) + Questions(b, s)
    ensures Rights(a + b, s) == Rights(a, s) + Rights(b, s)
    ensures AllRights(a + b) == AllRights(a) + AllRights(b)
  {
    if b == [] {
      assert a + b == a;
    } else {
      assert (a + b)[..|a + b| - 1] == a + b[..|b| - 1];
      CountsConcat(a, b[..|b| - 1], s);
    }
  }

  ghost function TwoSubjects(right: nat, wrong: nat): seq<(string, bool)> {
    Block("A", true, right) + Block("B", false, wrong)
  }

  lemma TwoSubjectsCount(right: nat, wrong: nat, s: string)
    ensures Questions(TwoSubjects(right, wrong), s) == if s == "A" then right else if s == "B" then wrong else 0
    ensures Rights(TwoSubjects(right, wrong), s) == if s == "A" then right else 0
    ensures AllRights(TwoSubjects(right, wrong)) == right && |TwoSubjects(right, wrong)| == right + wrong
  {
    BlockCounts("A", true, right, s);
    BlockCounts("B", false, wrong, s);
    CountsConcat(Block("A", true, right), Block("B", false, wrong), s);
  }

  /** Forty questions each, all right and none right, of 100 and 300: the micro is 25, the macro 50. */
  lemma UnequalPopulations()
    ensures var t := CountAll(TwoSubjects(40, 40));
            Valid(t) && AveragesOf(t, map["A" := 100, "B" := 300]) == Averages(25.0, 50.0)
  {
    hide AveragesOf, CountAll, TwoSubjects, Questions, Rights, AllRights;
    var asked, full := TwoSubjects(40, 40), TwoSubjects(100, 300);
    var populations: Populations := map["A" := 100, "B" := 300];
    forall s ensures Questions(full, s) > 0 ==> Questions(asked, s) > 0
      ensures Questions(asked, s) > 0 ==> ScaledUp(asked, full, populations, 1.0, s)
      ensures Questions(asked, s) > 0 ==> Questions(asked, s) == 40
    {
      TwoSubjectsCount(40, 40, s);
      TwoSubjectsCount(100, 300, s);
    }
    TwoSubjectsCount(40, 40, "A");
    TwoSubjectsCount(100, 300, "A");
    MicroIsCensus(asked, full, populations, 1.0);
    NaiveIsMacro(asked, populations, 40);
  }
}
