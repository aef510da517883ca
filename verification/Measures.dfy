/** The provenance table's choice of entries (ops/manifest.py, `latest_per_measure`): of every measure
    the newest entry is shown, and the others are counted. */
module Measures {
  import opened Basics

  /** (metric, arm); either may be absent from the entry. */
  datatype Key = Key(metric: Option<string>, arm: Option<string>)

  /** A manifest line; an absent time reads as "", the rest is not looked at. */
  datatype Entry = Entry(key: Key, recordedAt: string, rest: string)

  // ----- times are compared as strings -----

  /** a < b, code point by code point. */
  predicate Before(a: string, b: string) {
    b != "" && (a == "" || a[0] < b[0] || (a[0] == b[0] && Before(a[1..], b[1..])))
  }

  lemma {:induction false} BeforeIsTotal(a: string, b: string)
    ensures !(Before(a, b) && Before(b, a))
    ensures Before(a, b) || a == b || Before(b, a)
  {
    if a == "" || b == "" || a[0] != b[0] {
    } else {
      BeforeIsTotal(a[1..], b[1..]);
      assert a == [a[0]] + a[1..] && b == [b[0]] + b[1..];
    }
  }

  lemma {:induction false} BeforeIsTransitive(a: string, b: string, c: string)
    requires !Before(b, a) && !Before(c, b)
    ensures !Before(c, a)
  {
    if a == "" || b == "" || c == "" || !(a[0] == b[0] == c[0]) {
    } else {
      BeforeIsTransitive(a[1..], b[1..], c[1..]);
    }
  }

  /** a < b without recursion: the two agree up to some k, where a ends or has the smaller character. */
  ghost predicate Earlier(a: string, b: string) {
    exists k :: 0 <= k <= |a| && k < |b| && PartAt(a, b, k)
  }

  ghost predicate PartAt(a: string, b: string, k: nat)
    requires k <= |a| && k < |b|
  {
    a[..k] == b[..k] && (k == |a| || a[k] < b[k])
  }

  /** The character-by-character comparison is that order. */
  lemma {:induction false} BeforeIsEarlier(a: string, b: string)
    ensures Before(a, b) <==> Earlier(a, b)
  {
    if b == "" {
    } else if a == "" || a[0] != b[0] {
      if Before(a, b) {
        assert PartAt(a, b, 0);
      }
      if k :| 0 <= k <= |a| && k < |b| && PartAt(a, b, k) {
        FirstDiffers(a, b, k);
      }
    } else {
      BeforeIsEarlier(a[1..], b[1..]);
      if k :| 0 <= k <= |a[1..]| && k < |b[1..]| && PartAt(a[1..], b[1..], k) {
        PartShifts(a, b, k);
      }
      if k :| 0 <= k <= |a| && k < |b| && PartAt(a, b, k) {
        SameStart(a, b, k);
        PartShifts(a, b, k - 1);
      }
    }
  }

  lemma FirstDiffers(a: string, b: string, k: nat)
    requires k <= |a| && k < |b| && PartAt(a, b, k) && (a == "" || a[0] != b[0])
    ensures k == 0
  {
    if k > 0 {
      Agree(a, b, k, 0);
    }
  }

  lemma Agree(a: string, b: string, k: nat, i: nat)
    requires i < k <= |a| && k <= |b| && a[..k] == b[..k]
    ensures a[i] == b[i]
  {
    assert a[i] == a[..k][i] && b[i] == b[..k][i];
  }

  lemma SameStart(a: string, b: string, k: nat)
    requires a != "" && b != "" && a[0] == b[0] && k <= |a| && k < |b| && PartAt(a, b, k)
    ensures k > 0
  {
  }

  lemma PartShifts(a: string, b: string, k: nat)
    requires a != "" && b != "" && a[0] == b[0] && k < |a| && k + 1 < |b|
    ensures PartAt(a, b, k + 1) <==> PartAt(a[1..], b[1..], k)
  {
    assert a[..k + 1] == [a[0]] + a[1..][..k] && b[..k + 1] == [b[0]] + b[1..][..k];
    if a[..k + 1] == b[..k + 1] {
      assert a[..k + 1][1..] == a[1..][..k] && b[..k + 1][1..] == b[1..][..k];
    }
  }

  lemma EarlierIsTotal(a: string, b: string)
    ensures !(Earlier(a, b) && Earlier(b, a))
    ensures Earlier(a, b) || a == b || Earlier(b, a)
  {
    BeforeIsEarlier(a, b);
    BeforeIsEarlier(b, a);
    BeforeIsTotal(a, b);
  }

  lemma EarlierIsTransitive(a: string, b: string, c: string)
    requires !Earlier(b, a) && !Earlier(c, b)
    ensures !Earlier(c, a)
  {
    BeforeIsEarlier(b, a);
    BeforeIsEarlier(c, b);
    BeforeIsEarlier(c, a);
    BeforeIsTransitive(a, b, c);
  }

  // ----- the newest entry of a measure -----

  /** No entry of the measure is newer, and of those as new this one was appended last. */
  ghost predicate IsLatest(entries: seq<Entry>, i: nat)
    requires i < |entries|
  {
    forall j :: 0 <= j < |entries| && entries[j].key == entries[i].key ==> Yields(entries, j, i)
  }

  ghost predicate Yields(entries: seq<Entry>, j: nat, i: nat)
    requires i < |entries| && j < |entries|
  {
    if j <= i then !Earlier(entries[i].recordedAt, entries[j].recordedAt)
    else Earlier(entries[j].recordedAt, entries[i].recordedAt)
  }

  /** A measure has at most one such entry. */
  lemma LatestIsUnique(entries: seq<Entry>, i: nat, j: nat)
    requires i < |entries| && j < |entries| && entries[i].key == entries[j].key
    requires IsLatest(entries, i) && IsLatest(entries, j)
    ensures i == j
  {
    hide Earlier;
    assert Yields(entries, j, i) && Yields(entries, i, j);
    EarlierIsTotal(entries[i].recordedAt, entries[j].recordedAt);
  }

  /** The measures, in the order in which they first appear. */
  ghost function FirstKeys(entries: seq<Entry>): seq<Key> {
    if entries == [] then []
    else
      var before, k := FirstKeys(entries[..|entries| - 1]), entries[|entries| - 1].key;
      if k in before then before else before + [k]
  }

  /** Every measure once, and no other. */
  lemma {:induction false} FirstKeysAreAll(entries: seq<Entry>)
    ensures Distinct(FirstKeys(entries))
    ensures forall k :: k in FirstKeys(entries) <==> exists i :: 0 <= i < |entries| && entries[i].key == k
  {
    if entries == [] {
    } else {
      var n := |entries| - 1;
      var t := entries[..n];
      FirstKeysAreAll(t);
      forall k | k in FirstKeys(entries) ensures exists i :: 0 <= i < |entries| && entries[i].key == k {
        if k in FirstKeys(t) {
          var i :| 0 <= i < |t| && t[i].key == k;
          assert entries[i].key == k;
        }
      }
      forall i | 0 <= i < |entries| ensures entries[i].key in FirstKeys(entries) {
        if i < n {
          assert t[i].key in FirstKeys(t);
        }
      }
    }
  }

  /** Some entry of measure `k` comes before every entry of measure `l`. */
  ghost predicate AppearsFirst(entries: seq<Entry>, k: Key, l: Key) {
    exists a :: 0 <= a < |entries| && entries[a].key == k && AllAfter(entries, l, a)
  }

  ghost predicate AllAfter(entries: seq<Entry>, l: Key, a: nat) {
    forall b :: 0 <= b < |entries| && entries[b].key == l ==> a < b
  }

  lemma {:induction false} FirstKeysInOrder(entries: seq<Entry>, i: nat, j: nat)
    requires i < j < |FirstKeys(entries)|
    ensures AppearsFirst(entries, FirstKeys(entries)[i], FirstKeys(entries)[j])
  {
    var n := |entries| - 1;
    var t, keys := entries[..n], FirstKeys(entries);
    FirstKeysAreAll(t);
    if j < |FirstKeys(t)| {
      FirstKeysInOrder(t, i, j);
      var a :| 0 <= a < |t| && t[a].key == keys[i] && AllAfter(t, keys[j], a);
      assert entries[a].key == keys[i] && AllAfter(entries, keys[j], a);
    } else {
      assert keys[i] in FirstKeys(t);
      var a :| 0 <= a < |t| && t[a].key == keys[i];
      assert forall b :: 0 <= b < n ==> t[b].key in FirstKeys(t) && t[b].key == entries[b].key;
      assert entries[a].key == keys[i] && AllAfter(entries, keys[j], a);
    }
  }

  /** What the loop holds after the entries read so far. */
  ghost predicate Kept(entries: seq<Entry>, order: seq<Key>, best: map<Key, Entry>) {
    && order == FirstKeys(entries)
    && (forall k :: k in best <==> k in order)
    && forall k :: k in best ==> ChosenFor(entries, k, best[k])
  }

  ghost predicate ChosenFor(entries: seq<Entry>, k: Key, e: Entry) {
    exists i :: 0 <= i < |entries| && entries[i] == e && e.key == k && IsLatest(entries, i)
  }

  lemma NewerWins(entries: seq<Entry>, i: nat, e: Entry)
    requires i < |entries| && entries[i].key == e.key && IsLatest(entries, i)
    ensures Earlier(e.recordedAt, entries[i].recordedAt) ==> IsLatest(entries + [e], i)
    ensures !Earlier(e.recordedAt, entries[i].recordedAt) ==> IsLatest(entries + [e], |entries|)
  {
    hide Earlier;
    var all := entries + [e];
    EarlierIsTotal(e.recordedAt, e.recordedAt);
    forall j | 0 <= j < |entries| && entries[j].key == e.key
      ensures Yields(all, j, i)
      ensures !Earlier(e.recordedAt, entries[i].recordedAt) ==> Yields(all, j, |entries|)
    {
      assert Yields(entries, j, i);
      EarlierIsTotal(entries[i].recordedAt, entries[j].recordedAt);
      if !Earlier(e.recordedAt, entries[i].recordedAt) {
        EarlierIsTransitive(entries[j].recordedAt, entries[i].recordedAt, e.recordedAt);
      }
    }
  }

  lemma OthersStay(entries: seq<Entry>, i: nat, e: Entry)
    requires i < |entries| && entries[i].key != e.key && IsLatest(entries, i)
    ensures IsLatest(entries + [e], i)
  {
    forall j | 0 <= j < |entries| && entries[j].key == entries[i].key ensures Yields(entries + [e], j, i) {
      assert Yields(entries, j, i);
    }
  }

  lemma FirstOfMeasure(entries: seq<Entry>, e: Entry)
    requires forall i :: 0 <= i < |entries| ==> entries[i].key != e.key
    ensures IsLatest(entries + [e], |entries|)
  {
    EarlierIsTotal(e.recordedAt, e.recordedAt);
  }

  lemma KeptStep(entries: seq<Entry>, order: seq<Key>, best: map<Key, Entry>, e: Entry)
    requires Kept(entries, order, best)
    ensures e.key in best && Earlier(e.recordedAt, best[e.key].recordedAt) ==> Kept(entries + [e], order, best)
    ensures e.key in best && !Earlier(e.recordedAt, best[e.key].recordedAt) ==>
              Kept(entries + [e], order, best[e.key := e])
    ensures e.key !in best ==> Kept(entries + [e], order + [e.key], best[e.key := e])
  {
    hide Earlier, IsLatest;
    var all := entries + [e];
    assert all[..|entries|] == entries;
    forall k | k in best && k != e.key ensures ChosenFor(all, k, best[k]) {
      var i :| 0 <= i < |entries| && entries[i] == best[k] && best[k].key == k && IsLatest(entries, i);
      OthersStay(entries, i, e);
      assert all[i] == best[k];
    }
    if e.key in best {
      var i :| 0 <= i < |entries| && entries[i] == best[e.key] && best[e.key].key == e.key && IsLatest(entries, i);
      NewerWins(entries, i, e);
      assert all[i] == best[e.key] && all[|entries|] == e;
    } else {
      FirstKeysAreAll(entries);
      FirstOfMeasure(entries, e);
      assert all[|entries|] == e;
    }
  }

  /** One entry a measure, in order of first appearance, each the newest of its measure; and how many
      are not shown. */
  method LatestPerMeasure(entries: seq<Entry>) returns (shown: seq<Entry>, hidden: nat)
    ensures |shown| + hidden == |entries|
    ensures |shown| == |FirstKeys(entries)|
    ensures forall k :: 0 <= k < |shown| ==> ChosenFor(entries, FirstKeys(entries)[k], shown[k])
  {
    var order: seq<Key>, best: map<Key, Entry> := [], map[];
    hidden := 0;
    for i := 0 to |entries|
      invariant Kept(entries[..i], order, best)
      invariant |order| + hidden == i
    {
      var entry := entries[i];
      KeptStep(entries[..i], order, best, entry);
      assert entries[..i + 1] == entries[..i] + [entry];
      if entry.key !in best {
        best := best[entry.key := entry];
        order := order + [entry.key];
      } else {
        hidden := hidden + 1;
        BeforeIsEarlier(entry.recordedAt, best[entry.key].recordedAt);
        if !Before(entry.recordedAt, best[entry.key].recordedAt) {
          best := best[entry.key := entry];
        }
      }
    }
    assert entries[..|entries|] == entries;
    shown := seq(|order|, k requires 0 <= k < |order| => best[order[k]]);
  }

  /** With no two entries of a measure recorded at one time, the choice ignores the order of the lines. */
  lemma ChoiceIgnoresOrder(a: seq<Entry>, b: seq<Entry>, k: Key, e: Entry, f: Entry)
    requires multiset(a) == multiset(b) && ChosenFor(a, k, e) && ChosenFor(b, k, f)
    requires forall i, j :: 0 <= i < |a| && 0 <= j < |a| && a[i].key == k == a[j].key ==>
               (a[i].recordedAt == a[j].recordedAt ==> a[i] == a[j])
    ensures e == f
  {
    hide Earlier;
    var i :| 0 <= i < |a| && a[i] == e && e.key == k && IsLatest(a, i);
    var j :| 0 <= j < |b| && b[j] == f && f.key == k && IsLatest(b, j);
    assert e in multiset(b) && f in multiset(a);
    var x :| 0 <= x < |b| && b[x] == e;
    var y :| 0 <= y < |a| && a[y] == f;
    assert Yields(b, x, j) && Yields(a, y, i);
    EarlierIsTotal(e.recordedAt, f.recordedAt);
  }

  /** Of an August and a September entry of one measure, appended in either order, September is chosen. */
  lemma SeptemberIsChosen(august: Entry, september: Entry, shown: Entry)
    requires august.key == september.key
    requires august.recordedAt == "2026-08-01T00:00:00Z" && september.recordedAt == "2026-09-01T00:00:00Z"
    ensures ChosenFor([august, september], august.key, shown) ==> shown == september
    ensures ChosenFor([september, august], august.key, shown) ==> shown == september
  {
    var a, b := august.recordedAt, september.recordedAt;
    assert a[..6] == "2026-0" == b[..6] && PartAt(a, b, 6);
    assert Earlier(a, b);
    EarlierIsTotal(a, b);
    hide Earlier;
    if ChosenFor([august, september], august.key, shown) {
      ChosenOfTwo([august, september], 0, 1, shown);
    }
    if ChosenFor([september, august], august.key, shown) {
      ChosenOfTwo([september, august], 1, 0, shown);
    }
  }

  lemma ChosenOfTwo(entries: seq<Entry>, old_: nat, new_: nat, shown: Entry)
    requires |entries| == 2 && old_ < 2 && new_ == 1 - old_
    requires entries[0].key == entries[1].key
    requires Earlier(entries[old_].recordedAt, entries[new_].recordedAt)
    requires !Earlier(entries[new_].recordedAt, entries[old_].recordedAt)
    requires ChosenFor(entries, entries[0].key, shown)
    ensures shown == entries[new_]
  {
    hide Earlier;
    var i :| 0 <= i < |entries| && entries[i] == shown && shown.key == entries[0].key && IsLatest(entries, i);
    assert Yields(entries, new_, i);
  }
}
