/** The streaming shard writer (ops/awq_dequant.py, `ShardWriter`): tensors go into the pending shard
    until the next one would pass the limit; shards are saved under temporary names and renamed when
    their count is known. */
module Shards {
  import opened Numerals

  /** A tensor: its name, `nbytes` and number of elements. */
  datatype Tensor = Tensor(name: string, bytes: nat, elements: nat)

  type Shard = seq<Tensor>

  // ----- the values behind the object -----

  function Bytes(s: seq<Tensor>): nat {
    if s == [] then 0 else Bytes(s[..|s| - 1]) + s[|s| - 1].bytes
  }

  function Elements(s: seq<Tensor>): nat {
    if s == [] then 0 else Elements(s[..|s| - 1]) + s[|s| - 1].elements
  }

  /** Assignment in an insertion-ordered dictionary. */
  function Put(pending: Shard, t: Tensor): Shard {
    if pending == [] then [t]
    else if pending[0].name == t.name then [t] + pending[1..]
    else [pending[0]] + Put(pending[1..], t)
  }

  /** A name that is pending keeps its place and gets the new tensor; a new one goes to the end. */
  lemma {:induction false} PutIsAssignment(pending: Shard, t: Tensor)
    ensures (forall i :: 0 <= i < |pending| ==> pending[i].name != t.name) ==> Put(pending, t) == pending + [t]
    ensures forall i :: 0 <= i < |pending| && FirstNamed(pending, t.name, i) ==> Put(pending, t) == pending[i := t]
  {
    if pending == [] {
    } else {
      var rest := pending[1..];
      PutIsAssignment(rest, t);
      assert pending == [pending[0]] + rest;
      if pending[0].name != t.name {
        forall i | 0 <= i < |pending| && FirstNamed(pending, t.name, i) ensures Put(pending, t) == pending[i := t] {
          assert forall j :: 0 <= j < |rest| ==> rest[j] == pending[j + 1];
          assert FirstNamed(rest, t.name, i - 1);
        }
      }
    }
  }

  ghost predicate FirstNamed(pending: Shard, name: string, i: nat)
    requires i < |pending|
  {
    pending[i].name == name && forall j :: 0 <= j < i ==> pending[j].name != name
  }

  datatype Writer = Writer(pending: Shard, acc: nat, parts: seq<Shard>, total: nat, weights: nat)

  const EMPTY := Writer([], 0, [], 0, 0)

  function Flush(w: Writer): Writer {
    w.(pending := [], acc := 0, parts := w.parts + [w.pending])
  }

  function Add(w: Writer, t: Tensor, limit: nat): Writer {
    var v := if w.pending != [] && w.acc + t.bytes > limit then Flush(w) else w;
    v.(pending := Put(v.pending, t), acc := v.acc + t.bytes,
       total := v.total + t.bytes, weights := v.weights + t.elements)
  }

  function Run(limit: nat, ts: seq<Tensor>): Writer {
    if ts == [] then EMPTY else Add(Run(limit, ts[..|ts| - 1]), ts[|ts| - 1], limit)
  }

  /** The shards `finish` writes. */
  function ShardsOf(w: Writer): seq<Shard> {
    w.parts + if w.pending == [] then [] else [w.pending]
  }

  function TmpName(i: nat): string {
    ".shard-" + ZeroPad(Numeral(i, 10), 5) + ".safetensors"
  }

  /** The name of shard i of n. */
  function FinalName(i: nat, n: nat): string {
    if n == 1 then "model.safetensors"
    else "model-" + ZeroPad(Numeral(i + 1, 10), 5) + "-of-" + ZeroPad(Numeral(n, 10), 5) + ".safetensors"
  }

  function ShardsIn(parts: seq<(string, Shard)>): (s: seq<Shard>)
    ensures |s| == |parts|
  {
    seq(|parts|, i requires 0 <= i < |parts| => parts[i].1)
  }

  // ----- the object -----

  class ShardWriter {
    const limit: nat
    var pending: Shard
    var acc: nat
    var parts: seq<(string, Shard)>
    var total: nat
    var weights: nat
    /** The output directory: what `save_file` and `rename` leave in it. */
    var files: map<string, Shard>

    ghost predicate Valid()
      reads this
    {
      && limit >= 1
      && (forall i :: 0 <= i < |parts| ==> parts[i].0 == TmpName(i))
      && Directory(files, Saved(), 0)
    }

    ghost function Saved(): seq<Shard>
      reads this
    {
      ShardsIn(parts)
    }

    ghost function Contents(): Writer
      reads this
    {
      Writer(pending, acc, Saved(), total, weights)
    }

    constructor (shardBytes: int)
      ensures Valid() && Contents() == EMPTY
      ensures limit == if shardBytes >= 1 then shardBytes else 1
    {
      limit := if shardBytes >= 1 then shardBytes else 1;
      pending, acc, parts, total, weights, files := [], 0, [], 0, 0, map[];
    }

    method FlushPending()
      requires Valid()
      modifies this
      ensures Valid() && Contents() == Flush(old(Contents()))
    {
      hide Directory, TmpName;
      var path := TmpName(|parts|);
      ghost var before := Saved();
      files := files[path := pending];
      parts := parts + [(path, pending)];
      assert Saved() == before + [pending];
      SaveStep(old(files), before, pending);
      pending := [];
      acc := 0;
    }

    method AddTensor(t: Tensor)
      requires Valid()
      modifies this
      ensures Valid() && Contents() == Add(old(Contents()), t, limit)
    {
      if pending != [] && acc + t.bytes > limit {
        FlushPending();
      }
      pending := Put(pending, t);
      acc := acc + t.bytes;
      total := total + t.bytes;
      weights := weights + t.elements;
    }

    /** Saves what is pending, renames every shard and maps each name to its file; the index file is
        written for more than one shard only. */
    method Finish() returns (names: seq<string>, size: nat, weightMap: map<string, string>, indexed: bool)
      requires Valid()
      modifies this
      ensures size == old(total) == total && weights == old(weights) && indexed == (|names| > 1)
      ensures var shards := ShardsOf(old(Contents()));
              && names == Names(|shards|)
              && Directory(files, shards, |shards|)
              && weightMap == WeightMap(shards, |shards|)
    {
      hide Directory, FinalName, TmpName, NamesTo;
      if pending != [] {
        FlushPending();
      }
      ghost var shards := Saved();
      ghost var saved := parts;
      assert shards == ShardsOf(old(Contents()));
      var n := |parts|;
      names := Names(n);
      weightMap := map[];
      for i := 0 to n
        invariant parts == saved && total == old(total) && weights == old(weights)
        invariant Directory(files, shards, i)
        invariant weightMap == WeightMap(shards[..i], n)
      {
        var (tmp, shard) := parts[i];
        assert shard == shards[i];
        RenameStep(files, shards, i);
        files := (files - {tmp})[names[i] := files[tmp]];
        weightMap := weightMap + NamesTo(shard, names[i]);
        assert shards[..i + 1][..i] == shards[..i];
      }
      assert shards[..n] == shards;
      return names, total, weightMap, n > 1;
    }
  }

  function Names(n: nat): (names: seq<string>)
    ensures |names| == n && forall i :: 0 <= i < n ==> names[i] == FinalName(i, n)
  {
    seq(n, i requires 0 <= i < n => FinalName(i, n))
  }

  ghost predicate InShard(s: Shard, name: string) {
    exists k :: 0 <= k < |s| && s[k].name == name
  }

  lemma InShardCons(s: Shard, name: string)
    requires s != []
    ensures InShard(s, name) <==> s[0].name == name || InShard(s[1..], name)
  {
    if k :| 0 <= k < |s| && s[k].name == name {
      if k > 0 {
        assert s[1..][k - 1].name == name;
      }
    }
    if k :| 0 <= k < |s[1..]| && s[1..][k].name == name {
      assert s[k + 1].name == name;
    }
  }

  /** The names of a shard, each mapped to its file. */
  function NamesTo(shard: Shard, file: string): map<string, string> {
    if shard == [] then map[] else NamesTo(shard[1..], file)[shard[0].name := file]
  }

  lemma {:induction false} NamesToFile(shard: Shard, file: string, name: string)
    ensures name in NamesTo(shard, file) <==> InShard(shard, name)
    ensures name in NamesTo(shard, file) ==> NamesTo(shard, file)[name] == file
  {
    if shard == [] {
    } else {
      InShardCons(shard, name);
      NamesToFile(shard[1..], file, name);
    }
  }

  function WeightMap(shards: seq<Shard>, n: nat): map<string, string> {
    if shards == [] then map[]
    else WeightMap(shards[..|shards| - 1], n) + NamesTo(shards[|shards| - 1], FinalName(|shards| - 1, n))
  }

  /** The name of shard i of n once the first k carry their final names. */
  function NameAt(i: nat, k: nat, n: nat): string {
    if i < k then FinalName(i, n) else TmpName(i)
  }

  /** The directory holds exactly the shards, the first k under their final names. */
  ghost predicate Directory(files: map<string, Shard>, shards: seq<Shard>, k: nat) {
    && (forall i :: 0 <= i < |shards| ==> HoldsShard(files, shards, k, i))
    && forall f :: f in files ==> NamesShard(f, k, |shards|)
  }

  ghost predicate HoldsShard(files: map<string, Shard>, shards: seq<Shard>, k: nat, i: nat)
    requires i < |shards|
  {
    NameAt(i, k, |shards|) in files && files[NameAt(i, k, |shards|)] == shards[i]
  }

  ghost predicate NamesShard(f: string, k: nat, n: nat) {
    exists i :: 0 <= i < n && NameAt(i, k, n) == f
  }

  // ----- file names never collide -----

  lemma TmpNamesDiffer(i: nat, j: nat)
    requires TmpName(i) == TmpName(j)
    ensures i == j
  {
    var a, b := ZeroPad(Numeral(i, 10), 5), ZeroPad(Numeral(j, 10), 5);
    Middle(".shard-", a, b, ".safetensors");
    PaddedInjective(i, j, 5, 10);
  }

  lemma Middle(p: string, a: string, b: string, q: string)
    requires p + a + q == p + b + q
    ensures a == b
  {
    assert |a| == |b|;
    assert (p + a + q)[|p|..|p| + |a|] == a;
    assert (p + b + q)[|p|..|p| + |b|] == b;
  }

  lemma FinalNameShape(i: nat, n: nat)
    requires n > 1
    ensures FinalName(i, n) ==
            "model-" + ZeroPad(Numeral(i + 1, 10), 5) + ("-of-" + ZeroPad(Numeral(n, 10), 5) + ".safetensors")
  {
    hide ZeroPad, Numeral;
  }

  /** Reads as i in base ten, on five digits at least. */
  ghost predicate CountsTo(s: string, i: nat) {
    |s| >= 5 && IsNumeral(s, 10) && Value(s, 10) == i
  }

  /** One shard is called model.safetensors; of more, each carries its place, counted from 1, and their number. */
  lemma FinalNameMeans(i: nat, n: nat) returns (place: string, number: string)
    ensures n == 1 ==> FinalName(i, n) == "model.safetensors"
    ensures n != 1 ==>
              FinalName(i, n) == "model-" + place + "-of-" + number + ".safetensors" &&
              CountsTo(place, i + 1) && CountsTo(number, n)
  {
    place, number := ZeroPad(Numeral(i + 1, 10), 5), ZeroPad(Numeral(n, 10), 5);
    PaddedReads(i + 1, 5, 10);
    PaddedReads(n, 5, 10);
  }

  /** A temporary name carries the place of the shard, counted from 0. */
  lemma TmpNameMeans(i: nat) returns (place: string)
    ensures TmpName(i) == ".shard-" + place + ".safetensors" && CountsTo(place, i)
  {
    place := ZeroPad(Numeral(i, 10), 5);
    PaddedReads(i, 5, 10);
  }

  /** The second of three shards. */
  lemma SecondOfThree()
    ensures FinalName(1, 3) == "model-00002-of-00003.safetensors"
  {
    hide Numeral, Digit;
    SmallDigits();
    OneDigit(2);
    OneDigit(3);
    assert Zeros(4) == "0000";
    assert ZeroPad("2", 5) == "00002" && ZeroPad("3", 5) == "00003";
  }

  lemma FinalNamesDiffer(i: nat, j: nat, n: nat)
    requires i < n && j < n && FinalName(i, n) == FinalName(j, n)
    ensures i == j
  {
    hide ZeroPad, Numeral;
    if n > 1 {
      var a, b := ZeroPad(Numeral(i + 1, 10), 5), ZeroPad(Numeral(j + 1, 10), 5);
      var q := "-of-" + ZeroPad(Numeral(n, 10), 5) + ".safetensors";
      FinalNameShape(i, n);
      FinalNameShape(j, n);
      Middle("model-", a, b, q);
      PaddedInjective(i + 1, j + 1, 5, 10);
    }
  }

  lemma TmpIsNotFinal(i: nat, j: nat, n: nat)
    ensures TmpName(i) != FinalName(j, n)
  {
    assert TmpName(i)[0] == '.';
    assert FinalName(j, n)[0] == 'm';
  }

  lemma NamesDiffer(i: nat, j: nat, k: nat, n: nat)
    requires i < n && j < n && NameAt(i, k, n) == NameAt(j, k, n)
    ensures i == j
  {
    hide TmpName, FinalName;
    if i < k && j < k {
      FinalNamesDiffer(i, j, n);
    } else if i >= k && j >= k {
      TmpNamesDiffer(i, j);
    } else {
      TmpIsNotFinal(i, j, n);
      TmpIsNotFinal(j, i, n);
    }
  }

  lemma SaveStep(files: map<string, Shard>, shards: seq<Shard>, shard: Shard)
    requires Directory(files, shards, 0)
    ensures Directory(files[TmpName(|shards|) := shard], shards + [shard], 0)
  {
    var n, all := |shards|, shards + [shard];
    var next := files[TmpName(n) := shard];
    forall i | 0 <= i < |all| ensures HoldsShard(next, all, 0, i) {
      if i < n {
        assert HoldsShard(files, shards, 0, i);
        if TmpName(i) == TmpName(n) {
          TmpNamesDiffer(i, n);
        }
      }
    }
    forall f | f in next ensures NamesShard(f, 0, |all|) {
      if f == TmpName(n) {
        assert NameAt(n, 0, |all|) == f;
      } else {
        assert NamesShard(f, 0, n);
        var i :| 0 <= i < n && NameAt(i, 0, n) == f;
        assert NameAt(i, 0, |all|) == f;
      }
    }
  }

  lemma RenameStep(files: map<string, Shard>, shards: seq<Shard>, k: nat)
    requires Directory(files, shards, k) && k < |shards|
    ensures TmpName(k) in files && files[TmpName(k)] == shards[k]
    ensures Directory((files - {TmpName(k)})[FinalName(k, |shards|) := files[TmpName(k)]], shards, k + 1)
  {
    var n, k' := |shards|, k + 1;
    assert HoldsShard(files, shards, k, k);
    var next := (files - {TmpName(k)})[FinalName(k, n) := files[TmpName(k)]];
    forall i | 0 <= i < n ensures HoldsShard(next, shards, k', i) {
      RenamedEntry(files, shards, k, i);
    }
    forall f | f in next ensures NamesShard(f, k', n) {
      RenamedFile(files, shards, k, f);
    }
  }

  lemma RenamedFile(files: map<string, Shard>, shards: seq<Shard>, k: nat, f: string)
    requires Directory(files, shards, k) && k < |shards|
    requires f == FinalName(k, |shards|) || (f in files && f != TmpName(k))
    ensures NamesShard(f, k + 1, |shards|)
  {
    hide FinalName, TmpName, HoldsShard;
    var n := |shards|;
    if f == FinalName(k, n) {
      assert NameAt(k, k + 1, n) == f;
    } else {
      assert NamesShard(f, k, n);
      var i :| 0 <= i < n && NameAt(i, k, n) == f;
      assert NameAt(i, k + 1, n) == f;
    }
  }

  lemma RenamedEntry(files: map<string, Shard>, shards: seq<Shard>, k: nat, i: nat)
    requires Directory(files, shards, k) && k < |shards| && i < |shards|
    requires TmpName(k) in files && files[TmpName(k)] == shards[k]
    ensures var next := (files - {TmpName(k)})[FinalName(k, |shards|) := files[TmpName(k)]];
            HoldsShard(next, shards, k + 1, i)
  {
    hide TmpName, FinalName;
    var n := |shards|;
    if i != k {
      assert HoldsShard(files, shards, k, i);
      if NameAt(i, k, n) == TmpName(k) {
        NamesDiffer(i, k, k, n);
      }
      if NameAt(i, k + 1, n) == FinalName(k, n) {
        NamesDiffer(i, k, k + 1, n);
      }
    }
  }

  // ----- what every run keeps -----

  ghost function Concat(shards: seq<Shard>): seq<Tensor> {
    if shards == [] then [] else Concat(shards[..|shards| - 1]) + shards[|shards| - 1]
  }

  ghost predicate DistinctNames(ts: seq<Tensor>) {
    forall i, j :: 0 <= i < j < |ts| ==> ts[i].name != ts[j].name
  }

  lemma {:induction false} BytesConcat(a: seq<Tensor>, b: seq<Tensor>)
    ensures Bytes(a + b) == Bytes(a) + Bytes(b)
  {
    if b == [] {
      assert a + b == a;
    } else {
      assert (a + b)[..|a + b| - 1] == a + b[..|b| - 1];
      BytesConcat(a, b[..|b| - 1]);
    }
  }

  /** Only a tensor alone in its shard passes the limit. */
  ghost predicate Fits(s: Shard, limit: nat) {
    s != [] && (Bytes(s) > limit ==> |s| == 1)
  }

  /** The first tensor of the next shard did not fit any more. */
  ghost predicate Full(s: Shard, next: Shard, limit: nat) {
    next != [] && Bytes(s) + next[0].bytes > limit
  }

  ghost predicate Packed(shards: seq<Shard>, limit: nat) {
    && (forall i :: 0 <= i < |shards| ==> Fits(shards[i], limit))
    && forall i :: 0 <= i < |shards| - 1 ==> Full(shards[i], shards[i + 1], limit)
  }

  ghost predicate Invariant(w: Writer, ts: seq<Tensor>, limit: nat) {
    && Concat(ShardsOf(w)) == ts
    && w.acc == Bytes(w.pending) && w.total == Bytes(ts) && w.weights == Elements(ts)
    && Packed(ShardsOf(w), limit)
    && (w.pending == [] ==> w.parts == [])
  }

  lemma ConcatSnoc(shards: seq<Shard>, s: Shard)
    ensures Concat(shards + [s]) == Concat(shards) + s
  {
    assert (shards + [s])[..|shards|] == shards;
  }

  /** One more tensor either joins the last shard or opens a new one. */
  lemma AddShape(w: Writer, t: Tensor, limit: nat)
    requires forall i :: 0 <= i < |w.pending| ==> w.pending[i].name != t.name
    ensures var v := Add(w, t, limit);
            if w.pending != [] && w.acc + t.bytes > limit
            then ShardsOf(v) == ShardsOf(w) + [[t]] && v.pending == [t] && v.acc == t.bytes
            else && ShardsOf(v) == w.parts + [w.pending + [t]] && v.pending == w.pending + [t]
                 && v.acc == w.acc + t.bytes
    ensures Add(w, t, limit).total == w.total + t.bytes && Add(w, t, limit).weights == w.weights + t.elements
  {
    PutIsAssignment(w.pending, t);
    PutIsAssignment([], t);
    assert [] + [t] == [t];
    if w.pending != [] && w.acc + t.bytes > limit {
      assert Put([], t) == [t];
      assert Add(w, t, limit).parts == ShardsOf(w);
    }
  }

  lemma PendingIsTail(w: Writer)
    ensures Concat(ShardsOf(w)) == Concat(w.parts) + w.pending
  {
    if w.pending != [] {
      ConcatSnoc(w.parts, w.pending);
    } else {
      assert ShardsOf(w) == w.parts && Concat(w.parts) + [] == Concat(w.parts);
    }
  }

  lemma BytesSnoc(s: seq<Tensor>, t: Tensor)
    ensures Bytes(s + [t]) == Bytes(s) + t.bytes && Elements(s + [t]) == Elements(s) + t.elements
  {
    assert (s + [t])[..|s|] == s;
  }

  lemma InvariantStep(w: Writer, ts: seq<Tensor>, t: Tensor, limit: nat)
    requires Invariant(w, ts, limit) && DistinctNames(ts + [t])
    ensures Invariant(Add(w, t, limit), ts + [t], limit)
  {
    PendingNamesNew(w, ts, t);
    if w.pending != [] && w.acc + t.bytes > limit {
      InvariantOpen(w, ts, t, limit);
    } else {
      InvariantJoin(w, ts, t, limit);
    }
  }

  lemma InvariantOpen(w: Writer, ts: seq<Tensor>, t: Tensor, limit: nat)
    requires Invariant(w, ts, limit) && w.pending != [] && w.acc + t.bytes > limit
    requires forall i :: 0 <= i < |w.pending| ==> w.pending[i].name != t.name
    ensures Invariant(Add(w, t, limit), ts + [t], limit)
  {
    hide Bytes, Elements, Add, Put, Packed, Concat;
    AddShape(w, t, limit);
    BytesSnoc(ts, t);
    ConcatSnoc(ShardsOf(w), [t]);
    OpenShard(w, t, limit);
  }

  lemma InvariantJoin(w: Writer, ts: seq<Tensor>, t: Tensor, limit: nat)
    requires Invariant(w, ts, limit) && !(w.pending != [] && w.acc + t.bytes > limit)
    requires forall i :: 0 <= i < |w.pending| ==> w.pending[i].name != t.name
    ensures Invariant(Add(w, t, limit), ts + [t], limit)
  {
    hide Bytes, Elements, Add, Put, Packed, Concat;
    AddShape(w, t, limit);
    BytesSnoc(ts, t);
    PendingIsTail(w);
    ConcatSnoc(w.parts, w.pending + [t]);
    assert Concat(w.parts) + (w.pending + [t]) == Concat(w.parts) + w.pending + [t];
    JoinShard(w, t, limit);
    BytesSnoc(w.pending, t);
  }

  lemma PendingNamesNew(w: Writer, ts: seq<Tensor>, t: Tensor)
    requires Concat(ShardsOf(w)) == ts && DistinctNames(ts + [t])
    ensures forall i :: 0 <= i < |w.pending| ==> w.pending[i].name != t.name
  {
    PendingIsTail(w);
    var p := |Concat(w.parts)|;
    forall i | 0 <= i < |w.pending| ensures w.pending[i].name != t.name {
      assert (ts + [t])[p + i] == w.pending[i] && (ts + [t])[|ts|] == t;
    }
  }

  lemma OpenShard(w: Writer, t: Tensor, limit: nat)
    requires Packed(ShardsOf(w), limit) && w.pending != [] && Bytes(w.pending) + t.bytes > limit
    ensures Packed(ShardsOf(w) + [[t]], limit) && Bytes([t]) == t.bytes
  {
    BytesSnoc([], t);
    assert [] + [t] == [t];
    var shards := ShardsOf(w) + [[t]];
    assert Full(shards[|shards| - 2], shards[|shards| - 1], limit);
  }

  lemma JoinShard(w: Writer, t: Tensor, limit: nat)
    requires Packed(ShardsOf(w), limit) && (w.pending != [] ==> Bytes(w.pending) + t.bytes <= limit)
    requires w.pending == [] ==> w.parts == []
    ensures Packed(w.parts + [w.pending + [t]], limit)
  {
    BytesSnoc(w.pending, t);
    var was, now := ShardsOf(w), w.parts + [w.pending + [t]];
    forall i | 0 <= i < |now| ensures Fits(now[i], limit) {
      if i < |w.parts| {
        assert Fits(was[i], limit);
      }
    }
    forall i | 0 <= i < |now| - 1 ensures Full(now[i], now[i + 1], limit) {
      assert Full(was[i], was[i + 1], limit);
    }
  }

  /** After any run of distinct names: nothing lost or reordered, sizes add up, no shard is empty, only
      a single tensor passes the limit, and no shard could have taken the next one's first tensor. */
  lemma {:induction false} RunKeepsInvariant(limit: nat, ts: seq<Tensor>)
    requires DistinctNames(ts)
    ensures Invariant(Run(limit, ts), ts, limit)
  {
    if ts == [] {
    } else {
      var n := |ts| - 1;
      RunKeepsInvariant(limit, ts[..n]);
      assert ts == ts[..n] + [ts[n]];
      InvariantStep(Run(limit, ts[..n]), ts[..n], ts[n], limit);
    }
  }

  lemma {:induction false} BytesOfShards(shards: seq<Shard>)
    ensures Bytes(Concat(shards)) == BytesSum(shards)
  {
    if shards == [] {
    } else {
      BytesOfShards(shards[..|shards| - 1]);
      BytesConcat(Concat(shards[..|shards| - 1]), shards[|shards| - 1]);
    }
  }

  ghost function BytesSum(shards: seq<Shard>): nat {
    if shards == [] then 0 else BytesSum(shards[..|shards| - 1]) + Bytes(shards[|shards| - 1])
  }

  lemma FirstAtMostAll(s: Shard)
    requires s != []
    ensures s[0].bytes <= Bytes(s)
  {
    assert s == [s[0]] + s[1..];
    BytesConcat([s[0]], s[1..]);
    assert [s[0]][..0] == [];
  }

  /** Two consecutive shards together pass the limit. */
  lemma NeighboursPassLimit(shards: seq<Shard>, limit: nat, i: nat)
    requires Packed(shards, limit) && i + 1 < |shards|
    ensures Bytes(shards[i]) + Bytes(shards[i + 1]) > limit
  {
    assert Full(shards[i], shards[i + 1], limit);
    FirstAtMostAll(shards[i + 1]);
  }

  lemma {:induction false} PairsPassLimit(shards: seq<Shard>, limit: nat)
    requires Packed(shards, limit)
    ensures |shards| / 2 * limit <= BytesSum(shards)
    ensures |shards| >= 2 ==> |shards| / 2 * limit < BytesSum(shards)
    decreases |shards|
  {
    var n := |shards|;
    if n < 2 {
    } else {
      NeighboursPassLimit(shards, limit, n - 2);
      var head := shards[..n - 2];
      PackedPrefix(shards, limit, n - 2);
      PairsPassLimit(head, limit);
      assert shards[..n - 1][..n - 2] == head;
      assert n / 2 == (n - 2) / 2 + 1;
      assert ((n - 2) / 2 + 1) * limit == (n - 2) / 2 * limit + limit;
    }
  }

  lemma PackedPrefix(shards: seq<Shard>, limit: nat, k: nat)
    requires Packed(shards, limit) && k <= |shards|
    ensures Packed(shards[..k], limit)
  {
    forall i | 0 <= i < k - 1 ensures Full(shards[..k][i], shards[..k][i + 1], limit) {
      assert Full(shards[i], shards[i + 1], limit);
    }
  }

  /** Shards are at least half full on average: floor(shards / 2) limits are less than the total. */
  lemma ShardCountBound(limit: nat, ts: seq<Tensor>)
    requires DistinctNames(ts)
    ensures var shards := ShardsOf(Run(limit, ts));
            |shards| >= 2 ==> |shards| / 2 * limit < Bytes(ts)
  {
    RunKeepsInvariant(limit, ts);
    var shards := ShardsOf(Run(limit, ts));
    PairsPassLimit(shards, limit);
    BytesOfShards(shards);
  }

  lemma {:induction false} WeightMapIn(shards: seq<Shard>, n: nat, name: string) returns (i: nat)
    requires name in WeightMap(shards, n)
    ensures i < |shards| && InShard(shards[i], name) && WeightMap(shards, n)[name] == FinalName(i, n)
  {
    hide FinalName, InShard, NamesTo;
    var m := |shards| - 1;
    NamesToFile(shards[m], FinalName(m, n), name);
    if InShard(shards[m], name) {
      i := m;
    } else {
      i := WeightMapIn(shards[..m], n, name);
    }
  }

  lemma {:induction false} WeightMapHas(shards: seq<Shard>, n: nat, i: nat, name: string)
    requires i < |shards| && InShard(shards[i], name)
    ensures name in WeightMap(shards, n)
  {
    hide FinalName, InShard, NamesTo;
    var m := |shards| - 1;
    if i == m {
      NamesToFile(shards[m], FinalName(m, n), name);
    } else {
      WeightMapHas(shards[..m], n, i, name);
    }
  }

  lemma {:induction false} InOneShard(shards: seq<Shard>, i: nat, j: nat, name: string)
    requires DistinctNames(Concat(shards)) && i <= j < |shards|
    requires InShard(shards[i], name) && InShard(shards[j], name)
    ensures i == j
    decreases |shards|
  {
    var m := |shards| - 1;
    var head := Concat(shards[..m]);
    if j < m {
      assert forall a :: 0 <= a < |head| ==> head[a] == Concat(shards)[a];
      InOneShard(shards[..m], i, j, name);
    } else if i < m {
      var a := InConcat(shards[..m], i, name);
      var b :| 0 <= b < |shards[m]| && shards[m][b].name == name;
      TailNamesNew(shards, a, b);
    }
  }

  lemma TailNamesNew(shards: seq<Shard>, a: nat, b: nat)
    requires shards != [] && DistinctNames(Concat(shards))
    requires a < |Concat(shards[..|shards| - 1])| && b < |shards[|shards| - 1]|
    ensures Concat(shards[..|shards| - 1])[a].name != shards[|shards| - 1][b].name
  {
    var head := Concat(shards[..|shards| - 1]);
    assert Concat(shards)[a] == head[a] && Concat(shards)[|head| + b] == shards[|shards| - 1][b];
  }

  lemma {:induction false} InConcat(shards: seq<Shard>, i: nat, name: string) returns (a: nat)
    requires i < |shards| && InShard(shards[i], name)
    ensures a < |Concat(shards)| && Concat(shards)[a].name == name
  {
    var m := |shards| - 1;
    if i == m {
      var b :| 0 <= b < |shards[m]| && shards[m][b].name == name;
      a := |Concat(shards[..m])| + b;
    } else {
      a := InConcat(shards[..m], i, name);
    }
  }

  ghost predicate InOneShardOnly(shards: seq<Shard>, name: string) {
    forall i, j :: 0 <= i < |shards| && 0 <= j < |shards| ==>
      (InShard(shards[i], name) && InShard(shards[j], name) ==> i == j)
  }

  /** Each tensor is in exactly one shard and is mapped to that shard's file; nothing else is mapped. */
  lemma EveryTensorMapped(limit: nat, ts: seq<Tensor>, name: string)
    requires DistinctNames(ts)
    ensures var shards := ShardsOf(Run(limit, ts));
            var m := WeightMap(shards, |shards|);
            && (name in m <==> InShard(ts, name))
            && (name in m ==>
                  exists i :: 0 <= i < |shards| && InShard(shards[i], name) && m[name] == FinalName(i, |shards|))
            && InOneShardOnly(shards, name)
  {
    RunKeepsInvariant(limit, ts);
    hide InShard, InOneShardOnly, WeightMap, Run, Packed, FinalName, DistinctNames, Concat, Elements, Bytes;
    var shards := ShardsOf(Run(limit, ts));
    OnlyOneShard(shards, name);
    if name in WeightMap(shards, |shards|) {
      var i := WeightMapIn(shards, |shards|, name);
      var a := InConcat(shards, i, name);
      NamedIn(ts, a);
    }
    if InShard(ts, name) {
      var i := FromConcat(shards, name);
      WeightMapHas(shards, |shards|, i, name);
    }
  }

  lemma OnlyOneShard(shards: seq<Shard>, name: string)
    requires DistinctNames(Concat(shards))
    ensures InOneShardOnly(shards, name)
  {
    hide InShard, DistinctNames, Concat;
    forall i, j | 0 <= i < |shards| && 0 <= j < |shards| && InShard(shards[i], name) && InShard(shards[j], name)
      ensures i == j
    {
      if i <= j {
        InOneShard(shards, i, j, name);
      } else {
        InOneShard(shards, j, i, name);
      }
    }
  }

  lemma NamedIn(ts: seq<Tensor>, a: nat)
    requires a < |ts|
    ensures InShard(ts, ts[a].name)
  {
  }

  lemma {:induction false} FromConcat(shards: seq<Shard>, name: string) returns (i: nat)
    requires InShard(Concat(shards), name)
    ensures i < |shards| && InShard(shards[i], name)
  {
    var m := |shards| - 1;
    var k :| 0 <= k < |Concat(shards)| && Concat(shards)[k].name == name;
    var head := Concat(shards[..m]);
    if k < |head| {
      assert head[k].name == name;
      i := FromConcat(shards[..m], name);
    } else {
      i := m;
      assert shards[m][k - |head|].name == name;
    }
  }

  /** Any run of `add` on a fresh writer, then `finish`. */
  method Write(ts: seq<Tensor>, shardBytes: int)
    returns (w: ShardWriter, names: seq<string>, size: nat, weightMap: map<string, string>, indexed: bool)
    requires DistinctNames(ts)
    ensures fresh(w) && w.limit == if shardBytes >= 1 then shardBytes else 1
    ensures var shards := ShardsOf(Run(w.limit, ts));
            && Concat(shards) == ts
            && Directory(w.files, shards, |shards|)
            && names == Names(|shards|)
            && weightMap == WeightMap(shards, |shards|)
            && (indexed <==> |shards| > 1)
    ensures size == Bytes(ts) && w.weights == Elements(ts)
  {
    hide Directory, Flush, Concat;
    w := new ShardWriter(shardBytes);
    ghost var limit := w.limit;
    for i := 0 to |ts|
      invariant fresh(w) && w.Valid() && w.limit == limit
      invariant w.Contents() == Run(limit, ts[..i])
    {
      w.AddTensor(ts[i]);
      assert ts[..i + 1][..i] == ts[..i];
    }
    assert ts[..|ts|] == ts;
    RunKeepsInvariant(limit, ts);
    names, size, weightMap, indexed := w.Finish();
  }
}
