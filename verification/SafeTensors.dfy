/** Tensor payloads out of one local safetensors file (ops/awq_dequant.py, `SafeTensors`): one at a time,
    or several in one coalesced read. None stands for the exception raised. */
module SafeTensors {
  import opened Basics

  /** A header entry: its data offsets, and the payload size its shape and dtype imply. */
  datatype Entry = Entry(begin: int, end: int, declared: nat)

  /** n bytes from `off` on. */
  function Slice(s: seq<nat>, off: nat, n: nat): (r: seq<nat>)
    requires off + n <= |s|
    ensures |r| == n && forall k :: 0 <= k < n ==> r[k] == s[off + k]
  {
    s[off..off + n]
  }

  lemma SliceOfSlice(s: seq<nat>, lo: nat, size: nat, off: nat, n: nat)
    requires off + n <= size && lo + size <= |s|
    ensures Slice(Slice(s, lo, size), off, n) == Slice(s, lo + off, n)
  {
    hide Slice;
  }

  datatype File = File(content: seq<nat>, dataStart: nat, header: map<string, Entry>)
  {
    /** Absolute offset and length of a tensor. */
    function Span(name: string): (int, int)
      requires name in header
    {
      (dataStart + header[name].begin, header[name].end - header[name].begin)
    }

    function ReadAt(off: int, n: int): Option<seq<nat>> {
      if n <= 0 then Some([])
      else if off < 0 || off + n > |content| then None
      else Some(Slice(content, off, n))
    }

    function Raw(name: string): Option<seq<nat>> {
      if name !in header then None
      else
        var (off, n) := Span(name);
        if n != header[name].declared then None else ReadAt(off, n)
    }

    /** A tensor that is read has its declared size, and its bytes are those of the file from the data start plus
        its first offset on. */
    lemma RawIsTheRange(name: string, k: nat)
      requires Raw(name).Some? && k < |Raw(name).value|
      ensures name in header && |Raw(name).value| == header[name].declared
      ensures header[name].end - header[name].begin == header[name].declared
      ensures 0 <= dataStart + header[name].begin + k < |content|
      ensures Raw(name).value[k] == content[dataStart + header[name].begin + k]
    {
    }

    /** The entry exists and its length is the declared one. */
    ghost predicate Sound(name: string) {
      name in header && Span(name).1 == header[name].declared
    }

    /** The parse lands exactly on the end of the file: what opening it checks. */
    ghost predicate Lands() {
      && (forall n :: n in header ==> dataStart + header[n].end <= |content|)
      && (header == map[] ==> dataStart == |content|)
      && (header != map[] ==> exists n :: n in header && dataStart + header[n].end == |content|)
    }

    /** What opening a file guarantees: its header is not empty and lies inside it, and the parse lands. */
    ghost predicate Opened() {
      9 <= dataStart <= |content| && Lands()
    }

    /** The least offset of the named tensors lies before the file, and the range from there to their
        greatest end is neither empty nor over the budget. */
    ghost predicate ReadsBefore(names: seq<string>, budget: int) {
      exists lo, hi :: Encloses(names, lo, hi) && lo < 0 && lo < hi <= lo + budget
    }

    /** `raw_many`: one read of the enclosing range when it fits the budget. On an opened file it fails exactly
        when a single read does, or when the range begins before the file. */
    method RawMany(names: seq<string>, budget: int) returns (r: Option<map<string, seq<nat>>>)
      ensures r.Some? ==> forall x :: x in r.value <==> x in names
      ensures r.Some? ==> forall x :: x in names ==> Raw(x) == Some(r.value[x])
      ensures Lands() ==>
                (r.Some? <==> (forall x :: x in names ==> Raw(x).Some?) && !ReadsBefore(names, budget))
    {
      if names == [] {
        return Some(map[]);
      }
      var range := Spans(names);
      if range.None? {
        return None;
      }
      var (spans, lo, hi) := range.value;
      Enclosed(names, lo, hi);
      if hi - lo > budget {
        r := RawEach(names);
        return;
      }
      var blob := ReadAt(lo, hi - lo);
      if blob.None? {
        return None;
      }
      var out := CutAll(names, spans, lo, hi);
      return Some(out);
    }

    /** Every tensor out of the one range that was read. */
    method CutAll(names: seq<string>, spans: map<string, (int, int)>, lo: int, hi: int)
      returns (out: map<string, seq<nat>>)
      requires Encloses(names, lo, hi) && ReadAt(lo, hi - lo).Some?
      requires forall x :: x in spans <==> x in names
      requires forall x :: x in spans ==> x in header && spans[x] == Span(x)
      ensures forall x :: x in out <==> x in names
      ensures forall x :: x in names ==> Raw(x) == Some(out[x])
    {
      var blob := ReadAt(lo, hi - lo).value;
      forall x | x in names
        ensures 0 <= spans[x].0 - lo <= spans[x].0 - lo + spans[x].1 <= |blob|
        ensures Raw(x) == Some(Slice(blob, spans[x].0 - lo, spans[x].1))
      {
        CutFromBlob(x, lo, hi);
      }
      out := map x | x in spans :: Slice(blob, spans[x].0 - lo, spans[x].1);
    }

    /** The spans of the named tensors and the range that encloses them. */
    method Spans(names: seq<string>) returns (r: Option<(map<string, (int, int)>, int, int)>)
      requires names != []
      ensures r.Some? <==> forall x :: x in names ==> Sound(x)
      ensures r.Some? ==> Encloses(names, r.value.1, r.value.2)
      ensures r.Some? ==> forall x :: x in r.value.0 <==> x in names
      ensures r.Some? ==> forall x :: x in r.value.0 ==> x in header && r.value.0[x] == Span(x)
    {
      var spans: map<string, (int, int)> := map[];
      var lo, hi := 0, 0;
      for i := 0 to |names|
        invariant forall x :: x in spans <==> x in names[..i]
        invariant forall x :: x in spans ==> Sound(x) && spans[x] == Span(x)
        invariant i > 0 ==> Encloses(names[..i], lo, hi)
      {
        var n := names[i];
        assert names[..i + 1] == names[..i] + [n];
        assert n in names;
        if n !in header {
          return None;
        }
        var (off, ln) := Span(n);
        if ln != header[n].declared {
          return None;
        }
        spans := spans[n := (off, ln)];
        ghost var wasLo, wasHi := lo, hi;
        if i == 0 || off < lo {
          lo := off;
        }
        if i == 0 || off + ln > hi {
          hi := off + ln;
        }
        EnclosesOne(names[..i], n, wasLo, wasHi);
      }
      assert names[..|names|] == names;
      return Some((spans, lo, hi));
    }

    lemma EnclosesOne(names: seq<string>, n: string, lo: int, hi: int)
      requires Sound(n) && (names != [] ==> Encloses(names, lo, hi))
      ensures var (off, ln) := Span(n);
              Encloses(names + [n], if names == [] || off < lo then off else lo,
                       if names == [] || off + ln > hi then off + ln else hi)
    {
    }

    /** lo and hi are the least offset and the greatest end. */
    ghost predicate Encloses(names: seq<string>, lo: int, hi: int) {
      && (forall x :: x in names ==> Sound(x) && lo <= Span(x).0 && Span(x).0 + Span(x).1 <= hi)
      && (exists x :: x in names && Sound(x) && Span(x).0 == lo)
      && (exists x :: x in names && Sound(x) && Span(x).0 + Span(x).1 == hi)
    }

    lemma Enclosed(names: seq<string>, lo: int, hi: int)
      requires Encloses(names, lo, hi)
      ensures lo <= hi
      ensures Lands() ==> hi <= |content|
      ensures (forall x :: x in names && x in header ==> Span(x).0 >= 0) ==> lo >= 0
    {
    }

    lemma CutFromBlob(x: string, lo: int, hi: int)
      requires Sound(x) && lo <= Span(x).0 && Span(x).0 + Span(x).1 <= hi
      requires ReadAt(lo, hi - lo).Some?
      ensures var blob, (off, n) := ReadAt(lo, hi - lo).value, Span(x);
              0 <= off - lo <= off - lo + n <= |blob| && Raw(x) == Some(Slice(blob, off - lo, n))
    {
      hide Slice;
      var (off, n) := Span(x);
      var blob := ReadAt(lo, hi - lo).value;
      if n > 0 {
        SliceOfSlice(content, lo, hi - lo, off - lo, n);
      } else {
        assert Slice(blob, off - lo, 0) == [];
      }
    }

    /** No tensor before the file, no range before it. */
    lemma NoneBefore(names: seq<string>, budget: int)
      requires forall x :: x in names && x in header ==> Span(x).0 >= 0
      ensures !ReadsBefore(names, budget)
    {
      hide Encloses;
      forall lo, hi | Encloses(names, lo, hi) ensures lo >= 0 {
        Enclosed(names, lo, hi);
      }
    }

    /** Where single reads work, only an empty tensor can lie before the file. */
    lemma OnlyEmptyBefore(names: seq<string>, budget: int) returns (x: string)
      requires (forall y :: y in names ==> Raw(y).Some?) && ReadsBefore(names, budget)
      ensures x in names && Sound(x) && Span(x).0 < 0 && Span(x).1 == 0
    {
      var lo, hi :| Encloses(names, lo, hi) && lo < 0 && lo < hi <= lo + budget;
      x :| x in names && Sound(x) && Span(x).0 == lo;
      assert Raw(x).Some?;
    }

    /** An empty tensor placed before the file: single reads work; the coalesced one fails when the budget lets
        it read the whole range, and works one byte below. */
    static lemma EmptyTensorOutside()
      ensures var f := File(seq(12, i => i), 10, map["a" := Entry(-13, -13, 0), "b" := Entry(0, 2, 2)]);
              && f.Opened() && f.Raw("a") == Some([]) && f.Raw("b") == Some([10, 11])
              && f.ReadsBefore(["a", "b"], 64_000_000) && f.ReadsBefore(["a", "b"], 15)
              && !f.ReadsBefore(["a", "b"], 14)
    {
      var f := File(seq(12, i => i), 10, map["a" := Entry(-13, -13, 0), "b" := Entry(0, 2, 2)]);
      assert "b" in f.header && f.dataStart + f.header["b"].end == |f.content|;
      assert Slice(f.content, 10, 2) == [10, 11];
      assert "a" in ["a", "b"] by { assert ["a", "b"][0] == "a"; }
      assert "b" in ["a", "b"] by { assert ["a", "b"][1] == "b"; }
      assert f.Encloses(["a", "b"], -3, 12);
    }

    method RawEach(names: seq<string>) returns (r: Option<map<string, seq<nat>>>)
      ensures r.Some? <==> forall x :: x in names ==> Raw(x).Some?
      ensures r.Some? ==> forall x :: x in r.value <==> x in names
      ensures r.Some? ==> forall x :: x in names ==> Raw(x) == Some(r.value[x])
    {
      var out: map<string, seq<nat>> := map[];
      for i := 0 to |names|
        invariant forall x :: x in out <==> x in names[..i]
        invariant forall x :: x in names[..i] ==> Raw(x) == Some(out[x])
      {
        assert names[..i + 1] == names[..i] + [names[i]];
        var one := Raw(names[i]);
        if one.None? {
          return None;
        }
        out := out[names[i] := one.value];
      }
      assert names[..|names|] == names;
      return Some(out);
    }
  }
}
