/** The critical path of a straight-line loop body (ops/sass_chain.py): one forward pass that keeps,
    for every register, the cycle its value is ready and the opcodes that made it. */
module SassChain {

  /** A register operand, `R12` or `R12.64`. */
  datatype Operand = Operand(n: nat, wide: bool)

  /** A listing line: the register operands before and after the first comma, and whether the text
      before it begins with R. */
  datatype Instr = Instr(op: string, first: seq<Operand>, firstIsRegister: bool, rest: seq<Operand>)

  const LATENCIES: seq<(string, nat)> := [
    ("LDS", 30), ("LDG", 35), ("LD.", 35), ("SHFL", 30), ("MUFU", 20), ("I2F", 6), ("F2F", 6), ("F2I", 6),
    ("IDP", 6), ("IMAD", 5), ("POPC", 6), ("FLO", 6), ("BREV", 6), ("S2R", 20), ("ST", 0), ("BRA", 0),
    ("BSSY", 0), ("BSYNC", 0), ("ISETP", 5), ("FSETP", 5)]

  const CONTROL: seq<string> := ["ST", "BRA", "BSSY", "BSYNC", "BAR", "WARPSYNC", "NOP", "EXIT"]

  function StartsWithAny(op: string, prefixes: seq<string>): bool {
    prefixes != [] && (prefixes[0] <= op || StartsWithAny(op, prefixes[1..]))
  }

  function LatencyIn(op: string, table: seq<(string, nat)>): nat {
    if table == [] then 5
    else if table[0].0 <= op then table[0].1
    else LatencyIn(op, table[1..])
  }

  function Latency(op: string): nat {
    LatencyIn(op, LATENCIES)
  }

  /** `op.split(".")[0]` */
  function Head(op: string): string {
    if op == "" || op[0] == '.' then "" else [op[0]] + Head(op[1..])
  }

  /** Registers loaded at once: the first `.64` or `.128` of the opcode. */
  function Width(op: string): nat {
    if ".64" <= op then 2 else if ".128" <= op then 4 else if op == "" then 1 else Width(op[1..])
  }

  function Registers(s: seq<Operand>): seq<nat> {
    if s == [] then []
    else (if s[0].wide then [s[0].n, s[0].n + 1] else [s[0].n]) + Registers(s[1..])
  }

  function Sources(i: Instr): seq<nat> {
    if StartsWithAny(i.op, CONTROL) then Registers(i.first + i.rest) else Registers(i.rest)
  }

  function Destinations(i: Instr): seq<nat> {
    if StartsWithAny(i.op, CONTROL) then []
    else
      var dst := if i.firstIsRegister then Registers(i.first) else [];
      if "LD" <= i.op && |dst| == 1 then seq(Width(i.op), k => dst[0] + k) else dst
  }

  // ----- what an instruction reads and writes -----

  /** Some operand names r; a wide one names the register after its own too. */
  ghost predicate Names(s: seq<Operand>, r: nat) {
    exists k :: 0 <= k < |s| && OperandNames(s[k], r)
  }

  ghost predicate OperandNames(o: Operand, r: nat) {
    r == o.n || (o.wide && r == o.n + 1)
  }

  lemma {:induction false} RegistersAreNamed(s: seq<Operand>, r: nat)
    ensures r in Registers(s) <==> Names(s, r)
  {
    if s == [] {
    } else {
      RegistersAreNamed(s[1..], r);
      if k :| 0 <= k < |s[1..]| && OperandNames(s[1..][k], r) {
        assert OperandNames(s[k + 1], r);
      }
      if k :| 0 <= k < |s| && OperandNames(s[k], r) {
        if k > 0 {
          assert OperandNames(s[1..][k - 1], r);
        }
      }
      if OperandNames(s[0], r) {
        assert Names(s, r);
      }
    }
  }

  lemma {:induction false} OneRegister(s: seq<Operand>)
    ensures |Registers(s)| >= |s|
    ensures |Registers(s)| == 1 <==> |s| == 1 && !s[0].wide
    ensures |s| == 1 && !s[0].wide ==> Registers(s) == [s[0].n]
  {
    if s == [] {
    } else {
      OneRegister(s[1..]);
    }
  }

  /** Stores, branches and barriers: all their registers are read. */
  ghost predicate IsControl(op: string) {
    || "ST" <= op || "BRA" <= op || "BSSY" <= op || "BSYNC" <= op
    || "BAR" <= op || "WARPSYNC" <= op || "NOP" <= op || "EXIT" <= op
  }

  lemma ControlMeans(op: string)
    ensures StartsWithAny(op, CONTROL) <==> IsControl(op)
  {
    hide StartsWithAny;
    AnyMeans(op, CONTROL);
    assert |CONTROL| == 8;
    assert CONTROL[0] == "ST" && CONTROL[1] == "BRA" && CONTROL[2] == "BSSY" && CONTROL[3] == "BSYNC";
    assert CONTROL[4] == "BAR" && CONTROL[5] == "WARPSYNC" && CONTROL[6] == "NOP" && CONTROL[7] == "EXIT";
  }

  lemma {:induction false} AnyMeans(op: string, prefixes: seq<string>)
    ensures StartsWithAny(op, prefixes) <==> exists k :: 0 <= k < |prefixes| && prefixes[k] <= op
  {
    if prefixes == [] {
    } else {
      AnyMeans(op, prefixes[1..]);
      if k :| 0 <= k < |prefixes[1..]| && prefixes[1..][k] <= op {
        assert prefixes[k + 1] <= op;
      }
      if k :| 0 <= k < |prefixes| && prefixes[k] <= op {
        if k > 0 {
          assert prefixes[1..][k - 1] <= op;
        }
      }
    }
  }

  /** A width suffix stands at k, and none before. */
  ghost predicate FirstWidthAt(op: string, suffix: string, k: nat) {
    && k <= |op| && suffix <= op[k..]
    && forall j :: 0 <= j < k ==> NoWidthAt(op, j)
  }

  ghost predicate NoWidthAt(op: string, j: nat)
    requires j <= |op|
  {
    !(".64" <= op[j..]) && !(".128" <= op[j..])
  }

  /** Two registers when the first suffix of the opcode is `.64`, four when it is `.128`, one without any. */
  lemma {:induction false} WidthMeans(op: string)
    ensures Width(op) == 2 || Width(op) == 4 || Width(op) == 1
    ensures Width(op) == 2 <==> exists k :: 0 <= k <= |op| && FirstWidthAt(op, ".64", k)
    ensures Width(op) == 4 <==> exists k :: 0 <= k <= |op| && FirstWidthAt(op, ".128", k)
    ensures Width(op) == 1 <==> forall k :: 0 <= k <= |op| ==> NoWidthAt(op, k)
  {
    assert op[0..] == op;
    if ".64" <= op {
      assert FirstWidthAt(op, ".64", 0);
      assert !NoWidthAt(op, 0);
      OneSuffix(op);
    } else if ".128" <= op {
      assert FirstWidthAt(op, ".128", 0);
      assert !NoWidthAt(op, 0);
    } else if op == "" {
    } else {
      WidthMeans(op[1..]);
      WidthShifts(op, ".64");
      WidthShifts(op, ".128");
      NoneShifts(op);
    }
  }

  lemma OneSuffix(op: string)
    requires ".64" <= op
    ensures !exists k :: 0 <= k <= |op| && FirstWidthAt(op, ".128", k)
  {
    assert op[0..] == op && op[1] == '6';
    assert !NoWidthAt(op, 0);
    assert !(".128" <= op);
  }

  lemma WidthShifts(op: string, suffix: string)
    requires op != "" && NoWidthAt(op, 0) && (suffix == ".64" || suffix == ".128")
    ensures (exists k :: 0 <= k <= |op| && FirstWidthAt(op, suffix, k)) <==>
            (exists k :: 0 <= k <= |op[1..]| && FirstWidthAt(op[1..], suffix, k))
  {
    var t := op[1..];
    assert forall j :: 1 <= j <= |op| ==> op[j..] == t[j - 1..];
    if k :| 0 <= k <= |op| && FirstWidthAt(op, suffix, k) {
      assert k > 0;
      forall j | 0 <= j < k - 1 ensures NoWidthAt(t, j) {
        assert NoWidthAt(op, j + 1);
      }
      assert FirstWidthAt(t, suffix, k - 1);
    }
    if k :| 0 <= k <= |t| && FirstWidthAt(t, suffix, k) {
      forall j | 0 <= j < k + 1 ensures NoWidthAt(op, j) {
        if j > 0 {
          assert NoWidthAt(t, j - 1);
        }
      }
      assert FirstWidthAt(op, suffix, k + 1);
    }
  }

  lemma NoneShifts(op: string)
    requires op != "" && NoWidthAt(op, 0)
    ensures (forall k :: 0 <= k <= |op| ==> NoWidthAt(op, k)) <==>
            (forall k :: 0 <= k <= |op[1..]| ==> NoWidthAt(op[1..], k))
  {
    var t := op[1..];
    assert forall j :: 1 <= j <= |op| ==> op[j..] == t[j - 1..];
    if forall k :: 0 <= k <= |op| ==> NoWidthAt(op, k) {
      forall k | 0 <= k <= |t| ensures NoWidthAt(t, k) {
        assert NoWidthAt(op, k + 1);
      }
    }
    if forall k :: 0 <= k <= |t| ==> NoWidthAt(t, k) {
      forall k | 0 <= k <= |op| ensures NoWidthAt(op, k) {
        if k > 0 {
          assert NoWidthAt(t, k - 1);
        }
      }
    }
  }

  /** A load of one narrow register. */
  ghost predicate LoadsOne(i: Instr) {
    "LD" <= i.op && |i.first| == 1 && !i.first[0].wide
  }

  /** What is written: nothing by stores, branches and barriers; as many registers in a row as the opcode is
      wide by a load of one narrow register; otherwise the registers named first. Never register 255. */
  lemma WritesMeans(i: Instr, r: nat)
    ensures Writes(i, r) <==>
            && r != 255 && !IsControl(i.op) && i.firstIsRegister
            && if LoadsOne(i) then i.first[0].n <= r < i.first[0].n + Width(i.op) else Names(i.first, r)
  {
    hide Width, Registers, Names, StartsWithAny, IsControl;
    ControlMeans(i.op);
    RegistersAreNamed(i.first, r);
    OneRegister(i.first);
    if i.firstIsRegister && !IsControl(i.op) && LoadsOne(i) {
      var d, n := i.first[0].n, Width(i.op);
      var dst := Destinations(i);
      assert dst == seq(n, k => d + k);
      if d <= r < d + n {
        assert dst[r - d] == r;
      }
    }
  }

  /** What is read: the registers after the first comma, and before it too by stores, branches and barriers. */
  lemma ReadsMeans(i: Instr, r: nat)
    ensures r in Sources(i) <==> Names(i.rest, r) || (IsControl(i.op) && Names(i.first, r))
  {
    hide Registers, StartsWithAny, IsControl;
    ControlMeans(i.op);
    RegistersAreNamed(i.rest, r);
    RegistersAreNamed(i.first + i.rest, r);
    NamesConcat(i.first, i.rest, r);
  }

  lemma NamesConcat(a: seq<Operand>, b: seq<Operand>, r: nat)
    ensures Names(a + b, r) <==> Names(a, r) || Names(b, r)
  {
    if k :| 0 <= k < |a| && OperandNames(a[k], r) {
      assert OperandNames((a + b)[k], r);
    }
    if k :| 0 <= k < |b| && OperandNames(b[k], r) {
      assert OperandNames((a + b)[|a| + k], r);
    }
  }

  /** The latency is that of the first row of the table that begins the opcode, else 5. */
  lemma LatencyMeans(op: string)
    ensures (forall k :: 0 <= k < |LATENCIES| ==> !(LATENCIES[k].0 <= op)) ==> Latency(op) == 5
    ensures forall k :: 0 <= k < |LATENCIES| && FirstRow(op, LATENCIES, k) ==> Latency(op) == LATENCIES[k].1
  {
    FirstRowDecides(op, LATENCIES);
  }

  ghost predicate FirstRow(op: string, table: seq<(string, nat)>, k: nat)
    requires k < |table|
  {
    table[k].0 <= op && forall j :: 0 <= j < k ==> !(table[j].0 <= op)
  }

  lemma {:induction false} FirstRowDecides(op: string, table: seq<(string, nat)>)
    ensures (forall k :: 0 <= k < |table| ==> !(table[k].0 <= op)) ==> LatencyIn(op, table) == 5
    ensures forall k :: 0 <= k < |table| && FirstRow(op, table, k) ==> LatencyIn(op, table) == table[k].1
  {
    if table == [] {
    } else {
      var rest := table[1..];
      FirstRowDecides(op, rest);
      assert forall k :: 1 <= k < |table| ==> table[k] == rest[k - 1];
      forall k | 0 <= k < |table| && FirstRow(op, table, k) ensures LatencyIn(op, table) == table[k].1 {
        if k > 0 {
          assert forall j :: 0 <= j < k - 1 ==> rest[j] == table[j + 1];
          assert FirstRow(op, rest, k - 1);
        }
      }
      if forall k :: 0 <= k < |table| ==> !(table[k].0 <= op) {
        assert forall k :: 0 <= k < |rest| ==> rest[k] == table[k + 1];
      }
    }
  }

  /** The opcode up to its first dot. */
  lemma {:induction false} HeadMeans(op: string)
    ensures Head(op) <= op && '.' !in Head(op)
    ensures |Head(op)| < |op| ==> op[|Head(op)|] == '.'
  {
    if op == "" || op[0] == '.' {
    } else {
      HeadMeans(op[1..]);
      assert op == [op[0]] + op[1..];
    }
  }

  // ----- dependency chains -----

  /** Register 255 reads as zero and never carries a value. */
  ghost predicate Writes(i: Instr, r: nat) {
    r != 255 && r in Destinations(i)
  }

  /** The last instruction before `i` that writes `r`, or -1. */
  ghost function LastWriter(body: seq<Instr>, i: nat, r: nat): int
    requires i <= |body|
  {
    if i == 0 then -1 else if Writes(body[i - 1], r) then i - 1 else LastWriter(body, i - 1, r)
  }

  /** `i` reads a value that `j` was the last to write. */
  ghost predicate Feeds(body: seq<Instr>, j: nat, i: nat)
    requires i < |body|
  {
    exists r :: r in Sources(body[i]) && LastWriter(body, i, r) == j
  }

  ghost predicate Linked(body: seq<Instr>, c: seq<nat>, k: nat)
    requires k + 1 < |c| && c[k + 1] < |body|
  {
    Feeds(body, c[k], c[k + 1])
  }

  ghost predicate IsChain(body: seq<Instr>, c: seq<nat>) {
    && (forall k :: 0 <= k < |c| ==> c[k] < |body|)
    && forall k :: 0 <= k < |c| - 1 ==> Linked(body, c, k)
  }

  ghost function Cycles(body: seq<Instr>, c: seq<nat>): nat
    requires forall k :: 0 <= k < |c| ==> c[k] < |body|
  {
    if c == [] then 0 else Cycles(body, c[..|c| - 1]) + Latency(body[c[|c| - 1]].op)
  }

  ghost function Opcodes(body: seq<Instr>, c: seq<nat>): (ops: seq<string>)
    requires forall k :: 0 <= k < |c| ==> c[k] < |body|
    ensures |ops| == |c|
  {
    seq(|c|, k requires 0 <= k < |c| => Head(body[c[k]].op))
  }

  ghost predicate ChainTo(body: seq<Instr>, c: seq<nat>, i: nat) {
    IsChain(body, c) && c != [] && c[|c| - 1] == i
  }

  /** A chain of the greatest cycle count among those ending at `i`. */
  ghost predicate LongestTo(body: seq<Instr>, c: seq<nat>, i: nat) {
    ChainTo(body, c, i) && forall d :: ChainTo(body, d, i) ==> Cycles(body, d) <= Cycles(body, c)
  }

  type Timed = (nat, seq<string>)

  ghost predicate Reports(body: seq<Instr>, t: Timed, c: seq<nat>) {
    IsChain(body, c) && t == (Cycles(body, c), Opcodes(body, c))
  }

  /** `ready` holds, for each register written before `i`, the longest chain to its last writer. */
  ghost predicate Tracks(body: seq<Instr>, i: nat, ready: map<nat, Timed>, paths: seq<seq<nat>>) {
    && i <= |body| && |paths| == i
    && (forall j :: 0 <= j < i ==> LongestTo(body, paths[j], j))
    && (forall r: nat :: r in ready <==> LastWriter(body, i, r) >= 0)
    && (forall r: nat :: r in ready ==>
          LastWriter(body, i, r) < i && Reports(body, ready[r], paths[LastWriter(body, i, r)]))
  }

  lemma {:induction false} LastWriterBound(body: seq<Instr>, i: nat, r: nat)
    requires i <= |body|
    ensures -1 <= LastWriter(body, i, r) < i
  {
    if i == 0 {
    } else {
      LastWriterBound(body, i - 1, r);
    }
  }

  lemma ChainSnoc(body: seq<Instr>, c: seq<nat>, i: nat)
    requires IsChain(body, c) && i < |body| && (c != [] ==> Feeds(body, c[|c| - 1], i))
    ensures ChainTo(body, c + [i], i)
    ensures Cycles(body, c + [i]) == Cycles(body, c) + Latency(body[i].op)
    ensures Opcodes(body, c + [i]) == Opcodes(body, c) + [Head(body[i].op)]
  {
    hide Feeds, Latency, Head, Cycles, Opcodes, Linked;
    var d := c + [i];
    forall k | 0 <= k < |d| - 1 ensures Linked(body, d, k) {
      LinkSnoc(body, c, i, k);
    }
    CountsSnoc(body, c, i);
  }

  lemma LinkSnoc(body: seq<Instr>, c: seq<nat>, i: nat, k: nat)
    requires IsChain(body, c) && i < |body| && k < |c| && (c != [] ==> Feeds(body, c[|c| - 1], i))
    ensures Linked(body, c + [i], k)
  {
    hide Feeds;
    if k < |c| - 1 {
      assert Linked(body, c, k);
    }
  }

  lemma CountsSnoc(body: seq<Instr>, c: seq<nat>, i: nat)
    requires i < |body| && forall k :: 0 <= k < |c| ==> c[k] < |body|
    ensures Cycles(body, c + [i]) == Cycles(body, c) + Latency(body[i].op)
    ensures Opcodes(body, c + [i]) == Opcodes(body, c) + [Head(body[i].op)]
  {
    hide Latency, Head;
    assert (c + [i])[..|c|] == c;
  }

  /** The start the sources allow: no later than any chain into `i` needs, and met by `p`. */
  ghost predicate StartOf(body: seq<Instr>, i: nat, ready: map<nat, Timed>, k: nat, start: nat, p: seq<nat>)
    requires i < |body| && k <= |Sources(body[i])|
  {
    && IsChain(body, p) && Cycles(body, p) == start
    && (p != [] ==> Feeds(body, p[|p| - 1], i))
    && forall m :: 0 <= m < k && Sources(body[i])[m] in ready ==> ready[Sources(body[i])[m]].0 <= start
  }

  lemma LongestExtends(body: seq<Instr>, i: nat, ready: map<nat, Timed>, paths: seq<seq<nat>>, start: nat, p: seq<nat>)
    requires i < |body| && Tracks(body, i, ready, paths)
    requires StartOf(body, i, ready, |Sources(body[i])|, start, p)
    ensures LongestTo(body, p + [i], i) && Cycles(body, p + [i]) == start + Latency(body[i].op)
  {
    ChainSnoc(body, p, i);
    forall d | ChainTo(body, d, i) ensures Cycles(body, d) <= start + Latency(body[i].op) {
      ChainIntoBounded(body, i, ready, paths, start, p, d);
    }
  }

  lemma ChainPrefix(body: seq<Instr>, d: seq<nat>)
    requires IsChain(body, d) && |d| > 1
    ensures ChainTo(body, d[..|d| - 1], d[|d| - 2])
  {
    hide Feeds;
    var e := d[..|d| - 1];
    forall k | 0 <= k < |e| - 1 ensures Linked(body, e, k) {
      assert Linked(body, d, k);
    }
  }

  lemma ChainIntoBounded(body: seq<Instr>, i: nat, ready: map<nat, Timed>, paths: seq<seq<nat>>,
                         start: nat, p: seq<nat>, d: seq<nat>)
    requires i < |body| && Tracks(body, i, ready, paths)
    requires StartOf(body, i, ready, |Sources(body[i])|, start, p)
    requires ChainTo(body, d, i)
    ensures Cycles(body, d) <= start + Latency(body[i].op)
  {
    hide Sources, Latency, Opcodes, LastWriter;
    var e := d[..|d| - 1];
    if e != [] {
      var j := e[|e| - 1];
      assert Linked(body, d, |d| - 2);
      var r :| r in Sources(body[i]) && LastWriter(body, i, r) == j;
      LastWriterBound(body, i, r);
      ChainPrefix(body, d);
      assert LongestTo(body, paths[j], j);
      assert Reports(body, ready[r], paths[j]);
      var m :| 0 <= m < |Sources(body[i])| && Sources(body[i])[m] == r;
    }
  }

  /** Taking a source whose value is ready later than anything seen before. */
  lemma TakeSource(body: seq<Instr>, i: nat, ready: map<nat, Timed>, paths: seq<seq<nat>>, k: nat,
                   start: nat, p: seq<nat>)
    requires i < |body| && Tracks(body, i, ready, paths) && k < |Sources(body[i])|
    requires StartOf(body, i, ready, k, start, p)
    requires var r := Sources(body[i])[k]; r in ready && ready[r].0 > start
    ensures var r := Sources(body[i])[k];
            && 0 <= LastWriter(body, i, r) < i == |paths|
            && StartOf(body, i, ready, k + 1, ready[r].0, paths[LastWriter(body, i, r)])
            && ready[r].1 == Opcodes(body, paths[LastWriter(body, i, r)])
  {
    hide Sources, LastWriter, Cycles, Opcodes;
    var r := Sources(body[i])[k];
    var j := LastWriter(body, i, r);
    assert LongestTo(body, paths[j], j);
    assert Feeds(body, j, i);
  }

  /** A source is taken when its value is ready strictly later than what was seen before. */
  method Start(body: seq<Instr>, i: nat, ready: map<nat, Timed>, ghost paths: seq<seq<nat>>)
    returns (start: nat, chain: seq<string>, ghost p: seq<nat>)
    requires i < |body| && Tracks(body, i, ready, paths)
    ensures StartOf(body, i, ready, |Sources(body[i])|, start, p)
    ensures chain == Opcodes(body, p)
  {
    var src := Sources(body[i]);
    start, chain, p := 0, [], [];
    assert StartOf(body, i, ready, 0, start, p);
    assert chain == Opcodes(body, p);
    hide Tracks, StartOf, LastWriter, Sources, Opcodes;
    for k := 0 to |src|
      invariant IsChain(body, p) && StartOf(body, i, ready, k, start, p)
      invariant chain == Opcodes(body, p)
    {
      StartIsChain(body, i, ready, k, start, p);
      SkipSource(body, i, ready, k, start, p);
      var r := src[k];
      if r in ready && ready[r].0 > start {
        TakeSource(body, i, ready, paths, k, start, p);
        start, chain := ready[r].0, ready[r].1;
        p := paths[LastWriter(body, i, r)];
        StartIsChain(body, i, ready, k + 1, start, p);
      }
    }
  }

  lemma SkipSource(body: seq<Instr>, i: nat, ready: map<nat, Timed>, k: nat, start: nat, p: seq<nat>)
    requires i < |body| && k < |Sources(body[i])| && StartOf(body, i, ready, k, start, p)
    ensures var r := Sources(body[i])[k];
            !(r in ready && ready[r].0 > start) ==> StartOf(body, i, ready, k + 1, start, p)
  {
    hide Sources, IsChain, Cycles;
  }

  lemma StartIsChain(body: seq<Instr>, i: nat, ready: map<nat, Timed>, k: nat, start: nat, p: seq<nat>)
    requires i < |body| && k <= |Sources(body[i])| && StartOf(body, i, ready, k, start, p)
    ensures IsChain(body, p) && Cycles(body, p) == start && (p != [] ==> Feeds(body, p[|p| - 1], i))
  {
  }

  method Record(body: seq<Instr>, i: nat, ready: map<nat, Timed>, value: Timed,
                ghost paths: seq<seq<nat>>, ghost path: seq<nat>) returns (next: map<nat, Timed>)
    requires i < |body| && Tracks(body, i, ready, paths)
    requires LongestTo(body, path, i) && Reports(body, value, path)
    ensures Tracks(body, i + 1, next, paths + [path])
  {
    hide Tracks, LongestTo, Reports;
    var dst := Destinations(body[i]);
    next := WriteAll(ready, dst, value);
    Recorded(body, i, ready, value, paths, path, next);
  }

  /** `ready[r] = value` for every destination but register 255. */
  method WriteAll(ready: map<nat, Timed>, dst: seq<nat>, value: Timed) returns (next: map<nat, Timed>)
    ensures forall r: nat :: r in next <==> r in ready || (r != 255 && r in dst)
    ensures forall r: nat :: r in next ==> next[r] == if r != 255 && r in dst then value else ready[r]
  {
    next := ready;
    for k := 0 to |dst|
      invariant forall r: nat :: r in next <==> r in ready || (r != 255 && r in dst[..k])
      invariant forall r: nat :: r in next ==>
                  next[r] == if r != 255 && r in dst[..k] then value else ready[r]
    {
      assert dst[..k + 1] == dst[..k] + [dst[k]];
      if dst[k] != 255 {
        next := next[dst[k] := value];
      }
    }
    assert dst[..|dst|] == dst;
  }

  lemma Recorded(body: seq<Instr>, i: nat, ready: map<nat, Timed>, value: Timed,
                 paths: seq<seq<nat>>, path: seq<nat>, next: map<nat, Timed>)
    requires i < |body| && Tracks(body, i, ready, paths)
    requires LongestTo(body, path, i) && Reports(body, value, path)
    requires forall r: nat :: r in next <==> r in ready || Writes(body[i], r)
    requires forall r: nat :: r in next ==> next[r] == if Writes(body[i], r) then value else ready[r]
    ensures Tracks(body, i + 1, next, paths + [path])
  {
    hide Reports, LongestTo, Destinations;
    var all := paths + [path];
    forall r: nat | r in next
      ensures LastWriter(body, i + 1, r) >= 0 && LastWriter(body, i + 1, r) < i + 1
      ensures Reports(body, next[r], all[LastWriter(body, i + 1, r)])
    {
      LastWriterBound(body, i, r);
    }
  }

  /** One instruction: its end, the opcodes to it, and the registers it makes ready. */
  method Issue(body: seq<Instr>, i: nat, ready: map<nat, Timed>, ghost paths: seq<seq<nat>>)
    returns (value: Timed, next: map<nat, Timed>, ghost path: seq<nat>)
    requires i < |body| && Tracks(body, i, ready, paths)
    ensures LongestTo(body, path, i) && Reports(body, value, path)
    ensures Tracks(body, i + 1, next, paths + [path])
  {
    hide Tracks, LongestTo, StartOf, Sources, Destinations, Cycles, Opcodes, Latency, Head, IsChain;
    var start, chain, p := Start(body, i, ready, paths);
    var end := start + Latency(body[i].op);
    StartIsChain(body, i, ready, |Sources(body[i])|, start, p);
    LongestExtends(body, i, ready, paths, start, p);
    ChainSnoc(body, p, i);
    value, path := (end, chain + [Head(body[i].op)]), p + [i];
    next := Record(body, i, ready, value, paths, path);
  }

  /** The longest chain of the body, over every dependency chain, with the opcodes of one that
      attains it. */
  method CriticalChain(body: seq<Instr>) returns (best: Timed)
    ensures forall c :: IsChain(body, c) ==> Cycles(body, c) <= best.0
    ensures exists c :: Reports(body, best, c)
  {
    var ready: map<nat, Timed> := map[];
    best := (0, []);
    ghost var paths: seq<seq<nat>> := [];
    ghost var bestPath: seq<nat> := [];
    assert Reports(body, best, bestPath);
    assert Tracks(body, 0, ready, paths);
    hide Tracks, LongestTo, Reports, CyclesWithin;
    for i := 0 to |body|
      invariant Tracks(body, i, ready, paths) && |paths| == i
      invariant Reports(body, best, bestPath)
      invariant forall j :: 0 <= j < i ==> LongestTo(body, paths[j], j)
      invariant forall j :: 0 <= j < i ==> CyclesWithin(body, paths[j], best.0)
    {
      var value, next, path := Issue(body, i, ready, paths);
      ReportedWithin(body, value, path, best.0);
      WithinGrows(body, paths, best.0, value.0);
      if value.0 > best.0 {
        best := value;
        bestPath := path;
      }
      ready, paths := next, paths + [path];
    }
    forall c | IsChain(body, c) ensures Cycles(body, c) <= best.0 {
      ChainsWithin(body, paths, best.0, c);
    }
  }

  lemma ReportedWithin(body: seq<Instr>, value: Timed, path: seq<nat>, most: nat)
    requires Reports(body, value, path)
    ensures CyclesWithin(body, path, value.0)
    ensures value.0 <= most ==> CyclesWithin(body, path, most)
  {
  }

  lemma WithinGrows(body: seq<Instr>, paths: seq<seq<nat>>, most: nat, more: nat)
    requires forall j :: 0 <= j < |paths| ==> CyclesWithin(body, paths[j], most)
    ensures most <= more ==> forall j :: 0 <= j < |paths| ==> CyclesWithin(body, paths[j], more)
  {
    hide IsChain, Cycles;
  }

  ghost predicate CyclesWithin(body: seq<Instr>, c: seq<nat>, most: nat) {
    IsChain(body, c) && Cycles(body, c) <= most
  }

  lemma ChainsWithin(body: seq<Instr>, paths: seq<seq<nat>>, most: nat, c: seq<nat>)
    requires |paths| == |body| && IsChain(body, c)
    requires forall j :: 0 <= j < |body| ==> LongestTo(body, paths[j], j)
    requires forall j :: 0 <= j < |body| ==> CyclesWithin(body, paths[j], most)
    ensures Cycles(body, c) <= most
  {
    if c != [] {
      var j := c[|c| - 1];
      assert LongestTo(body, paths[j], j) && ChainTo(body, c, j);
      assert CyclesWithin(body, paths[j], most);
    }
  }

  lemma FeedsForward(body: seq<Instr>, j: nat, i: nat)
    requires i < |body| && Feeds(body, j, i)
    ensures j < i
  {
    var r :| r in Sources(body[i]) && LastWriter(body, i, r) == j;
    LastWriterBound(body, i, r);
  }

  /** A chain runs forward: each value is read after it was written. */
  lemma {:induction false} ChainsRunForward(body: seq<Instr>, c: seq<nat>, a: nat, b: nat)
    requires IsChain(body, c) && a < b < |c|
    ensures c[a] < c[b]
    decreases b - a
  {
    assert Linked(body, c, b - 1);
    FeedsForward(body, c[b - 1], c[b]);
    if a == b - 1 {
    } else {
      ChainsRunForward(body, c, a, b - 1);
    }
  }

  // ----- a vector load and the instruction that reads its last register -----

  /** LDS.128 R4, [R0] and then FADD R8, R7, R1. */
  function VectorLoad(): seq<Instr> {
    [Instr("LDS.128", [Operand(4, false)], true, [Operand(0, false)]),
     Instr("FADD", [Operand(8, false)], true, [Operand(7, false), Operand(1, false)])]
  }

  lemma WidthNeedsDot(op: string, j: nat)
    requires j < |op| && op[j] != '.'
    ensures NoWidthAt(op, j)
  {
    assert op[j..][0] == op[j];
  }

  lemma LoadIsWide()
    ensures Width("LDS.128") == 4
  {
    hide Width, NoWidthAt;
    var op := "LDS.128";
    WidthNeedsDot(op, 0);
    WidthNeedsDot(op, 1);
    WidthNeedsDot(op, 2);
    assert op[3..] == ".128";
    assert FirstWidthAt(op, ".128", 3);
    WidthMeans(op);
  }

  lemma NeitherIsControl()
    ensures !IsControl("LDS.128") && !IsControl("FADD")
  {
    assert "LDS.128"[0] == 'L' && "FADD"[0] == 'F';
  }

  lemma ListingLatencies()
    ensures Latency("LDS.128") == 30 && Latency("FADD") == 5
  {
    hide LatencyIn, Latency;
    assert LATENCIES[0].0 <= "LDS.128";
    assert FirstRow("LDS.128", LATENCIES, 0);
    LatencyMeans("LDS.128");
    forall k | 0 <= k < |LATENCIES| ensures !(LATENCIES[k].0 <= "FADD") {
      var p := LATENCIES[k].0;
      assert |p| >= 2 && (p[0] != 'F' || p[1] != 'A');
      assert "FADD"[0] == 'F' && "FADD"[1] == 'A';
    }
    LatencyMeans("FADD");
  }

  lemma NoDotBeyond(op: string, a: string, b: string)
    requires a <= op && b <= op && '.' !in b && (|a| < |op| ==> op[|a|] == '.')
    ensures |b| <= |a|
  {
    assert forall i :: 0 <= i < |b| ==> b[i] == op[i] && b[i] in b;
  }

  /** Only one prefix without a dot ends the opcode or stands before a dot. */
  lemma HeadIs(op: string, p: string)
    requires p <= op && '.' !in p && (|p| < |op| ==> op[|p|] == '.')
    ensures Head(op) == p
  {
    HeadMeans(op);
    NoDotBeyond(op, p, Head(op));
    NoDotBeyond(op, Head(op), p);
  }

  lemma ListingHeads()
    ensures Head("LDS.128") == "LDS" && Head("FADD") == "FADD"
  {
    hide Head;
    assert "LDS.128"[3] == '.';
    assert "LDS" <= "LDS.128";
    HeadIs("LDS.128", "LDS");
    HeadIs("FADD", "FADD");
  }

  lemma LoadFeeds()
    ensures Feeds(VectorLoad(), 0, 1)
  {
    hide Width, Sources, Destinations, IsControl;
    var body := VectorLoad();
    LoadIsWide();
    NeitherIsControl();
    WritesMeans(body[0], 7);
    ReadsMeans(body[1], 7);
    assert OperandNames(body[1].rest[0], 7);
    assert LastWriter(body, 1, 7) == 0;
  }

  /** Whatever is the longest chain of that listing has 35 cycles and both instructions. */
  lemma VectorLoadListing(best: Timed)
    requires forall c :: IsChain(VectorLoad(), c) ==> Cycles(VectorLoad(), c) <= best.0
    requires exists c :: Reports(VectorLoad(), best, c)
    ensures best == (35, ["LDS", "FADD"])
  {
    hide Latency, Head, Feeds, Width;
    var body := VectorLoad();
    ListingLatencies();
    ListingHeads();
    LoadFeeds();
    assert Linked(body, [0, 1], 0);
    assert IsChain(body, [0, 1]);
    ListingCycles();
    var c :| Reports(body, best, c);
    ShortChain(c);
    assert c == [0, 1];
    assert Opcodes(body, c) == ["LDS", "FADD"];
  }

  lemma ListingCycles()
    ensures var body := VectorLoad();
            && Cycles(body, []) == 0 && Cycles(body, [0]) == 30 && Cycles(body, [1]) == 5
            && Cycles(body, [0, 1]) == 35
  {
    hide Latency;
    ListingLatencies();
    assert [0][..0] == [] && [1][..0] == [] && [0, 1][..1] == [0];
  }

  lemma ShortChain(c: seq<nat>)
    requires IsChain(VectorLoad(), c)
    ensures c == [] || c == [0] || c == [1] || c == [0, 1]
  {
    hide Linked;
    if |c| >= 2 {
      ChainsRunForward(VectorLoad(), c, 0, 1);
      if |c| >= 3 {
        ChainsRunForward(VectorLoad(), c, 1, 2);
      }
    }
  }
}
