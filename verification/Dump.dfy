/** The question dump of the MMLU scorer (ops/vllm_score.py): what `emit_dump` writes and the question
    list `read_reference_dump` takes back from it. None stands for the exceptions of the reader. */
module Dump {
  import opened Basics
  import opened Numerals
  import opened Tally

  /** (subject, index, qhash) */
  datatype Question = Question(subject: string, index: int, qhash: int)

  // ----- writing -----

  /** The question's answer and its four scores. */
  datatype Scored = Scored(answer: int, scores: seq<real>)

  const COLUMNS: seq<string> := [
    "subject", "index", "population", "qhash", "answer", "pick", "correct",
    "logit_a", "logit_b", "logit_c", "logit_d"]

  /** `max(range(4), key=...)`: the first of the largest. */
  function Pick(row: seq<real>): (k: nat)
    requires |row| == 4
    ensures k < 4 && (forall j :: 0 <= j < 4 ==> row[j] <= row[k]) && forall j :: 0 <= j < k ==> row[j] < row[k]
  {
    var a := if row[1] > row[0] then 1 else 0;
    var b := if row[2] > row[a] then 2 else a;
    if row[3] > row[b] then 3 else b
  }

  function Correct(s: Scored): nat
    requires |s.scores| == 4
  {
    if Pick(s.scores) == s.answer then 1 else 0
  }

  /** `f6` prints a score with six decimals. */
  function Fields(q: Question, s: Scored, populations: Populations, f6: real -> string): (fields: seq<string>)
    requires |s.scores| == 4
    ensures |fields| == |COLUMNS|
  {
    [q.subject, Str(q.index), Str(Population(populations, q.subject)), Hex(q.qhash, 16), Str(s.answer),
     Str(Pick(s.scores)), Str(Correct(s)),
     f6(s.scores[0]), f6(s.scores[1]), f6(s.scores[2]), f6(s.scores[3])]
  }

  function Join(fields: seq<string>): string {
    if fields == [] then ""
    else if |fields| == 1 then fields[0]
    else fields[0] + "," + Join(fields[1..])
  }

  ghost predicate AllScored(items: seq<Scored>) {
    forall k :: 0 <= k < |items| ==> |items[k].scores| == 4
  }

  function Line(fields: seq<string>): string {
    Join(fields) + "\n"
  }

  ghost function Rows(wanted: seq<Question>, items: seq<Scored>, populations: Populations,
                      f6: real -> string): seq<seq<string>>
    requires |wanted| == |items| && AllScored(items)
  {
    seq(|wanted|, k requires 0 <= k < |wanted| => Fields(wanted[k], items[k], populations, f6))
  }

  ghost function Lines(rows: seq<seq<string>>): string {
    if rows == [] then "" else Lines(rows[..|rows| - 1]) + Line(rows[|rows| - 1])
  }

  /** Each question's subject and whether it was answered right. */
  ghost function Asked(wanted: seq<Question>, items: seq<Scored>): (asked: seq<(string, bool)>)
    requires |wanted| == |items| && AllScored(items)
    ensures |asked| == |wanted|
  {
    seq(|wanted|, k requires 0 <= k < |wanted| => (wanted[k].subject, Correct(items[k]) == 1))
  }

  function Comments(head: seq<string>): string {
    if head == [] then "" else "# " + head[0] + "\n" + Comments(head[1..])
  }

  function Label(model: string, arm: string): string {
    model + " [vLLM arm " + arm + "]"
  }

  /** An empty `revision` stands for none. */
  function Revision(revision: string): string {
    if revision == "" then "main (NOT PINNED)" else revision
  }

  function Scale(engine: string): string {
    if engine == "hf" then "logit  (logits" + " bruts, comme bin/mmlu)"
    else "logprob  \U{26A0}\U{FE0F}" + " colonnes logit_*" + " = LOGPROBS, pas des logits"
  }

  /** The comment lines, without their `# `. */
  function Head(model: string, arm: string, revision: string, engine: string): (head: seq<string>)
    ensures |head| == 6
  {
    ["llvq-mmlu-dump v1",
     "model" + "=" + Label(model, arm),
     "revision" + "=" + Revision(revision),
     "dtype" + "=" + "f16",
     "scores" + "=" + Scale(engine),
     "engine" + "=" + engine]
  }

  /** Comment lines `# ...`, the column line, one line a question; then the counts and the averages. */
  method EmitDump(model: string, arm: string, revision: string, engine: string, wanted: seq<Question>,
                  items: seq<Scored>, populations: Populations, f6: real -> string)
    returns (text: string, right: nat, total: nat, averages: Averages)
    requires |wanted| == |items| && AllScored(items)
    ensures text == Comments(Head(model, arm, revision, engine)) +
                    Lines([COLUMNS] + Rows(wanted, items, populations, f6))
    ensures right == AllRights(Asked(wanted, items)) && total == |wanted|
    ensures Valid(CountAll(Asked(wanted, items)))
    ensures averages == AveragesOf(CountAll(Asked(wanted, items)), populations)
  {
    var head := Head(model, arm, revision, engine);
    hide Comments, Fields, Line, Correct, Head, Count, Valid, Lines;
    text, right := Comments(head) + Line(COLUMNS), 0;
    var per := NOTHING;
    ghost var rows, asked := Rows(wanted, items, populations, f6), Asked(wanted, items);
    LinesStart(COLUMNS, rows);
    for i := 0 to |wanted|
      invariant text == Comments(head) + Lines([COLUMNS] + rows[..i])
      invariant right == AllRights(asked[..i]) && per == CountAll(asked[..i])
    {
      var ok := Correct(items[i]);
      right := right + if ok == 1 then 1 else 0;
      per := Count(per, wanted[i].subject, ok == 1);
      text := text + Line(Fields(wanted[i], items[i], populations, f6));
      LinesGrow(COLUMNS, rows, i);
      assert asked[..i + 1][..i] == asked[..i];
    }
    assert rows[..|wanted|] == rows && asked[..|wanted|] == asked;
    SlotsCount(asked);
    return text, right, |wanted|, AveragesOf(per, populations);
  }

  lemma LinesStart(columns: seq<string>, rows: seq<seq<string>>)
    ensures Lines([columns] + rows[..0]) == Line(columns)
  {
    assert [columns] + rows[..0] == [columns] && [columns][..0] == [];
  }

  lemma LinesGrow(columns: seq<string>, rows: seq<seq<string>>, i: nat)
    requires i < |rows|
    ensures Lines([columns] + rows[..i + 1]) == Lines([columns] + rows[..i]) + Line(rows[i])
  {
    assert ([columns] + rows[..i + 1])[..i + 1] == [columns] + rows[..i];
  }

  // ----- reading -----

  /** Text mode: every line end becomes \n. */
  function UniversalNewlines(s: string): string {
    if s == "" then ""
    else if s[0] == '\r' then "\n" + UniversalNewlines(if |s| > 1 && s[1] == '\n' then s[2..] else s[1..])
    else [s[0]] + UniversalNewlines(s[1..])
  }

  /** The line boundaries of `str.splitlines`, without \r, which text mode has removed. */
  predicate IsBreak(c: char) {
    c == '\n' || c == '\U{000B}' || c == '\U{000C}' || c == '\U{001C}' || c == '\U{001D}' ||
    c == '\U{001E}' || c == '\U{0085}' || c == '\U{2028}' || c == '\U{2029}'
  }

  /** The length of the first line, its end included. */
  function FirstLine(s: string): (n: nat)
    requires s != ""
    ensures 0 < n <= |s|
  {
    if IsBreak(s[0]) || |s| == 1 then 1 else 1 + FirstLine(s[1..])
  }

  /** The text without its lines that begin with '#'. */
  function Body(s: string): string
    decreases |s|
  {
    if s == "" then ""
    else
      var n := FirstLine(s);
      (if s[0] == '#' then "" else s[..n]) + Body(s[n..])
  }

  /** `f.partition("=")` without the separator. */
  function Partition(f: string): (string, string) {
    if f == "" then ("", "")
    else if f[0] == '=' then ("", f[1..])
    else
      var (k, v) := Partition(f[1..]);
      ([f[0]] + k, v)
  }

  /** A comment line with an equals sign sets a header field. */
  function HeaderLine(line: string, head: map<string, string>): map<string, string>
    requires line != ""
  {
    if '=' in line then
      var (k, v) := Partition(Strip(line[1..]));
      head[Strip(k) := Strip(v)]
    else head
  }

  /** The header after the comment lines of `s`. */
  function Header(s: string, head: map<string, string>): map<string, string>
    decreases |s|
  {
    if s == "" then head
    else
      var n := FirstLine(s);
      Header(s[n..], if s[0] == '#' then HeaderLine(s[..n], head) else head)
  }

  /** The loop over the lines: comments make the header, the other lines the body. */
  method SplitLines(text: string) returns (body: string, head: map<string, string>)
    ensures body == Body(text) && head == Header(text, map[])
  {
    body, head := "", map[];
    var rest := text;
    while rest != ""
      invariant body + Body(rest) == Body(text)
      invariant Header(rest, head) == Header(text, map[])
      decreases |rest|
    {
      var n := FirstLine(rest);
      var line := rest[..n];
      ghost var tail := Body(rest[n..]);
      if rest[0] == '#' {
        head := HeaderLine(line, head);
      } else {
        AppendLine(body, line, tail);
        body := body + line;
      }
      rest := rest[n..];
    }
  }

  lemma AppendLine(body: string, line: string, tail: string)
    ensures body + (line + tail) == (body + line) + tail
  {
  }

  datatype Mode = StartRecord | StartField | InField | InQuoted | QuoteInQuoted

  /** The reader of the csv module in its default dialect. */
  datatype Csv = Csv(mode: Mode, field: string, fields: seq<string>, rows: seq<seq<string>>)

  function EndField(s: Csv): Csv {
    Csv(StartField, "", s.fields + [s.field], s.rows)
  }

  function EndRecord(s: Csv): Csv {
    Csv(StartRecord, "", [], s.rows + [s.fields + [s.field]])
  }

  function Feed(s: Csv, c: char): Csv {
    match s.mode
    case StartRecord =>
      if c == '\n' then s.(rows := s.rows + [[]])
      else if c == '"' then s.(mode := InQuoted)
      else if c == ',' then EndField(s)
      else s.(mode := InField, field := s.field + [c])
    case StartField =>
      if c == '\n' then EndRecord(s)
      else if c == '"' then s.(mode := InQuoted)
      else if c == ',' then EndField(s)
      else s.(mode := InField, field := s.field + [c])
    case InField =>
      if c == '\n' then EndRecord(s)
      else if c == ',' then EndField(s)
      else s.(field := s.field + [c])
    case InQuoted =>
      if c == '"' then s.(mode := QuoteInQuoted) else s.(field := s.field + [c])
    case QuoteInQuoted =>
      if c == '\n' then EndRecord(s)
      else if c == '"' then s.(mode := InQuoted, field := s.field + [c])
      else if c == ',' then EndField(s)
      else s.(mode := InField, field := s.field + [c])
  }

  function FeedAll(s: Csv, text: string): Csv {
    if text == "" then s else Feed(FeedAll(s, text[..|text| - 1]), text[|text| - 1])
  }

  /** The records of a text; an unfinished last one is kept. */
  function Records(text: string): seq<seq<string>> {
    var s := FeedAll(Csv(StartRecord, "", [], []), text);
    if s.mode == StartRecord then s.rows else EndRecord(s).rows
  }

  /** DictReader's value of column `key`: the last column of that name, missing in a shorter row. */
  function Lookup(names: seq<string>, row: seq<string>, key: string): Option<string> {
    if names == [] then None
    else if names[|names| - 1] == key then if |names| <= |row| then Some(row[|names| - 1]) else None
    else Lookup(names[..|names| - 1], row, key)
  }

  /** One row: skipped without a subject, refused when index or qhash is missing or no integer. */
  datatype Outcome = Skip | Refuse | Take(q: Question)

  function ReadRow(names: seq<string>, row: seq<string>): Outcome {
    if row == [] then Skip
    else
      var subject := Lookup(names, row, "subject");
      if subject.None? || subject.value == "" then Skip
      else
        var index, qhash := Lookup(names, row, "index"), Lookup(names, row, "qhash");
        if index.None? || qhash.None? then Refuse
        else
          var i, h := ParseInt(index.value, 10), ParseInt(qhash.value, 16);
          if i.None? || h.None? then Refuse else Take(Question(subject.value, i.value, h.value))
  }

  /** The questions of the first `k` rows after the column line; None once one is refused. */
  ghost function Taken(names: seq<string>, rows: seq<seq<string>>): Option<seq<Question>> {
    if rows == [] then Some([])
    else
      var before, last := Taken(names, rows[..|rows| - 1]), ReadRow(names, rows[|rows| - 1]);
      if before.None? || last.Refuse? then None
      else if last.Skip? then before
      else Some(before.value + [last.q])
  }

  /** The questions and the header; None when a row is refused or there is no question. */
  method ReadReferenceDump(file: string) returns (r: Option<(seq<Question>, map<string, string>)>)
    ensures var text := UniversalNewlines(file);
            var records := Records(Body(text));
            var taken := if records == [] then Some([]) else Taken(records[0], records[1..]);
            r == if taken.Some? && taken.value != [] then Some((taken.value, Header(text, map[]))) else None
  {
    hide ReadRow, Records, Body, Header, UniversalNewlines;
    var text := UniversalNewlines(file);
    var body, head := SplitLines(text);
    var records := Records(body);
    if records == [] {
      return None;
    }
    var rows := [];
    ghost var data := records[1..];
    for i := 1 to |records|
      invariant Taken(records[0], data[..i - 1]) == Some(rows)
    {
      assert data[..i][..i - 1] == data[..i - 1] && data[i - 1] == records[i];
      match ReadRow(records[0], records[i])
      case Skip =>
      case Refuse =>
        RefusedStays(records[0], data, i);
        return None;
      case Take(q) =>
        rows := rows + [q];
    }
    assert data[..|data|] == data;
    return if rows == [] then None else Some((rows, head));
  }

  /** A dump is refused for one row with a subject whose index or hash is missing or is no integer; an empty row or
      one without a subject is passed over. */
  lemma {:induction false} RefusedForOneRow(names: seq<string>, rows: seq<seq<string>>)
    ensures Taken(names, rows).None? <==> exists k :: 0 <= k < |rows| && BadRow(names, rows[k])
  {
    if rows == [] {
    } else {
      hide ReadRow;
      var n := |rows| - 1;
      RefusedForOneRow(names, rows[..n]);
      assert BadRow(names, rows[n]) <==> ReadRow(names, rows[n]).Refuse? by { RowMeans(names, rows[n]); }
      if k :| 0 <= k < |rows| && BadRow(names, rows[k]) {
        assert k == n || rows[..n][k] == rows[k];
      }
    }
  }

  ghost predicate HasSubject(names: seq<string>, row: seq<string>) {
    row != [] && Lookup(names, row, "subject").Some? && Lookup(names, row, "subject") != Some("")
  }

  ghost predicate IsInteger(s: Option<string>, base: Base) {
    s.Some? && ParseInt(s.value, base).Some?
  }

  ghost predicate BadRow(names: seq<string>, row: seq<string>) {
    && HasSubject(names, row)
    && !(IsInteger(Lookup(names, row, "index"), 10) && IsInteger(Lookup(names, row, "qhash"), 16))
  }

  lemma RowMeans(names: seq<string>, row: seq<string>)
    ensures ReadRow(names, row).Refuse? <==> BadRow(names, row)
    ensures ReadRow(names, row).Skip? <==> !HasSubject(names, row)
  {
    hide Lookup, ParseInt;
  }

  lemma {:induction false} RefusedStays(names: seq<string>, rows: seq<seq<string>>, k: nat)
    requires k <= |rows| && Taken(names, rows[..k]).None?
    ensures Taken(names, rows).None?
    decreases |rows|
  {
    if k < |rows| {
      assert rows[..|rows| - 1][..k] == rows[..k];
      RefusedStays(names, rows[..|rows| - 1], k);
    } else {
      assert rows[..k] == rows;
    }
  }

  // ----- a plain line is one record -----

  /** No comma, no line end, no quote in front. */
  ghost predicate Plain(s: string) {
    && (forall i :: 0 <= i < |s| ==> s[i] != ',' && s[i] != '\r' && !IsBreak(s[i]))
    && (s != "" ==> s[0] != '"')
  }

  lemma {:induction false} FeedConcat(s: Csv, a: string, b: string)
    ensures FeedAll(s, a + b) == FeedAll(FeedAll(s, a), b)
  {
    if b == "" {
      assert a + b == a;
    } else {
      assert (a + b)[..|a + b| - 1] == a + b[..|b| - 1];
      FeedConcat(s, a, b[..|b| - 1]);
    }
  }

  lemma {:induction false} FeedPlain(s: Csv, f: string)
    requires (s.mode == StartField || s.mode == StartRecord) && s.field == "" && Plain(f) && f != ""
    ensures FeedAll(s, f) == s.(mode := InField, field := f)
  {
    var n := |f| - 1;
    if n == 0 {
      assert f[..0] == "" && f == [f[0]];
    } else {
      FeedPlain(s, f[..n]);
      assert f == f[..n] + [f[n]];
    }
  }

  lemma FeedOne(s: Csv, c: char)
    ensures FeedAll(s, [c]) == Feed(s, c)
  {
    assert [c][..0] == "";
  }

  /** A plain field and its comma. */
  lemma FeedField(s: Csv, f: string)
    requires (s.mode == StartField || s.mode == StartRecord) && s.field == "" && Plain(f)
    ensures FeedAll(s, f + ",") == Csv(StartField, "", s.fields + [f], s.rows)
  {
    FeedConcat(s, f, ",");
    if f != "" {
      FeedPlain(s, f);
      FeedOne(FeedAll(s, f), ',');
    } else {
      FeedOne(s, ',');
    }
  }

  /** The last field of a record and its line end. */
  lemma FeedLast(s: Csv, f: string)
    requires s.mode == StartField && s.field == "" && Plain(f)
    ensures FeedAll(s, f + "\n") == Csv(StartRecord, "", [], s.rows + [s.fields + [f]])
  {
    FeedConcat(s, f, "\n");
    if f != "" {
      FeedPlain(s, f);
      FeedOne(FeedAll(s, f), '\n');
    } else {
      FeedOne(s, '\n');
    }
  }

  // ----- quoted fields -----

  /** Every quote doubled. */
  ghost function Doubled(f: string): string {
    if f == "" then ""
    else Doubled(f[..|f| - 1]) + if f[|f| - 1] == '"' then "\"\"" else [f[|f| - 1]]
  }

  ghost function Quoted(f: string): string {
    "\"" + Doubled(f) + "\""
  }

  lemma {:induction false} FeedDoubled(s: Csv, f: string)
    requires s.mode == InQuoted
    ensures FeedAll(s, Doubled(f)) == s.(field := s.field + f)
  {
    if f == "" {
      assert s.field + "" == s.field;
    } else {
      var n := |f| - 1;
      var h, c := f[..n], f[n];
      FeedDoubled(s, h);
      var t := FeedAll(s, Doubled(h));
      FeedConcat(s, Doubled(h), if c == '"' then "\"\"" else [c]);
      hide FeedAll;
      assert s.field + h + [c] == s.field + f;
      if c == '"' {
        assert "\"\"" == ['"'] + ['"'];
        FeedConcat(t, ['"'], ['"']);
        FeedOne(t, '"');
        FeedOne(Feed(t, '"'), '"');
      } else {
        FeedOne(t, c);
      }
    }
  }

  /** Any field at all, in quotes, is read as it is. */
  lemma FeedQuoted(s: Csv, f: string)
    requires (s.mode == StartField || s.mode == StartRecord) && s.field == ""
    ensures FeedAll(s, Quoted(f)) == s.(mode := QuoteInQuoted, field := f)
  {
    hide FeedAll, Doubled;
    FeedConcat(s, "\"" + Doubled(f), "\"");
    FeedConcat(s, "\"", Doubled(f));
    FeedOne(s, '"');
    var t := s.(mode := InQuoted);
    FeedDoubled(t, f);
    assert t.field + f == f;
    FeedOne(t.(field := f), '"');
  }

  ghost function QuotedLine(fields: seq<string>): string {
    if fields == [] then ""
    else if |fields| == 1 then Quoted(fields[0]) + "\n"
    else Quoted(fields[0]) + "," + QuotedLine(fields[1..])
  }

  /** A line of quoted fields is one record, whatever commas, quotes and line ends they hold. */
  lemma {:induction false} QuotedRecordReads(s: Csv, fields: seq<string>)
    requires (s.mode == StartField || s.mode == StartRecord) && s.field == "" && fields != []
    ensures FeedAll(s, QuotedLine(fields)) == Csv(StartRecord, "", [], s.rows + [s.fields + fields])
    decreases |fields|
  {
    hide FeedAll, Quoted;
    var f := fields[0];
    var q := s.(mode := QuoteInQuoted, field := f);
    FeedQuoted(s, f);
    if |fields| == 1 {
      FeedConcat(s, Quoted(f), "\n");
      FeedOne(q, '\n');
      assert fields == [f];
    } else {
      var rest := fields[1..];
      FeedConcat(s, Quoted(f) + ",", QuotedLine(rest));
      FeedConcat(s, Quoted(f), ",");
      FeedOne(q, ',');
      var t := Csv(StartField, "", s.fields + [f], s.rows);
      QuotedRecordReads(t, rest);
      assert s.fields + [f] + rest == s.fields + fields;
    }
  }

  ghost predicate AllPlain(fields: seq<string>) {
    forall k :: 0 <= k < |fields| ==> Plain(fields[k])
  }

  lemma PlainRest(fields: seq<string>)
    requires fields != [] && AllPlain(fields)
    ensures AllPlain(fields[1..])
  {
    hide Plain;
    forall k | 0 <= k < |fields[1..]| ensures Plain(fields[1..][k]) {
      assert fields[1..][k] == fields[k + 1];
    }
  }

  lemma LineCons(fields: seq<string>)
    requires |fields| > 1
    ensures Line(fields) == fields[0] + "," + Line(fields[1..])
  {
    assert Join(fields) == fields[0] + "," + Join(fields[1..]);
  }

  lemma {:induction false} FeedFields(s: Csv, fields: seq<string>)
    requires s.mode == StartField || (s.mode == StartRecord && |fields| > 1)
    requires s.field == "" && fields != [] && AllPlain(fields)
    ensures FeedAll(s, Line(fields)) == Csv(StartRecord, "", [], s.rows + [s.fields + fields])
    decreases |fields|
  {
    hide Plain, FeedAll;
    if |fields| == 1 {
      assert Plain(fields[0]);
      FeedLast(s, fields[0]);
      assert fields == [fields[0]];
    } else {
      var rest := fields[1..];
      assert Plain(fields[0]);
      PlainRest(fields);
      LineCons(fields);
      FeedConcat(s, fields[0] + ",", Line(rest));
      FeedField(s, fields[0]);
      FeedFields(FeedAll(s, fields[0] + ","), rest);
      assert s.fields + [fields[0]] + rest == s.fields + fields;
    }
  }

  ghost predicate PlainRows(rows: seq<seq<string>>) {
    forall k :: 0 <= k < |rows| ==> |rows[k]| > 1 && AllPlain(rows[k])
  }

  lemma {:induction false} FeedLines(s: Csv, rows: seq<seq<string>>)
    requires s == Csv(StartRecord, "", [], s.rows) && PlainRows(rows)
    ensures FeedAll(s, Lines(rows)) == Csv(StartRecord, "", [], s.rows + rows)
  {
    if rows == [] {
      assert s.rows + [] == s.rows;
    } else {
      hide FeedAll, AllPlain, Line;
      var n := |rows| - 1;
      FeedLines(s, rows[..n]);
      FeedConcat(s, Lines(rows[..n]), Line(rows[n]));
      FeedFields(FeedAll(s, Lines(rows[..n])), rows[n]);
      assert [] + rows[n] == rows[n];
      assert s.rows + rows[..n] + [rows[n]] == s.rows + rows;
    }
  }

  // ----- lines and comments -----

  ghost predicate NoBreak(s: string) {
    forall i :: 0 <= i < |s| ==> !IsBreak(s[i]) && s[i] != '\r'
  }

  lemma {:induction false} FirstLineOf(l: string, rest: string)
    requires NoBreak(l)
    ensures FirstLine(l + "\n" + rest) == |l| + 1
  {
    var s := l + "\n" + rest;
    if l == "" {
    } else {
      assert s[1..] == l[1..] + "\n" + rest;
      FirstLineOf(l[1..], rest);
    }
  }

  lemma BodyStep(l: string, rest: string)
    requires NoBreak(l)
    ensures Body(l + "\n" + rest) == (if l != "" && l[0] == '#' then "" else l + "\n") + Body(rest)
  {
    var s := l + "\n" + rest;
    FirstLineOf(l, rest);
    assert s[..|l| + 1] == l + "\n" && s[|l| + 1..] == rest;
  }

  lemma {:induction false} CommentsGo(head: seq<string>, rest: string)
    requires forall k :: 0 <= k < |head| ==> NoBreak(head[k])
    ensures Body(Comments(head) + rest) == Body(rest)
  {
    if head == [] {
      assert Comments(head) + rest == rest;
    } else {
      var l := "# " + head[0];
      CommentsGo(head[1..], rest);
      assert Comments(head) + rest == l + "\n" + (Comments(head[1..]) + rest);
      BodyStep(l, Comments(head[1..]) + rest);
    }
  }

  /** A record line: no break inside, and not read as a comment. */
  ghost predicate RecordLine(fields: seq<string>) {
    fields != [] && NoBreak(Join(fields)) && (Join(fields) != "" ==> Join(fields)[0] != '#')
  }

  lemma {:induction false} BodyKeepsLines(rows: seq<seq<string>>, rest: string)
    requires forall k :: 0 <= k < |rows| ==> RecordLine(rows[k])
    ensures Body(Lines(rows) + rest) == Lines(rows) + Body(rest)
  {
    if rows == [] {
      assert Lines(rows) + rest == rest;
    } else {
      hide Join, NoBreak, Body;
      var n := |rows| - 1;
      var l := Join(rows[n]);
      assert RecordLine(rows[n]);
      BodyKeepsLines(rows[..n], l + "\n" + rest);
      BodyStep(l, rest);
      Regroup(Lines(rows[..n]), l + "\n", rest);
      Regroup(Lines(rows[..n]), l + "\n", Body(rest));
    }
  }

  lemma Regroup(a: string, b: string, c: string)
    ensures (a + b) + c == a + (b + c)
  {
  }

  lemma {:induction false} JoinNoBreak(fields: seq<string>)
    requires fields != [] && AllPlain(fields)
    ensures NoBreak(Join(fields))
    ensures fields[0] != "" ==> Join(fields) != "" && Join(fields)[0] == fields[0][0]
    decreases |fields|
  {
    assert Plain(fields[0]);
    if |fields| <= 1 {
    } else {
      JoinNoBreak(fields[1..]);
    }
  }

  lemma {:induction false} NewlinesStay(s: string)
    requires forall i :: 0 <= i < |s| ==> s[i] != '\r'
    ensures UniversalNewlines(s) == s
  {
    if s == "" {
    } else {
      NewlinesStay(s[1..]);
      assert s == [s[0]] + s[1..];
    }
  }

  /** The text with another line end. */
  ghost function WithLineEnds(s: string, end: string): string {
    if s == "" then "" else (if s[0] == '\n' then end else [s[0]]) + WithLineEnds(s[1..], end)
  }

  /** A dump that went through an editor with other line ends reads the same. */
  lemma {:induction false} LineEndsDoNotMatter(s: string, end: string)
    requires (forall i :: 0 <= i < |s| ==> s[i] != '\r') && (end == "\r\n" || end == "\r" || end == "\n")
    ensures UniversalNewlines(WithLineEnds(s, end)) == s
    ensures end != "\n" ==> WithLineEnds(s, end) == "" || WithLineEnds(s, end)[0] != '\n'
  {
    if s == "" {
    } else {
      var t := WithLineEnds(s[1..], end);
      LineEndsDoNotMatter(s[1..], end);
      assert s == [s[0]] + s[1..];
      if s[0] != '\n' {
        assert ([s[0]] + t)[1..] == t;
      } else if end == "\r\n" {
        assert (end + t)[2..] == t;
      } else {
        assert (end + t)[1..] == t;
      }
    }
  }

  // ----- the round trip -----

  /** A subject the dump can carry. */
  ghost predicate GoodSubject(s: string) {
    s != "" && Plain(s) && s[0] != '#'
  }

  lemma DigitsArePlain(s: string)
    requires PlainHex(s)
    ensures Plain(s)
  {
  }

  lemma StrIsPlain(n: int)
    ensures Plain(Str(n))
  {
    NumeralIsPlain(if n < 0 then -n else n, 10);
  }

  lemma HexIsPlain(n: int)
    ensures Plain(Hex(n, 16))
  {
    hide Hex, Plain, PlainHex;
    HexReads(n, 16);
    if n < 0 {
      MinusHexIsPlain(Hex(n, 16));
    } else {
      DigitsArePlain(Hex(n, 16));
    }
  }

  lemma MinusHexIsPlain(s: string)
    requires s != "" && s[0] == '-' && PlainHex(s[1..])
    ensures Plain(s)
  {
    assert forall i :: 1 <= i < |s| ==> s[i] == s[1..][i - 1];
  }

  lemma FieldsArePlain(q: Question, s: Scored, populations: Populations, f6: real -> string)
    requires |s.scores| == 4 && GoodSubject(q.subject) && forall v :: Plain(f6(v))
    ensures AllPlain(Fields(q, s, populations, f6)) && RecordLine(Fields(q, s, populations, f6))
  {
    hide Plain, Str, PlainHex;
    StrIsPlain(q.index);
    StrIsPlain(Population(populations, q.subject));
    StrIsPlain(s.answer);
    StrIsPlain(Pick(s.scores));
    StrIsPlain(Correct(s));
    HexIsPlain(q.qhash);
    var fields := Fields(q, s, populations, f6);
    assert AllPlain(fields);
    JoinNoBreak(fields);
  }

  lemma ColumnsArePlain()
    ensures AllPlain(COLUMNS) && RecordLine(COLUMNS)
  {
    FirstColumnsArePlain();
    LastColumnsArePlain();
    hide Plain, Join, NoBreak;
    assert AllPlain(COLUMNS);
    JoinNoBreak(COLUMNS);
    assert COLUMNS[0][0] == 's';
  }

  lemma FirstColumnsArePlain()
    ensures Plain("subject") && Plain("index") && Plain("population") && Plain("qhash") && Plain("answer")
  {
  }

  lemma LastColumnsArePlain()
    ensures Plain("pick") && Plain("correct")
    ensures Plain("logit_a") && Plain("logit_b") && Plain("logit_c") && Plain("logit_d")
  {
  }

  lemma RowReadsBack(q: Question, s: Scored, populations: Populations, f6: real -> string)
    requires |s.scores| == 4 && q.subject != ""
    ensures ReadRow(COLUMNS, Fields(q, s, populations, f6)) == Take(q)
  {
    hide Str, Hex, ParseInt, Lookup, Pick, Correct, Population;
    var fields := Fields(q, s, populations, f6);
    ColumnAt(fields, 0);
    ColumnAt(fields, 1);
    ColumnAt(fields, 3);
    StrReads(q.index);
    HexReads(q.qhash, 16);
  }

  /** The column names differ, so each is looked up at its own place. */
  lemma ColumnAt(row: seq<string>, k: nat)
    requires |row| == |COLUMNS| && k < |COLUMNS|
    ensures Lookup(COLUMNS, row, COLUMNS[k]) == Some(row[k])
  {
    ColumnsDiffer();
    assert |COLUMNS| == 11;
    hide COLUMNS;
    LookupFinds(COLUMNS, row, k, |COLUMNS|);
    assert COLUMNS[..|COLUMNS|] == COLUMNS;
  }

  lemma ColumnsDiffer()
    ensures Distinct(COLUMNS)
  {
    assert |COLUMNS[0]| == 7 && |COLUMNS[1]| == 5 && |COLUMNS[2]| == 10 && |COLUMNS[3]| == 5 && |COLUMNS[4]| == 6;
    assert |COLUMNS[5]| == 4 && |COLUMNS[6]| == 7;
    assert COLUMNS[0][0] == 's' && COLUMNS[6][0] == 'c' && COLUMNS[1][0] == 'i' && COLUMNS[3][0] == 'q';
    assert forall k :: 7 <= k < 11 ==> |COLUMNS[k]| == 7 && COLUMNS[k][0] == 'l' && COLUMNS[k][6] == LETTERS[k - 7];
  }

  const LETTERS: string := "abcd"

  ghost predicate Shows(row: seq<string>, column: string, value: string) {
    Lookup(COLUMNS, row, column) == Some(value)
  }

  /** Score k is the greatest, and every one before it smaller. */
  ghost predicate IsFirstBest(scores: seq<real>, k: int) {
    && |scores| == 4 && 0 <= k < 4
    && (forall j :: 0 <= j < 4 ==> scores[j] <= scores[k]) && forall j :: 0 <= j < k ==> scores[j] < scores[k]
  }

  /** What each named column of a line holds: the pick is the first of the greatest scores, a question is right
      when that is its answer, and the hash takes sixteen digits. */
  lemma ColumnsMean(q: Question, s: Scored, populations: Populations, f6: real -> string, pick: nat)
    requires IsFirstBest(s.scores, pick)
    ensures var row := Fields(q, s, populations, f6);
            && Shows(row, "subject", q.subject) && Shows(row, "index", Str(q.index))
            && Shows(row, "population", Str(Population(populations, q.subject)))
            && Shows(row, "qhash", Hex(q.qhash, 16)) && Shows(row, "answer", Str(s.answer))
            && Shows(row, "pick", Str(pick)) && Shows(row, "correct", if s.answer == pick then "1" else "0")
            && Shows(row, "logit_a", f6(s.scores[0])) && Shows(row, "logit_b", f6(s.scores[1]))
            && Shows(row, "logit_c", f6(s.scores[2])) && Shows(row, "logit_d", f6(s.scores[3]))
    ensures 0 <= q.qhash < 0x1_0000_0000_0000_0000 ==> |Hex(q.qhash, 16)| == 16
  {
    var row := Fields(q, s, populations, f6);
    assert Pick(s.scores) == pick;
    assert Correct(s) == if s.answer == pick then 1 else 0;
    BinaryDigits();
    hide Str, Hex, Lookup, Pick, Correct, Population;
    ColumnAt(row, 0);
    ColumnAt(row, 1);
    ColumnAt(row, 2);
    ColumnAt(row, 3);
    ColumnAt(row, 4);
    ColumnAt(row, 5);
    ColumnAt(row, 6);
    ColumnAt(row, 7);
    ColumnAt(row, 8);
    ColumnAt(row, 9);
    ColumnAt(row, 10);
    if 0 <= q.qhash < 0x1_0000_0000_0000_0000 {
      Sixteen16();
      HexWidth(q.qhash, 16);
    }
  }

  lemma BinaryDigits()
    ensures Str(0) == "0" && Str(1) == "1"
  {
    assert Digit(0) == '0' && Digit(1) == '1';
  }

  lemma {:induction false} LookupFinds(names: seq<string>, row: seq<string>, k: nat, n: nat)
    requires k < n <= |names| <= |row| && forall i :: k < i < n ==> names[i] != names[k]
    ensures Lookup(names[..n], row, names[k]) == Some(row[k])
    decreases n
  {
    assert names[..n][..n - 1] == names[..n - 1];
    if n - 1 == k {
    } else {
      LookupFinds(names, row, k, n - 1);
    }
  }

  lemma {:induction false} RowsAreTaken(names: seq<string>, rows: seq<seq<string>>, wanted: seq<Question>)
    requires |rows| == |wanted|
    requires forall k :: 0 <= k < |wanted| ==> ReadRow(names, rows[k]) == Take(wanted[k])
    ensures Taken(names, rows) == Some(wanted)
  {
    hide ReadRow;
    if wanted == [] {
    } else {
      var n := |wanted| - 1;
      var t, w := rows[..n], wanted[..n];
      assert forall k :: 0 <= k < n ==> t[k] == rows[k] && w[k] == wanted[k];
      RowsAreTaken(names, t, w);
      assert wanted == w + [wanted[n]];
    }
  }

  lemma RowsReadBack(wanted: seq<Question>, items: seq<Scored>, populations: Populations, f6: real -> string)
    requires |wanted| == |items| && AllScored(items)
    requires forall k :: 0 <= k < |wanted| ==> wanted[k].subject != ""
    ensures Taken(COLUMNS, Rows(wanted, items, populations, f6)) == Some(wanted)
  {
    hide ReadRow, Fields, Taken;
    var rows := Rows(wanted, items, populations, f6);
    forall k | 0 <= k < |wanted| ensures ReadRow(COLUMNS, rows[k]) == Take(wanted[k]) {
      RowReadsBack(wanted[k], items[k], populations, f6);
    }
    RowsAreTaken(COLUMNS, rows, wanted);
  }

  ghost predicate WellFormed(head: seq<string>, wanted: seq<Question>, items: seq<Scored>, f6: real -> string) {
    && |wanted| == |items| && AllScored(items)
    && (forall k :: 0 <= k < |head| ==> NoBreak(head[k]))
    && (forall k :: 0 <= k < |wanted| ==> GoodSubject(wanted[k].subject))
    && forall v :: Plain(f6(v))
  }

  /** The records of a dump are the column names and the rows it was made from. */
  lemma DumpRecords(head: seq<string>, wanted: seq<Question>, items: seq<Scored>, populations: Populations,
                    f6: real -> string)
    requires WellFormed(head, wanted, items, f6)
    ensures var text := Comments(head) + Lines([COLUMNS] + Rows(wanted, items, populations, f6));
            Records(Body(UniversalNewlines(text))) == [COLUMNS] + Rows(wanted, items, populations, f6)
  {
    var rows := [COLUMNS] + Rows(wanted, items, populations, f6);
    DumpRows(head, wanted, items, populations, f6);
    hide AllPlain, Plain, FeedAll, Lines, NoBreak, Rows, Body, Comments, RecordLine, UniversalNewlines, WellFormed;
    HeadIsPlain(head, wanted, items, f6);
    CommentsGo(head, Lines(rows));
    BodyKeepsLines(rows, "");
    assert Lines(rows) + "" == Lines(rows);
    EmptyBody();
    FeedLines(Csv(StartRecord, "", [], []), rows);
    assert [] + rows == rows;
    NoReturns(head, rows);
    NewlinesStay(Comments(head) + Lines(rows));
  }

  lemma HeadIsPlain(head: seq<string>, wanted: seq<Question>, items: seq<Scored>, f6: real -> string)
    requires WellFormed(head, wanted, items, f6)
    ensures forall k :: 0 <= k < |head| ==> NoBreak(head[k])
  {
  }

  lemma DumpRows(head: seq<string>, wanted: seq<Question>, items: seq<Scored>, populations: Populations,
                 f6: real -> string)
    requires WellFormed(head, wanted, items, f6)
    ensures var rows := [COLUMNS] + Rows(wanted, items, populations, f6);
            PlainRows(rows) && forall k :: 0 <= k < |rows| ==> RecordLine(rows[k])
  {
    hide Fields, RecordLine, AllPlain, GoodSubject, Plain;
    var rows := [COLUMNS] + Rows(wanted, items, populations, f6);
    ColumnsArePlain();
    forall k | 0 <= k < |rows| ensures |rows[k]| > 1 && AllPlain(rows[k]) && RecordLine(rows[k]) {
      if k > 0 {
        FieldsArePlain(wanted[k - 1], items[k - 1], populations, f6);
      }
    }
  }

  lemma EmptyBody()
    ensures Body("") == ""
  {
  }

  ghost predicate NoReturn(s: string) {
    forall i :: 0 <= i < |s| ==> s[i] != '\r'
  }

  lemma {:induction false} CommentsNoReturn(head: seq<string>)
    requires forall k :: 0 <= k < |head| ==> NoBreak(head[k])
    ensures NoReturn(Comments(head))
  {
    if head == [] {
    } else {
      CommentsNoReturn(head[1..]);
    }
  }

  lemma {:induction false} LinesNoReturn(rows: seq<seq<string>>)
    requires forall k :: 0 <= k < |rows| ==> RecordLine(rows[k])
    ensures NoReturn(Lines(rows))
  {
    if rows == [] {
    } else {
      LinesNoReturn(rows[..|rows| - 1]);
      assert RecordLine(rows[|rows| - 1]);
    }
  }

  lemma NoReturns(head: seq<string>, rows: seq<seq<string>>)
    requires forall k :: 0 <= k < |head| ==> NoBreak(head[k])
    requires forall k :: 0 <= k < |rows| ==> RecordLine(rows[k])
    ensures NoReturn(Comments(head) + Lines(rows))
  {
    CommentsNoReturn(head);
    LinesNoReturn(rows);
  }

  lemma HeadHasNoBreak(model: string, arm: string, revision: string, engine: string)
    requires NoBreak(model) && NoBreak(arm) && NoBreak(revision) && NoBreak(engine)
    ensures forall k :: 0 <= k < 6 ==> NoBreak(Head(model, arm, revision, engine)[k])
  {
    FixedHead();
    ScaleHasNoBreak(engine);
    LabelHasNoBreak(model, arm);
    hide Label, Revision, Scale, NoBreak;
    assert NoBreak(Revision(revision)) by { RevisionHasNoBreak(revision); }
    FieldHasNoBreak("model", Label(model, arm));
    FieldHasNoBreak("revision", Revision(revision));
    FieldHasNoBreak("dtype", "f16");
    FieldHasNoBreak("scores", Scale(engine));
    FieldHasNoBreak("engine", engine);
    var head := Head(model, arm, revision, engine);
    assert NoBreak(head[0]) && NoBreak(head[1]) && NoBreak(head[2]);
    assert NoBreak(head[3]) && NoBreak(head[4]) && NoBreak(head[5]);
  }

  lemma FieldHasNoBreak(key: string, value: string)
    requires NoBreak(key) && NoBreak(value)
    ensures NoBreak(key + "=" + value)
  {
  }

  lemma LabelHasNoBreak(model: string, arm: string)
    requires NoBreak(model) && NoBreak(arm)
    ensures NoBreak(Label(model, arm))
  {
    JoinedHasNoBreak(model, " [vLLM arm ");
    JoinedHasNoBreak(model + " [vLLM arm ", arm);
    JoinedHasNoBreak(model + " [vLLM arm " + arm, "]");
  }

  lemma RevisionHasNoBreak(revision: string)
    requires NoBreak(revision)
    ensures NoBreak(Revision(revision))
  {
  }

  lemma ScaleHasNoBreak(engine: string)
    ensures NoBreak(Scale(engine))
  {
    FixedScores();
    FixedLogprobs();
    hide NoBreak;
    JoinedHasNoBreak("logit  (logits", " bruts, comme bin/mmlu)");
    JoinedHasNoBreak("logprob  \U{26A0}\U{FE0F}", " colonnes logit_*");
    JoinedHasNoBreak("logprob  \U{26A0}\U{FE0F}" + " colonnes logit_*", " = LOGPROBS, pas des logits");
  }

  lemma JoinedHasNoBreak(a: string, b: string)
    requires NoBreak(a) && NoBreak(b)
    ensures NoBreak(a + b)
  {
  }

  lemma FixedHead()
    ensures NoBreak("llvq-mmlu-dump v1") && NoBreak("model") && NoBreak("revision") && NoBreak("dtype")
    ensures NoBreak("f16") && NoBreak("scores") && NoBreak("engine")
  {
  }

  lemma FixedScores()
    ensures NoBreak("logit  (logits") && NoBreak(" bruts, comme bin/mmlu)")
  {
  }

  lemma FixedLogprobs()
    ensures NoBreak("logprob  \U{26A0}\U{FE0F}") && NoBreak(" colonnes logit_*")
    ensures NoBreak(" = LOGPROBS, pas des logits")
  {
  }

  // ----- the header reads back -----

  lemma {:induction false} StripRightAfter(p: string, v: string)
    requires p != "" && !IsSpace(p[|p| - 1])
    ensures StripRight(p + v) == p + StripRight(v)
  {
    hide IsSpace;
    if v == "" {
      assert p + v == p;
    } else {
      assert (p + v)[..|p + v| - 1] == p + v[..|v| - 1];
      if IsSpace(v[|v| - 1]) {
        StripRightAfter(p, v[..|v| - 1]);
      }
    }
  }

  lemma {:induction false} StripRightCons(c: char, v: string)
    ensures StripRight([c] + v) == if StripRight(v) == "" && IsSpace(c) then "" else [c] + StripRight(v)
  {
    hide IsSpace;
    if v == "" {
      assert [c] + v == [c] && [c][..0] == "";
    } else {
      assert ([c] + v)[..|v|] == [c] + v[..|v| - 1];
      if IsSpace(v[|v| - 1]) {
        StripRightCons(c, v[..|v| - 1]);
      }
    }
  }

  lemma {:induction false} StripRightTwice(v: string)
    ensures StripRight(StripRight(v)) == StripRight(v)
  {
    hide IsSpace;
    if v == "" {
    } else if IsSpace(v[|v| - 1]) {
      StripRightTwice(v[..|v| - 1]);
    }
  }

  /** It does not matter which end is stripped first. */
  lemma {:induction false} StripsCommute(v: string)
    ensures StripLeft(StripRight(v)) == StripRight(StripLeft(v))
  {
    hide IsSpace;
    if v == "" {
    } else {
      var t := v[1..];
      assert v == [v[0]] + t;
      StripRightCons(v[0], t);
      StripsCommute(t);
      assert ([v[0]] + StripRight(t))[1..] == StripRight(t);
    }
  }

  lemma {:induction false} PartitionAt(k: string, v: string)
    requires '=' !in k
    ensures Partition(k + "=" + v) == (k, v)
  {
    var f := k + "=" + v;
    if k == "" {
      assert f[0] == '=' && f[1..] == v;
    } else {
      assert k[0] in k;
      assert f[1..] == k[1..] + "=" + v;
      PartitionAt(k[1..], v);
      assert k == [k[0]] + k[1..];
    }
  }

  /** A header key: a word without spaces or equals sign. */
  ghost predicate IsKey(k: string) {
    k != "" && '=' !in k && !IsSpace(k[0]) && !IsSpace(k[|k| - 1])
  }

  lemma LineBreakIsSpace(v: string)
    ensures StripRight(v + "\n") == StripRight(v)
    ensures IsSpace(' ') && !IsSpace('=')
  {
    assert (v + "\n")[..|v|] == v;
  }

  lemma StripFront(k: string, rest: string)
    requires IsKey(k)
    ensures StripLeft(" " + (k + rest)) == k + rest
  {
    assert (" " + (k + rest))[1..] == k + rest && (k + rest)[0] == k[0];
  }

  lemma StripBack(k: string, value: string)
    ensures StripRight(k + "=" + (value + "\n")) == k + "=" + StripRight(value)
  {
    hide IsSpace;
    LineBreakIsSpace(value);
    StripRightAfter(k + "=", value + "\n");
  }

  /** A field written as a comment line is set to its stripped value. */
  lemma FieldReads(k: string, value: string, head: map<string, string>)
    requires IsKey(k)
    ensures HeaderLine("# " + (k + "=" + value) + "\n", head) == head[k := Strip(value)]
  {
    hide IsKey, StripLeft, StripRight, Partition;
    var line := "# " + (k + "=" + value) + "\n";
    FieldShape(k, value);
    StripFront(k, "=" + (value + "\n"));
    assert k + ("=" + (value + "\n")) == k + "=" + (value + "\n");
    StripBack(k, value);
    KeyParts(k, StripRight(value));
    StripsCommute(value);
    StripRightTwice(StripLeft(value));
  }

  lemma FieldShape(k: string, value: string)
    ensures var line := "# " + (k + "=" + value) + "\n";
            line[1..] == " " + (k + ("=" + (value + "\n"))) && '=' in line
  {
    var line := "# " + (k + "=" + value) + "\n";
    assert line[2 + |k|] == '=';
  }

  lemma KeyParts(k: string, v: string)
    requires IsKey(k)
    ensures Partition(k + "=" + v) == (k, v) && Strip(k) == k
  {
    PartitionAt(k, v);
    NothingToStrip(k);
  }

  /** The header after a list of comment lines. */
  ghost function HeaderLines(head: seq<string>, h: map<string, string>): map<string, string> {
    if head == [] then h else HeaderLines(head[1..], HeaderLine("# " + head[0] + "\n", h))
  }

  lemma HeaderStep(l: string, rest: string, h: map<string, string>)
    requires NoBreak(l)
    ensures Header(l + "\n" + rest, h) ==
            Header(rest, if l != "" && l[0] == '#' then HeaderLine(l + "\n", h) else h)
  {
    hide HeaderLine;
    var s := l + "\n" + rest;
    FirstLineOf(l, rest);
    assert s[..|l| + 1] == l + "\n" && s[|l| + 1..] == rest;
    assert s[0] == if l == "" then '\n' else l[0];
  }

  lemma {:induction false} CommentsSet(head: seq<string>, rest: string, h: map<string, string>)
    requires forall k :: 0 <= k < |head| ==> NoBreak(head[k])
    ensures Header(Comments(head) + rest, h) == Header(rest, HeaderLines(head, h))
  {
    hide HeaderLine, Header;
    if head == [] {
      assert Comments(head) + rest == rest;
    } else {
      var l := "# " + head[0];
      assert NoBreak(l);
      assert Comments(head) + rest == l + "\n" + (Comments(head[1..]) + rest);
      HeaderStep(l, Comments(head[1..]) + rest, h);
      CommentsSet(head[1..], rest, HeaderLine(l + "\n", h));
    }
  }

  lemma {:induction false} RowsSetNothing(rows: seq<seq<string>>, rest: string, h: map<string, string>)
    requires forall k :: 0 <= k < |rows| ==> RecordLine(rows[k])
    ensures Header(Lines(rows) + rest, h) == Header(rest, h)
  {
    if rows == [] {
      assert Lines(rows) + rest == rest;
    } else {
      hide Join, NoBreak, Header;
      var n := |rows| - 1;
      var l := Join(rows[n]);
      assert RecordLine(rows[n]);
      RowsSetNothing(rows[..n], l + "\n" + rest, h);
      HeaderStep(l, rest, h);
      Regroup(Lines(rows[..n]), l + "\n", rest);
    }
  }

  /** What the reader finds in the comment lines: every field as written, stripped. */
  function HeaderFields(model: string, arm: string, revision: string, engine: string): map<string, string> {
    map["model" := Strip(Label(model, arm)), "revision" := Strip(Revision(revision)), "dtype" := Strip("f16"),
        "scores" := Strip(Scale(engine)), "engine" := Strip(engine)]
  }

  lemma KeysAreKeys()
    ensures IsKey("model") && IsKey("revision") && IsKey("dtype") && IsKey("scores") && IsKey("engine")
  {
  }

  lemma TitleSetsNothing(h: map<string, string>)
    ensures HeaderLine("# " + "llvq-mmlu-dump v1" + "\n", h) == h
  {
  }

  lemma HeadSets(model: string, arm: string, revision: string, engine: string)
    ensures HeaderLines(Head(model, arm, revision, engine), map[]) == HeaderFields(model, arm, revision, engine)
  {
    hide HeaderLine, Strip, Label, Revision, Scale, IsKey;
    KeysAreKeys();
    TitleSetsNothing(map[]);
    var head := Head(model, arm, revision, engine);
    var h1: map<string, string> := map["model" := Strip(Label(model, arm))];
    var h2 := h1["revision" := Strip(Revision(revision))];
    var h3 := h2["dtype" := Strip("f16")];
    var h4 := h3["scores" := Strip(Scale(engine))];
    FieldReads("model", Label(model, arm), map[]);
    FieldReads("revision", Revision(revision), h1);
    FieldReads("dtype", "f16", h2);
    FieldReads("scores", Scale(engine), h3);
    FieldReads("engine", engine, h4);
    LinesUnfold(head, map[]);
    LinesUnfold(head[1..], map[]);
    LinesUnfold(head[2..], h1);
    LinesUnfold(head[3..], h2);
    LinesUnfold(head[4..], h3);
    LinesUnfold(head[5..], h4);
  }

  lemma LinesUnfold(head: seq<string>, h: map<string, string>)
    ensures head == [] ==> HeaderLines(head, h) == h
    ensures head != [] ==> HeaderLines(head, h) == HeaderLines(head[1..], HeaderLine("# " + head[0] + "\n", h))
  {
  }

  /** The header of a dump is the header it was written with. */
  lemma DumpHeader(model: string, arm: string, revision: string, engine: string,
                   wanted: seq<Question>, items: seq<Scored>, populations: Populations, f6: real -> string)
    requires WellFormed(Head(model, arm, revision, engine), wanted, items, f6)
    ensures var head := Head(model, arm, revision, engine);
            var text := Comments(head) + Lines([COLUMNS] + Rows(wanted, items, populations, f6));
            Header(UniversalNewlines(text), map[]) == HeaderFields(model, arm, revision, engine)
  {
    var head := Head(model, arm, revision, engine);
    var rows := [COLUMNS] + Rows(wanted, items, populations, f6);
    DumpRows(head, wanted, items, populations, f6);
    hide AllPlain, Plain, Lines, NoBreak, Rows, Comments, RecordLine, UniversalNewlines, WellFormed, Head, HeaderLines;
    HeadIsPlain(head, wanted, items, f6);
    NoReturns(head, rows);
    NewlinesStay(Comments(head) + Lines(rows));
    CommentsSet(head, Lines(rows), map[]);
    HeadSets(model, arm, revision, engine);
    var h := HeaderFields(model, arm, revision, engine);
    RowsSetNothing(rows, "", h);
    assert Lines(rows) + "" == Lines(rows);
    EmptyHeader(h);
  }

  lemma EmptyHeader(h: map<string, string>)
    ensures Header("", h) == h
  {
  }

  /** Reading back what was written gives the same questions in the same order, and the header; an empty dump
      is refused. */
  method RoundTrip(model: string, arm: string, revision: string, engine: string,
                   wanted: seq<Question>, items: seq<Scored>, populations: Populations, f6: real -> string)
    returns (r: Option<(seq<Question>, map<string, string>)>)
    requires NoBreak(model) && NoBreak(arm) && NoBreak(revision) && NoBreak(engine)
    requires |wanted| == |items| && AllScored(items)
    requires forall k :: 0 <= k < |wanted| ==> GoodSubject(wanted[k].subject)
    requires forall v :: Plain(f6(v))
    ensures r == if wanted == [] then None else Some((wanted, HeaderFields(model, arm, revision, engine)))
  {
    hide Head, HeaderFields, Header, Body, Records, UniversalNewlines, Comments, Lines, NoBreak, Taken;
    var text, right, total, averages := EmitDump(model, arm, revision, engine, wanted, items, populations, f6);
    HeadHasNoBreak(model, arm, revision, engine);
    DumpRecords(Head(model, arm, revision, engine), wanted, items, populations, f6);
    DumpHeader(model, arm, revision, engine, wanted, items, populations, f6);
    var rows := Rows(wanted, items, populations, f6);
    assert ([COLUMNS] + rows)[1..] == rows;
    RowsReadBack(wanted, items, populations, f6);
    r := ReadReferenceDump(text);
  }
}
