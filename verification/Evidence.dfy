/** Looking for a recorded number in the log that printed it (ops/manifest.py): grouped printing, the
    rule that undoes the grouping, and the presence check.

    `isDigit` is the `\d` of the regular expression: the ASCII digits and possibly other characters,
    but not the three separators nor the ASCII minus. */
module Evidence {
  import opened Basics
  import opened Numerals

  ghost predicate DigitClass(isDigit: char -> bool) {
    && (forall c :: '0' <= c <= '9' ==> isDigit(c))
    && !isDigit(' ') && !isDigit('\U{00A0}') && !isDigit('\U{202F}') && !isDigit('-')
  }

  // ----- printing -----

  function Replace(s: string, old_: char, new_: char): (r: string)
    ensures |r| == |s|
    ensures forall i :: 0 <= i < |s| ==> r[i] == if s[i] == old_ then new_ else s[i]
  {
    seq(|s|, i requires 0 <= i < |s| => if s[i] == old_ then new_ else s[i])
  }

  lemma ReplaceConcat(a: string, b: string, old_: char, new_: char)
    ensures Replace(a + b, old_, new_) == Replace(a, old_, new_) + Replace(b, old_, new_)
  {
  }

  lemma ReplaceAbsent(s: string, old_: char, new_: char)
    requires old_ !in s
    ensures Replace(s, old_, new_) == s
  {
  }

  lemma ReplaceBack(s: string, c: char, d: char)
    requires d !in s
    ensures Replace(Replace(s, c, d), d, c) == s
  {
  }

  /** Groups of three from the right, as the `,` format does. */
  function Group(ds: string, sep: char): string {
    if |ds| <= 3 then ds else Group(ds[..|ds| - 3], sep) + [sep] + ds[|ds| - 3..]
  }

  /** `f"{n:,}".replace(",", " ")` */
  function Thousands(n: int): string {
    Replace(if n < 0 then "-" + Group(Numeral(-n, 10), ',') else Group(Numeral(n, 10), ','), ',', ' ')
  }

  /** A number as recorded: an int, or the repr of a float. */
  datatype Number = Int(n: int) | Float(repr: string)

  function FmtValue(v: Number): string {
    match v
    case Int(n) => Str(n)
    case Float(repr) => repr
  }

  // ----- the grouping rule -----

  predicate IsSeparator(c: char) {
    c == ' ' || c == '\U{00A0}' || c == '\U{202F}'
  }

  /** `(?<=\d)[ \u00a0\u202f](?=\d{3}(?!\d))` matches at i. */
  predicate Grouping(s: string, i: nat, isDigit: char -> bool)
    requires i < |s|
  {
    && IsSeparator(s[i])
    && i > 0 && isDigit(s[i - 1])
    && i + 3 < |s| && isDigit(s[i + 1]) && isDigit(s[i + 2]) && isDigit(s[i + 3])
    && !(i + 4 < |s| && isDigit(s[i + 4]))
  }

  /** What the substitution keeps of s[lo..hi]. */
  function Kept(s: string, lo: nat, hi: nat, isDigit: char -> bool): string
    requires lo <= hi <= |s|
    decreases hi
  {
    if lo == hi then ""
    else Kept(s, lo, hi - 1, isDigit) + if Grouping(s, hi - 1, isDigit) then "" else [s[hi - 1]]
  }

  function Ungroup(s: string, isDigit: char -> bool): string {
    Kept(s, 0, |s|, isDigit)
  }

  lemma {:induction false} KeptSplit(s: string, a: nat, b: nat, c: nat, isDigit: char -> bool)
    requires a <= b <= c <= |s|
    ensures Kept(s, a, c, isDigit) == Kept(s, a, b, isDigit) + Kept(s, b, c, isDigit)
    decreases c
  {
    if b >= c {
    } else {
      KeptSplit(s, a, b, c - 1, isDigit);
    }
  }

  /** Characters that are no separator are all kept. */
  lemma {:induction false} KeptWhole(s: string, a: nat, b: nat, isDigit: char -> bool)
    requires a <= b <= |s|
    requires forall i :: a <= i < b ==> !IsSeparator(s[i])
    ensures Kept(s, a, b, isDigit) == s[a..b]
    decreases b
  {
    if a >= b {
    } else {
      KeptWhole(s, a, b - 1, isDigit);
      assert s[a..b] == s[a..b - 1] + [s[b - 1]];
    }
  }

  // ----- the rule undoes the printing -----

  lemma {:induction false} GroupEnds(ds: string, sep: char)
    requires ds != "" && PlainDigits(ds)
    ensures Group(ds, sep) != "" && '0' <= Group(ds, sep)[|Group(ds, sep)| - 1] <= '9'
    decreases |ds|
  {
  }

  /** `g` stands at a, whatever follows. */
  ghost predicate Printed(s: string, a: nat, g: string) {
    a + |g| <= |s| && s[a..a + |g|] == g
  }

  /** `g` stands at a, with no digit after it. */
  ghost predicate Stands(s: string, a: nat, g: string, isDigit: char -> bool) {
    Printed(s, a, g) && (a + |g| < |s| ==> !isDigit(s[a + |g|]))
  }

  /** Wherever grouped digits stand with no digit after them, exactly their separators go. */
  lemma {:induction false} GroupIsUndone(s: string, a: nat, ds: string, sep: char, isDigit: char -> bool)
    requires DigitClass(isDigit) && IsSeparator(sep) && ds != "" && PlainDigits(ds)
    requires Stands(s, a, Group(ds, sep), isDigit)
    ensures Kept(s, a, a + |Group(ds, sep)|, isDigit) == ds
    decreases |ds|
  {
    hide Kept, DigitClass, PlainDigits, Group, Stands, Printed, Grouping, IsSeparator;
    StandsIsPrinted(s, a, Group(ds, sep), isDigit);
    if |ds| <= 3 {
      ShortGroupIsKept(s, a, ds, sep, isDigit);
    } else {
      var h, t := LastGroup(s, a, ds, sep, isDigit);
      GroupIsUndone(s, a, h, sep, isDigit);
      SeparatorDropped(s, a, a + |Group(h, sep)|, a + |Group(ds, sep)|, h, t, isDigit);
    }
  }

  lemma StandsIsPrinted(s: string, a: nat, g: string, isDigit: char -> bool)
    requires Stands(s, a, g, isDigit)
    ensures Printed(s, a, g)
  {
  }

  lemma SeparatorDropped(s: string, a: nat, e: nat, z: nat, h: string, t: string, isDigit: char -> bool)
    requires a <= e < z <= |s|
    requires Kept(s, a, e, isDigit) == h && Kept(s, e, e + 1, isDigit) == "" && Kept(s, e + 1, z, isDigit) == t
    ensures Kept(s, a, z, isDigit) == h + t
  {
    hide Kept;
    KeptThree(s, a, e, z, isDigit);
    assert h + "" + t == h + t;
  }

  lemma KeptThree(s: string, a: nat, e: nat, z: nat, isDigit: char -> bool)
    requires a <= e < z <= |s|
    ensures Kept(s, a, z, isDigit) == Kept(s, a, e, isDigit) + Kept(s, e, e + 1, isDigit) + Kept(s, e + 1, z, isDigit)
  {
    hide Kept;
    KeptSplit(s, a, e, e + 1, isDigit);
    KeptSplit(s, a, e + 1, z, isDigit);
  }

  lemma ShortGroupIsKept(s: string, a: nat, ds: string, sep: char, isDigit: char -> bool)
    requires |ds| <= 3 && PlainDigits(ds) && Printed(s, a, Group(ds, sep))
    ensures Group(ds, sep) == ds && Kept(s, a, a + |ds|, isDigit) == ds
  {
    hide Kept, Grouping;
    DigitsAreKept(s, a, a + |ds|, isDigit);
  }

  lemma PlainParts(ds: string, sep: char)
    requires |ds| > 3 && PlainDigits(ds)
    ensures PlainDigits(ds[..|ds| - 3]) && PlainDigits(ds[|ds| - 3..])
    ensures Group(ds, sep) == Group(ds[..|ds| - 3], sep) + [sep] + ds[|ds| - 3..]
  {
  }

  lemma DigitsAreKept(s: string, a: nat, z: nat, isDigit: char -> bool)
    requires a <= z <= |s| && PlainDigits(s[a..z])
    ensures Kept(s, a, z, isDigit) == s[a..z]
  {
    forall i | a <= i < z ensures !IsSeparator(s[i]) {
      assert s[i] == s[a..z][i - a];
    }
    KeptWhole(s, a, z, isDigit);
  }

  /** The separator before the last group matches the rule. */
  lemma LastGroup(s: string, a: nat, ds: string, sep: char, isDigit: char -> bool)
    returns (h: string, t: string)
    requires DigitClass(isDigit) && IsSeparator(sep) && |ds| > 3 && PlainDigits(ds)
    requires Stands(s, a, Group(ds, sep), isDigit)
    ensures ds == h + t && h != "" && |h| < |ds| && PlainDigits(h) && Stands(s, a, Group(h, sep), isDigit)
    ensures var e, z := a + |Group(h, sep)|, a + |Group(ds, sep)|;
            e < z <= |s| && Kept(s, e, e + 1, isDigit) == "" && Kept(s, e + 1, z, isDigit) == t
  {
    hide Group, Kept, DigitClass, PlainDigits;
    h, t := ds[..|ds| - 3], ds[|ds| - 3..];
    var g := Group(h, sep);
    PlainParts(ds, sep);
    GroupEnds(h, sep);
    Cut(s, a, g, sep, t);
    SeparatorIsNoDigit(sep, isDigit);
    SeparatorGoes(s, a, g, t, isDigit);
    DigitsAreKept(s, a + |g| + 1, a + |g| + 4, isDigit);
  }

  lemma SeparatorIsNoDigit(sep: char, isDigit: char -> bool)
    requires DigitClass(isDigit) && IsSeparator(sep)
    ensures !isDigit(sep)
  {
  }

  lemma SeparatorGoes(s: string, a: nat, h: string, t: string, isDigit: char -> bool)
    requires DigitClass(isDigit) && h != "" && '0' <= h[|h| - 1] <= '9' && |t| == 3 && PlainDigits(t)
    requires a + |h| + 4 <= |s| && s[a..a + |h|] == h && IsSeparator(s[a + |h|])
    requires s[a + |h| + 1..a + |h| + 4] == t
    requires a + |h| + 4 < |s| ==> !isDigit(s[a + |h| + 4])
    ensures Kept(s, a + |h|, a + |h| + 1, isDigit) == ""
  {
    var e := a + |h|;
    assert s[e - 1] == s[a..e][|h| - 1];
    assert s[e + 1] == t[0] && s[e + 2] == t[1] && s[e + 3] == t[2];
    assert Grouping(s, e, isDigit);
    assert Kept(s, e, e, isDigit) == "";
  }

  lemma Cut(s: string, a: nat, h: string, c: char, t: string)
    requires a + |h| + 1 + |t| <= |s| && s[a..a + |h| + 1 + |t|] == h + [c] + t
    ensures s[a..a + |h|] == h && s[a + |h|] == c && s[a + |h| + 1..a + |h| + 1 + |t|] == t
  {
    var e, z := a + |h|, a + |h| + 1 + |t|;
    assert s[a..z][..|h|] == s[a..e] && s[a..z][|h|] == s[e] && s[a..z][|h| + 1..] == s[e + 1..z];
    assert (h + [c] + t)[..|h|] == h && (h + [c] + t)[|h| + 1..] == t;
  }

  // ----- the presence check -----

  predicate Contains(hay: string, needle: string) {
    exists i :: 0 <= i <= |hay| && Occurs(hay, needle, i)
  }

  predicate Occurs(hay: string, needle: string, i: nat)
    requires i <= |hay|
  {
    needle <= hay[i..]
  }

  function Needles(v: Number): seq<string> {
    var canon := FmtValue(v);
    [canon] + if '.' in canon then [Replace(canon, '.', ',')] else []
  }

  /** U+2212 is read as the ASCII minus. */
  function Normalize(text: string): string {
    Replace(text, '\U{2212}', '-')
  }

  ghost predicate Evidenced(text: string, needle: string, isDigit: char -> bool) {
    Contains(Normalize(text), needle) || Contains(Ungroup(Normalize(text), isDigit), needle)
  }

  /** The first spelling of `v` found in the text, plain or ungrouped; None when there is none. */
  method ValueEvidence(text: string, v: Number, isDigit: char -> bool) returns (r: Option<string>)
    ensures r.None? <==> forall k :: 0 <= k < |Needles(v)| ==> !Evidenced(text, Needles(v)[k], isDigit)
    ensures r.Some? ==>
              (exists k ::
                && 0 <= k < |Needles(v)| && r.value == Needles(v)[k] && Evidenced(text, r.value, isDigit)
                && forall j :: 0 <= j < k ==> !Evidenced(text, Needles(v)[j], isDigit))
  {
    var needles := Needles(v);
    var normalized := Normalize(text);
    var haystacks := [normalized, Ungroup(normalized, isDigit)];
    for k := 0 to |needles|
      invariant forall j :: 0 <= j < k ==> !Evidenced(text, needles[j], isDigit)
    {
      for h := 0 to |haystacks|
        invariant forall j :: 0 <= j < h ==> !Contains(haystacks[j], needles[k])
      {
        if Contains(haystacks[h], needles[k]) {
          assert h == 0 || h == 1;
          assert Evidenced(text, needles[k], isDigit);
          return Some(needles[k]);
        }
      }
      assert !Contains(haystacks[0], needles[k]) && !Contains(haystacks[1], needles[k]);
    }
    return None;
  }

  lemma Found(hay: string, before: string, needle: string, after: string)
    requires hay == before + needle + after
    ensures Contains(hay, needle)
  {
    assert hay[|before|..] == needle + after;
    assert Occurs(hay, needle, |before|);
  }

  lemma {:induction false} GroupReplaced(ds: string)
    requires PlainDigits(ds)
    ensures Replace(Group(ds, ','), ',', ' ') == Group(ds, ' ')
    decreases |ds|
  {
    if |ds| <= 3 {
      assert Replace(ds, ',', ' ') == ds;
    } else {
      var h, t := ds[..|ds| - 3], ds[|ds| - 3..];
      GroupReplaced(h);
      assert Replace(Group(h, ',') + [','] + t, ',', ' ') == Replace(Group(h, ','), ',', ' ') + [' '] + t;
    }
  }

  lemma {:induction false} GroupCharacters(ds: string, sep: char)
    requires PlainDigits(ds)
    ensures forall i :: 0 <= i < |Group(ds, sep)| ==> '0' <= Group(ds, sep)[i] <= '9' || Group(ds, sep)[i] == sep
    decreases |ds|
  {
    if |ds| <= 3 {
    } else {
      GroupCharacters(ds[..|ds| - 3], sep);
    }
  }

  /** A sign, if any, then the grouped digits. */
  lemma ThousandsShape(n: int) returns (sign: string, ds: string)
    ensures Thousands(n) == sign + Group(ds, ' ') && Str(n) == sign + ds
    ensures ds == Numeral(if n < 0 then -n else n, 10) && sign == if n < 0 then "-" else ""
    ensures ds != "" && PlainDigits(ds)
    ensures Normalize(Thousands(n)) == Thousands(n)
  {
    var m: nat := if n < 0 then -n else n;
    sign, ds := if n < 0 then "-" else "", Numeral(m, 10);
    NumeralIsPlain(m, 10);
    GroupReplaced(ds);
    GroupCharacters(ds, ' ');
    hide Replace, Numeral, Group;
    ReplaceConcat(sign, Group(ds, ','), ',', ' ');
    ReplaceAbsent(sign, ',', ' ');
    assert "" + Group(ds, ',') == Group(ds, ',') && "" + ds == ds;
    ReplaceAbsent(Thousands(n), '\U{2212}', '-');
  }

  /** In any surrounding text, ungrouping restores the plain digits of a number grouped by any separator,
      with its sign in front and what follows its digits behind. */
  lemma UngroupRestores(before: string, sign: string, ds: string, sep: char, tail: string, after: string,
                        isDigit: char -> bool) returns (kept: string, rest: string)
    requires DigitClass(isDigit) && IsSeparator(sep) && ds != "" && PlainDigits(ds)
    requires (sign == "" || sign == "-") && forall i :: 0 <= i < |tail| ==> !IsSeparator(tail[i])
    requires tail + after != "" ==> !isDigit((tail + after)[0])
    ensures Ungroup(before + sign + Group(ds, sep) + tail + after, isDigit) == kept + (sign + ds + tail) + rest
  {
    var g := Group(ds, sep);
    var s := before + sign + g + tail + after;
    var a := |before| + |sign|;
    var z := a + |g|;
    var e := z + |tail|;
    hide Group, Kept, DigitClass, PlainDigits, IsSeparator;
    assert s == before + sign + g + (tail + after);
    Segments(before, sign, g, tail + after);
    GroupIsUndone(s, a, ds, sep, isDigit);
    SignIsKept(s, |before|, a, isDigit);
    assert s[z..e] == tail;
    assert forall i :: z <= i < e ==> s[i] == tail[i - z];
    KeptWhole(s, z, e, isDigit);
    KeptSplit(s, |before|, z, e, isDigit);
    KeptAround(s, |before|, a, z, isDigit);
    KeptSplit(s, z, e, |s|, isDigit);
    kept, rest := Kept(s, 0, |before|, isDigit), Kept(s, e, |s|, isDigit);
    Gathered(kept, sign, ds, tail, rest);
  }

  lemma Gathered(kept: string, sign: string, ds: string, tail: string, rest: string)
    ensures kept + (sign + ds) + (tail + rest) == kept + (sign + ds + tail) + rest
  {
  }

  lemma SignIsKept(s: string, p: nat, a: nat, isDigit: char -> bool)
    requires p <= a <= |s| && (s[p..a] == "" || s[p..a] == "-")
    ensures Kept(s, p, a, isDigit) == s[p..a]
  {
    forall i | p <= i < a ensures !IsSeparator(s[i]) {
      assert s[i] == s[p..a][i - p];
    }
    KeptWhole(s, p, a, isDigit);
  }

  lemma Segments(p: string, q: string, r: string, t: string)
    ensures var s, a := p + q + r + t, |p| + |q|;
            && s[|p|..a] == q && s[a..a + |r|] == r
            && (a + |r| < |s| ==> t != "" && s[a + |r|] == t[0])
  {
  }

  lemma KeptAround(s: string, p: nat, a: nat, z: nat, isDigit: char -> bool)
    requires p <= a <= z <= |s|
    ensures Ungroup(s, isDigit) ==
            Kept(s, 0, p, isDigit) + (Kept(s, p, a, isDigit) + Kept(s, a, z, isDigit)) + Kept(s, z, |s|, isDigit)
  {
    hide Kept;
    KeptSplit(s, 0, p, |s|, isDigit);
    KeptSplit(s, p, a, |s|, isDigit);
    KeptSplit(s, a, z, |s|, isDigit);
  }

  /** A number grouped by any of the three separators is found, whatever text surrounds it, when no digit follows
      its grouped part: as an integer with an empty tail, or with a decimal mark and the decimals. */
  lemma GroupedNumberIsFound(before: string, sign: string, ds: string, sep: char, tail: string, after: string,
                             isDigit: char -> bool)
    requires DigitClass(isDigit) && IsSeparator(sep) && ds != "" && PlainDigits(ds)
    requires (sign == "" || sign == "-") && forall i :: 0 <= i < |tail| ==> !IsSeparator(tail[i])
    requires '\U{2212}' !in tail && (tail + after != "" ==> !isDigit((tail + after)[0]))
    ensures Evidenced(before + sign + Group(ds, sep) + tail + after, sign + ds + tail, isDigit)
  {
    hide Replace, Ungroup, Contains, Group, DigitClass, PlainDigits, IsSeparator;
    var g := Group(ds, sep);
    var printed := sign + g + tail;
    PrintedIsNormal(sign, ds, sep, tail);
    NormalizeAround(before, printed, after);
    NormalStart(tail, after, isDigit);
    var b, c := Normalize(before), Normalize(after);
    Bracket(before, sign, g, tail, after);
    Bracket(b, sign, g, tail, c);
    var kept, rest := UngroupRestores(b, sign, ds, sep, tail, c, isDigit);
    Found(Ungroup(b + printed + c, isDigit), kept, sign + ds + tail, rest);
  }

  lemma Bracket(p: string, q: string, r: string, t: string, u: string)
    ensures p + q + r + t + u == p + (q + r + t) + u
  {
  }

  lemma PrintedIsNormal(sign: string, ds: string, sep: char, tail: string)
    requires IsSeparator(sep) && PlainDigits(ds) && (sign == "" || sign == "-") && '\U{2212}' !in tail
    ensures Normalize(sign + Group(ds, sep) + tail) == sign + Group(ds, sep) + tail
  {
    GroupCharacters(ds, sep);
    hide Group;
    var s := sign + Group(ds, sep) + tail;
    forall i | 0 <= i < |s| ensures s[i] != '\U{2212}' {
      if i >= |sign| + |Group(ds, sep)| {
        assert s[i] == tail[i - |sign| - |Group(ds, sep)|];
        assert s[i] in tail;
      }
    }
    ReplaceAbsent(s, '\U{2212}', '-');
  }

  lemma NormalStart(tail: string, after: string, isDigit: char -> bool)
    requires DigitClass(isDigit) && (tail + after != "" ==> !isDigit((tail + after)[0]))
    ensures tail + Normalize(after) != "" ==> !isDigit((tail + Normalize(after))[0])
  {
    if tail == "" {
      assert tail + after == after && tail + Normalize(after) == Normalize(after);
    } else {
      assert (tail + after)[0] == tail[0] == (tail + Normalize(after))[0];
    }
  }

  /** An integer printed by `Thousands` is found, whatever text surrounds it, when no digit follows. */
  lemma GroupedIntegerIsFound(before: string, n: int, after: string, isDigit: char -> bool)
    requires DigitClass(isDigit) && (after != "" ==> !isDigit(after[0]))
    ensures Evidenced(before + Thousands(n) + after, Str(n), isDigit)
    ensures Needles(Int(n))[0] == Str(n)
  {
    hide Thousands, Evidenced, DigitClass, Str;
    var sign, ds := ThousandsShape(n);
    assert "" + after == after && sign + ds + "" == sign + ds;
    assert before + sign + Group(ds, ' ') + "" + after == before + Thousands(n) + after;
    GroupedNumberIsFound(before, sign, ds, ' ', "", after, isDigit);
  }

  /** A float is found in a log that groups its digits and writes a decimal comma or point; the comma's needle
      is one of those that are looked for. */
  lemma GroupedDecimalIsFound(before: string, sign: string, ds: string, sep: char, decimals: string, after: string,
                              isDigit: char -> bool)
    requires DigitClass(isDigit) && IsSeparator(sep) && !isDigit('.') && !isDigit(',')
    requires ds != "" && PlainDigits(ds) && PlainDigits(decimals) && (sign == "" || sign == "-")
    ensures var needles := Needles(Float(sign + ds + "." + decimals));
            && needles == [sign + ds + "." + decimals, sign + ds + "," + decimals]
            && Evidenced(before + sign + Group(ds, sep) + ("." + decimals) + after, needles[0], isDigit)
            && Evidenced(before + sign + Group(ds, sep) + ("," + decimals) + after, needles[1], isDigit)
  {
    hide Evidenced, DigitClass, Group, Replace;
    DecimalNeedles(sign, ds, decimals);
    assert sign + ds + ("." + decimals) == sign + ds + "." + decimals;
    assert sign + ds + ("," + decimals) == sign + ds + "," + decimals;
    GroupedNumberIsFound(before, sign, ds, sep, "." + decimals, after, isDigit);
    GroupedNumberIsFound(before, sign, ds, sep, "," + decimals, after, isDigit);
  }

  lemma DecimalNeedles(sign: string, ds: string, decimals: string)
    requires PlainDigits(ds) && PlainDigits(decimals) && (sign == "" || sign == "-")
    ensures Needles(Float(sign + ds + "." + decimals)) == [sign + ds + "." + decimals, sign + ds + "," + decimals]
  {
    var f := sign + ds + "." + decimals;
    assert f[|sign| + |ds|] == '.';
    assert Replace(f, '.', ',') == sign + ds + "," + decimals;
  }

  lemma NormalizeAround(before: string, s: string, after: string)
    ensures Normalize(before + s + after) == Normalize(before) + Normalize(s) + Normalize(after)
  {
    ReplaceConcat(before + s, after, '\U{2212}', '-');
    ReplaceConcat(before, s, '\U{2212}', '-');
  }

  /** A number printed as recorded, or with a decimal comma, or with U+2212 for its minus, is found. */
  lemma PlainNumberIsFound(before: string, v: Number, after: string, isDigit: char -> bool)
    requires '\U{2212}' !in FmtValue(v)
    ensures Evidenced(before + FmtValue(v) + after, FmtValue(v), isDigit)
    ensures Evidenced(before + Replace(FmtValue(v), '-', '\U{2212}') + after, FmtValue(v), isDigit)
    ensures Evidenced(before + Replace(FmtValue(v), '.', ',') + after, Replace(FmtValue(v), '.', ','), isDigit)
    ensures FmtValue(v) in Needles(v) && ('.' in FmtValue(v) ==> Replace(FmtValue(v), '.', ',') in Needles(v))
  {
    hide Replace, Contains, Ungroup;
    var f := FmtValue(v);
    assert Needles(v)[0] == f && ('.' in f ==> Needles(v)[1] == Replace(f, '.', ','));
    ReplaceAbsent(f, '\U{2212}', '-');
    FoundPlain(before, f, f, after, isDigit);
    ReplaceBack(f, '-', '\U{2212}');
    FoundPlain(before, Replace(f, '-', '\U{2212}'), f, after, isDigit);
    CommaIsPlain(f);
    FoundPlain(before, Replace(f, '.', ','), Replace(f, '.', ','), after, isDigit);
  }

  lemma CommaIsPlain(f: string)
    requires '\U{2212}' !in f
    ensures Normalize(Replace(f, '.', ',')) == Replace(f, '.', ',')
  {
  }

  lemma FoundPlain(before: string, printed: string, needle: string, after: string, isDigit: char -> bool)
    requires Normalize(printed) == needle
    ensures Evidenced(before + printed + after, needle, isDigit)
  {
    hide Replace, Contains;
    NormalizeAround(before, printed, after);
    Found(Normalize(before + printed + after), Normalize(before), needle, Normalize(after));
  }

  // ----- nothing is invented -----

  lemma {:induction false} KeptGrows(s: string, a: nat, b: nat, c: nat, isDigit: char -> bool)
    requires a <= b <= c <= |s|
    ensures Kept(s, a, b, isDigit) <= Kept(s, a, c, isDigit)
    ensures |Kept(s, a, c, isDigit)| <= |Kept(s, a, b, isDigit)| + (c - b)
    decreases c
  {
    if b == c {
    } else {
      KeptGrows(s, a, b, c - 1, isDigit);
    }
  }

  /** A prefix of the ungrouped text comes from a prefix of the text. */
  lemma {:induction false} KeptPrefix(s: string, z: nat, n: nat, isDigit: char -> bool) returns (a: nat)
    requires z <= |s| && n <= |Kept(s, 0, z, isDigit)|
    ensures a <= z && |Kept(s, 0, a, isDigit)| == n
  {
    if n == |Kept(s, 0, z, isDigit)| {
      a := z;
    } else {
      a := KeptPrefix(s, z - 1, n, isDigit);
    }
  }

  /** Between a and b only separators before exactly three digits are missing. */
  ghost predicate OnlyGroupingGone(s: string, a: nat, b: nat, isDigit: char -> bool)
    requires a <= b <= |s|
  {
    forall i :: a <= i < b ==> (Kept(s, i, i + 1, isDigit) == if Grouping(s, i, isDigit) then "" else [s[i]])
  }

  ghost predicate ReadsAs(s: string, a: nat, b: nat, needle: string, isDigit: char -> bool) {
    a <= b <= |s| && Kept(s, a, b, isDigit) == needle && OnlyGroupingGone(s, a, b, isDigit)
  }

  /** Whatever is found in the ungrouped text stands in the text, with nothing left out inside but separators
      before exactly three digits, and whatever stands so is found: `4096 12` never reads as 409612. */
  lemma NothingIsInvented(s: string, needle: string, isDigit: char -> bool)
    ensures Contains(Ungroup(s, isDigit), needle) <==> exists a: nat, b: nat :: ReadsAs(s, a, b, needle, isDigit)
  {
    hide Kept;
    var u := Ungroup(s, isDigit);
    if Contains(u, needle) {
      var i :| 0 <= i <= |u| && Occurs(u, needle, i);
      var b := KeptPrefix(s, |s|, i + |needle|, isDigit);
      KeptGrows(s, 0, b, |s|, isDigit);
      var a := KeptPrefix(s, b, i, isDigit);
      KeptSplit(s, 0, a, b, isDigit);
      KeptSplit(s, 0, b, |s|, isDigit);
      Window(u, needle, i, Kept(s, 0, a, isDigit), Kept(s, a, b, isDigit), Kept(s, b, |s|, isDigit));
      EachKept(s, a, b, isDigit);
      assert ReadsAs(s, a, b, needle, isDigit);
    }
    if a: nat, b: nat :| ReadsAs(s, a, b, needle, isDigit) {
      KeptSplit(s, 0, a, b, isDigit);
      KeptSplit(s, 0, b, |s|, isDigit);
      Found(u, Kept(s, 0, a, isDigit), needle, Kept(s, b, |s|, isDigit));
    }
  }

  lemma EachKept(s: string, a: nat, b: nat, isDigit: char -> bool)
    requires a <= b <= |s|
    ensures OnlyGroupingGone(s, a, b, isDigit)
  {
    forall i | a <= i < b
      ensures Kept(s, i, i + 1, isDigit) == if Grouping(s, i, isDigit) then "" else [s[i]]
    {
      assert Kept(s, i, i, isDigit) == "";
    }
  }

  lemma Window(u: string, needle: string, i: nat, before: string, middle: string, after: string)
    requires u == before + middle + after && |before| == i && |middle| == |needle|
    requires i <= |u| && Occurs(u, needle, i)
    ensures middle == needle
  {
    assert u[i..] == middle + after;
    assert needle == u[i..][..|needle|];
  }

  // ----- a digit right after a grouped number -----

  /** Grouped digits are undone in place exactly when they have no separator or no digit follows them. */
  lemma GroupIsUndoneIff(s: string, a: nat, ds: string, sep: char, isDigit: char -> bool)
    requires DigitClass(isDigit) && IsSeparator(sep) && ds != "" && PlainDigits(ds)
    requires Printed(s, a, Group(ds, sep))
    ensures var z := a + |Group(ds, sep)|;
            Kept(s, a, z, isDigit) == ds <==> |ds| <= 3 || z == |s| || !isDigit(s[z])
  {
    hide Kept, Group, Grouping, DigitClass, PlainDigits;
    var z := a + |Group(ds, sep)|;
    if |ds| <= 3 {
      ShortGroupIsKept(s, a, ds, sep, isDigit);
    } else if z == |s| || !isDigit(s[z]) {
      GroupIsUndone(s, a, ds, sep, isDigit);
    } else {
      LastSeparatorStays(s, a, ds, sep, isDigit);
      assert |Kept(s, a, z, isDigit)| == |ds| + 1;
    }
  }

  lemma SeparatorStays(s: string, e: nat, isDigit: char -> bool)
    requires e + 4 < |s| && isDigit(s[e + 4])
    ensures Kept(s, e, e + 1, isDigit) == [s[e]]
  {
    assert !Grouping(s, e, isDigit);
    assert Kept(s, e, e, isDigit) == "";
  }

  /** With a digit after them only the separators before the last one go. */
  lemma LastSeparatorStays(s: string, a: nat, ds: string, sep: char, isDigit: char -> bool)
    requires DigitClass(isDigit) && IsSeparator(sep) && |ds| > 3 && PlainDigits(ds)
    requires Printed(s, a, Group(ds, sep))
    requires a + |Group(ds, sep)| < |s| && isDigit(s[a + |Group(ds, sep)|])
    ensures Kept(s, a, a + |Group(ds, sep)|, isDigit) == ds[..|ds| - 3] + [sep] + ds[|ds| - 3..]
  {
    hide Kept, Group, DigitClass, PlainDigits, Grouping;
    var h, t := ds[..|ds| - 3], ds[|ds| - 3..];
    var e, z := a + |Group(h, sep)|, a + |Group(ds, sep)|;
    PlainParts(ds, sep);
    Cut(s, a, Group(h, sep), sep, t);
    SeparatorIsNoDigit(sep, isDigit);
    assert Stands(s, a, Group(h, sep), isDigit);
    GroupIsUndone(s, a, h, sep, isDigit);
    SeparatorStays(s, e, isDigit);
    DigitsAreKept(s, e + 1, z, isDigit);
    KeptThree(s, a, e, z, isDigit);
  }

  lemma FourDigits(n: nat)
    ensures |Numeral(n, 10)| <= 3 <==> n < 1000
  {
    hide Numeral;
    OneDigitMore(n, 10);
    OneDigitMore(n / 10, 10);
    OneDigitMore(n / 10 / 10, 10);
  }

  lemma SeparatorFree(s: string, needle: string, isDigit: char -> bool)
    requires Contains(s, needle) && forall k :: 0 <= k < |needle| ==> !IsSeparator(needle[k])
    ensures Contains(Ungroup(s, isDigit), needle)
  {
    hide Kept;
    var i :| 0 <= i <= |s| && Occurs(s, needle, i);
    var b := i + |needle|;
    assert s[i..b] == s[i..][..|needle|] == needle;
    forall k | i <= k < b ensures !IsSeparator(s[k]) {
      assert s[k] == s[i..b][k - i];
    }
    KeptWhole(s, i, b, isDigit);
    EachKept(s, i, b, isDigit);
    assert ReadsAs(s, i, b, needle, isDigit);
    NothingIsInvented(s, needle, isDigit);
  }

  /** A word without a space, too long for what stands left of the only space, is found when it is the rest. */
  lemma RightOfSpace(left: string, right: string, needle: string)
    requires ' ' !in needle && |left| < |needle| && |right| <= |needle|
    ensures Contains(left + " " + right, needle) <==> needle == right
  {
    var s, p := left + " " + right, |left|;
    if needle == right {
      assert s == left + " " + right + "";
      Found(s, left + " ", right, "");
    }
    if Contains(s, needle) {
      var i :| 0 <= i <= |s| && Occurs(s, needle, i);
      var e := i + |needle|;
      assert needle == s[i..][..|needle|];
      forall k | i <= k < e ensures s[k] != ' ' {
        assert s[k] == needle[k - i];
      }
      assert s[p] == ' ';
      assert i == p + 1 && s[i..] == right;
    }
  }

  lemma TailOfItself(sign: string, ds: string, d: char)
    requires |ds| > 3 && (sign == "" || sign == "-") && d != '-'
    ensures sign + ds == ds[|ds| - 3..] + [d] <==> sign + ds == [d, d, d, d]
  {
    var t, w := ds[|ds| - 3..], sign + ds;
    if w == t + [d] {
      assert |w| == 4 && sign == "" && w == ds && t == ds[1..];
      assert ds[3] == d && ds[2] == t[2] == ds[3] && ds[1] == t[1] == ds[2] && ds[0] == t[0] == ds[1];
    }
    if w == [d, d, d, d] {
      assert w[0] == if sign == "-" then '-' else ds[0];
      assert w == ds && t == [d, d, d];
    }
  }

  lemma Rejoined(sign: string, h: string, t: string, d: string)
    ensures sign + (h + " " + t) + d == sign + h + " " + (t + d)
  {
  }

  lemma DigitSeparated(s: string, sign: string, ds: string, d: char, isDigit: char -> bool)
    requires DigitClass(isDigit) && isDigit(d) && |ds| > 3 && PlainDigits(ds) && (sign == "" || sign == "-")
    requires s == sign + Group(ds, ' ') + [d]
    ensures Ungroup(s, isDigit) == sign + ds[..|ds| - 3] + " " + (ds[|ds| - 3..] + [d])
  {
    var g := Group(ds, ' ');
    var a, z := |sign|, |sign| + |g|;
    hide Group, PlainDigits, Kept, Grouping;
    assert s == "" + sign + g + [d];
    Segments("", sign, g, [d]);
    assert !IsSeparator(d);
    hide DigitClass;
    LastSeparatorStays(s, a, ds, ' ', isDigit);
    LastIsKept(s, z, d, isDigit);
    SignIsKept(s, 0, a, isDigit);
    KeptAround(s, 0, a, z, isDigit);
    Rejoined(sign, ds[..|ds| - 3], ds[|ds| - 3..], [d]);
    NothingBefore(s, isDigit);
  }

  lemma LastIsKept(s: string, z: nat, d: char, isDigit: char -> bool)
    requires |s| == z + 1 && s[z] == d && !IsSeparator(d)
    ensures Kept(s, z, |s|, isDigit) == [d]
  {
    KeptWhole(s, z, |s|, isDigit);
  }

  lemma NothingBefore(s: string, isDigit: char -> bool)
    ensures Kept(s, 0, 0, isDigit) == ""
  {
  }

  /** In a text that is `Thousands(n)` and one more digit, n is found exactly when it has no separator, or
      when it is that digit four times. */
  lemma DigitAfterDecides(n: int, d: char, isDigit: char -> bool)
    requires DigitClass(isDigit) && isDigit(d) && d != '\U{2212}'
    ensures Evidenced(Thousands(n) + [d], Str(n), isDigit) <==> -1000 < n < 1000 || Str(n) == [d, d, d, d]
  {
    var sign, ds := ThousandsShape(n);
    var s := Thousands(n) + [d];
    FourDigits(if n < 0 then -n else n);
    assert d != '-';
    hide Replace, Thousands, Str, Numeral, Contains, Ungroup, Group, DigitClass;
    NormalAfter(Thousands(n), d);
    if |ds| <= 3 {
      ShortIsFound(n, sign, ds, [d]);
    } else {
      NoSeparators(sign, ds);
      if Contains(s, Str(n)) {
        SeparatorFree(s, Str(n), isDigit);
      }
      DigitSeparated(s, sign, ds, d, isDigit);
      RightOfSpace(sign + ds[..|ds| - 3], ds[|ds| - 3..] + [d], Str(n));
      TailOfItself(sign, ds, d);
    }
  }

  lemma NormalAfter(t: string, d: char)
    requires Normalize(t) == t && d != '\U{2212}'
    ensures Normalize(t + [d]) == t + [d]
  {
    ReplaceConcat(t, [d], '\U{2212}', '-');
    ReplaceAbsent([d], '\U{2212}', '-');
  }

  lemma ShortIsFound(n: int, sign: string, ds: string, after: string)
    requires Thousands(n) == sign + Group(ds, ' ') && Str(n) == sign + ds && |ds| <= 3
    ensures Contains(Thousands(n) + after, Str(n))
  {
    hide Thousands, Str, Contains;
    Found(Thousands(n) + after, "", Str(n), after);
  }

  lemma NoSeparators(sign: string, ds: string)
    requires PlainDigits(ds) && (sign == "" || sign == "-")
    ensures forall k :: 0 <= k < |sign + ds| ==> !IsSeparator((sign + ds)[k])
  {
  }

  function AsciiDigit(): char -> bool {
    c => '0' <= c <= '9'
  }

  lemma Printed1234()
    ensures Numeral(1234, 10) == "1234"
  {
    hide Numeral, Digit;
    SmallDigits();
    OneDigit(1);
    NumeralSnoc(1, 2);
    NumeralSnoc(12, 3);
    NumeralSnoc(123, 4);
  }

  lemma Printed1111()
    ensures Numeral(1111, 10) == "1111"
  {
    hide Numeral, Digit;
    SmallDigits();
    OneDigit(1);
    NumeralSnoc(1, 1);
    NumeralSnoc(11, 1);
    NumeralSnoc(111, 1);
  }

  /** Both outcomes: 1234 is not found in its grouped form followed by 5, 1111 is found before another 1. */
  lemma DigitAfterCanHide()
    ensures DigitClass(AsciiDigit())
    ensures Str(1234) == "1234" && !Evidenced(Thousands(1234) + "5", "1234", AsciiDigit())
    ensures Str(1111) == "1111" && Evidenced(Thousands(1111) + "1", "1111", AsciiDigit())
  {
    hide Numeral, Thousands, Evidenced;
    Printed1234();
    Printed1111();
    assert "1234"[0] == '1';
    DigitAfterDecides(1234, '5', AsciiDigit());
    DigitAfterDecides(1111, '1', AsciiDigit());
  }
}
