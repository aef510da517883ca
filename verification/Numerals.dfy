/** Positional numerals: what `str`, `:x` and zero padding print, and what `int` reads back. */
module Numerals {
  import opened Basics

  type Base = b: nat | 2 <= b <= 16 witness 10

  function DigitValue(c: char): Option<nat> {
    if '0' <= c <= '9' then Some(c as int - '0' as int)
    else if 'a' <= c <= 'f' then Some(c as int - 'a' as int + 10)
    else if 'A' <= c <= 'F' then Some(c as int - 'A' as int + 10)
    else None
  }

  predicate IsNumeral(s: string, base: Base) {
    s != "" && forall i :: 0 <= i < |s| ==> DigitValue(s[i]).Some? && DigitValue(s[i]).value < base
  }

  function Digit(d: nat): (c: char)
    requires d < 16
    ensures DigitValue(c) == Some(d)
    ensures if d < 10 then '0' <= c <= '9' else 'a' <= c <= 'f'
  {
    "0123456789abcdef"[d]
  }

  function Numeral(n: nat, base: Base): (s: string)
    ensures s != ""
  {
    if n < base then [Digit(n)] else Numeral(n / base, base) + [Digit(n % base)]
  }

  function Value(s: string, base: Base): nat
    requires forall i :: 0 <= i < |s| ==> DigitValue(s[i]).Some?
  {
    if s == "" then 0 else Value(s[..|s| - 1], base) * base + DigitValue(s[|s| - 1]).value
  }

  lemma Divide(n: nat, base: Base)
    ensures n / base * base + n % base == n && n % base < base
    ensures n >= base ==> n / base < n
  {
  }

  lemma {:induction false} NumeralReads(n: nat, base: Base)
    ensures IsNumeral(Numeral(n, base), base) && Value(Numeral(n, base), base) == n
  {
    hide DigitValue;
    if n < base {
      assert [Digit(n)][..0] == "";
    } else {
      Divide(n, base);
      NumeralReads(n / base, base);
      ValueSnoc(Numeral(n / base, base), n % base, base);
    }
  }

  lemma ValueSnoc(h: string, d: nat, base: Base)
    requires IsNumeral(h, base) && d < base
    ensures IsNumeral(h + [Digit(d)], base)
    ensures Value(h + [Digit(d)], base) == Value(h, base) * base + d
  {
    hide DigitValue;
    assert (h + [Digit(d)])[..|h|] == h;
  }

  /** Printed characters are 0-9 and a-f, and in base ten only 0-9. */
  ghost predicate PlainDigits(s: string) {
    forall i :: 0 <= i < |s| ==> '0' <= s[i] <= '9'
  }

  ghost predicate PlainHex(s: string) {
    forall i :: 0 <= i < |s| ==> '0' <= s[i] <= '9' || 'a' <= s[i] <= 'f'
  }

  lemma {:induction false} NumeralIsPlain(n: nat, base: Base)
    ensures PlainHex(Numeral(n, base)) && (base <= 10 ==> PlainDigits(Numeral(n, base)))
  {
    hide DigitValue;
    if n < base {
    } else {
      Divide(n, base);
      NumeralIsPlain(n / base, base);
    }
  }

  function Zeros(n: nat): (z: string)
    ensures |z| == n && forall i :: 0 <= i < n ==> z[i] == '0'
  {
    seq(n, _ => '0')
  }

  /** `{s:0>width}` */
  function ZeroPad(s: string, width: nat): string {
    if |s| >= width then s else Zeros(width - |s|) + s
  }

  lemma {:induction false} LeadingZeros(z: nat, s: string, base: Base)
    requires forall i :: 0 <= i < |s| ==> DigitValue(s[i]).Some?
    ensures forall i :: 0 <= i < |Zeros(z) + s| ==> DigitValue((Zeros(z) + s)[i]).Some?
    ensures Value(Zeros(z) + s, base) == Value(s, base)
  {
    var t := Zeros(z) + s;
    if s == "" {
      if z > 0 {
        assert t[..|t| - 1] == Zeros(z - 1) + "";
        LeadingZeros(z - 1, "", base);
      }
    } else {
      assert t[..|t| - 1] == Zeros(z) + s[..|s| - 1];
      LeadingZeros(z, s[..|s| - 1], base);
    }
  }

  lemma PaddedReads(n: nat, width: nat, base: Base)
    ensures IsNumeral(ZeroPad(Numeral(n, base), width), base)
    ensures Value(ZeroPad(Numeral(n, base), width), base) == n
  {
    var s := Numeral(n, base);
    NumeralReads(n, base);
    if |s| < width {
      LeadingZeros(width - |s|, s, base);
    }
  }

  /** Padding does not make two numbers look alike. */
  lemma PaddedInjective(a: nat, b: nat, width: nat, base: Base)
    requires ZeroPad(Numeral(a, base), width) == ZeroPad(Numeral(b, base), width)
    ensures a == b
  {
    PaddedReads(a, width, base);
    PaddedReads(b, width, base);
  }

  /** `str(n)` */
  function Str(n: int): string {
    if n < 0 then "-" + Numeral(-n, 10) else Numeral(n, 10)
  }

  // ----- reading -----

  /** `str.isspace` */
  predicate IsSpace(c: char) {
    || '\t' <= c <= '\r' || '\U{001C}' <= c <= ' ' || c == '\U{0085}' || c == '\U{00A0}' || c == '\U{1680}'
    || '\U{2000}' <= c <= '\U{200A}' || c == '\U{2028}' || c == '\U{2029}' || c == '\U{202F}'
    || c == '\U{205F}' || c == '\U{3000}'
  }

  function StripLeft(s: string): string {
    if s != "" && IsSpace(s[0]) then StripLeft(s[1..]) else s
  }

  function StripRight(s: string): string {
    if s != "" && IsSpace(s[|s| - 1]) then StripRight(s[..|s| - 1]) else s
  }

  /** `s.strip()` */
  function Strip(s: string): string {
    StripRight(StripLeft(s))
  }

  lemma NothingToStrip(s: string)
    requires s == "" || (!IsSpace(s[0]) && !IsSpace(s[|s| - 1]))
    ensures Strip(s) == s
  {
  }

  function WithoutUnderscores(s: string): string {
    if s == "" then "" else (if s[0] == '_' then "" else [s[0]]) + WithoutUnderscores(s[1..])
  }

  /** Underscores stand alone and between digits. */
  predicate Grouped(s: string) {
    && s != "" && s[0] != '_' && s[|s| - 1] != '_'
    && forall i :: 0 < i < |s| ==> !(s[i - 1] == '_' && s[i] == '_')
  }

  /** `0b`, `0o` and `0x`, in their own base. */
  predicate HasPrefix(s: string, base: Base) {
    || (base == 2 && ("0b" <= s || "0B" <= s))
    || (base == 8 && ("0o" <= s || "0O" <= s))
    || (base == 16 && ("0x" <= s || "0X" <= s))
  }

  /** What follows the sign: a prefix with at most one underscore after it, then the digits. */
  function ParseMagnitude(s: string, base: Base): Option<nat> {
    var t := if !HasPrefix(s, base) then s else if "_" <= s[2..] then s[3..] else s[2..];
    var digits := WithoutUnderscores(t);
    if Grouped(t) && IsNumeral(digits, base) then Some(Value(digits, base)) else None
  }

  /** `int(s, base)` on ASCII digits; None for its ValueError. */
  function ParseInt(s: string, base: Base): Option<int> {
    var t := Strip(s);
    if t == "" then None
    else if t[0] == '-' then
      var m := ParseMagnitude(t[1..], base);
      if m.Some? then Some(-(m.value as int)) else None
    else if t[0] == '+' then
      var m := ParseMagnitude(t[1..], base);
      if m.Some? then Some(m.value) else None
    else
      var m := ParseMagnitude(t, base);
      if m.Some? then Some(m.value) else None
  }

  lemma {:induction false} NoUnderscores(s: string)
    requires '_' !in s
    ensures WithoutUnderscores(s) == s
  {
    if s == "" {
    } else {
      assert s[0] in s;
      assert forall c :: c in s[1..] ==> c in s;
      NoUnderscores(s[1..]);
    }
  }

  /** A plain numeral is read as it stands. */
  lemma MagnitudeReads(s: string, base: Base)
    requires IsNumeral(s, base)
    ensures ParseMagnitude(s, base) == Some(Value(s, base))
  {
    hide Value;
    forall i | 0 <= i < |s| ensures s[i] != '_' && s[i] != 'x' && s[i] != 'X' && s[i] != 'o' && s[i] != 'O' {
      assert DigitValue(s[i]).Some?;
    }
    NoPrefix(s, base);
    NoUnderscores(s);
  }

  lemma NoPrefix(s: string, base: Base)
    requires IsNumeral(s, base)
    ensures !HasPrefix(s, base)
  {
    if |s| > 1 {
      assert DigitValue(s[1]).Some? && DigitValue(s[1]).value < base;
    }
  }

  lemma NumeralEnds(s: string, base: Base)
    requires IsNumeral(s, base)
    ensures s != "" && !IsSpace(s[0]) && !IsSpace(s[|s| - 1]) && s[0] != '-' && s[0] != '+'
  {
    assert DigitValue(s[0]).Some? && DigitValue(s[|s| - 1]).Some?;
  }

  lemma MinusIsNoSpace()
    ensures !IsSpace('-')
  {
  }

  /** A numeral, signed or not, is read. */
  lemma SignedReads(s: string, base: Base)
    requires IsNumeral(s, base)
    ensures ParseInt(s, base) == Some(Value(s, base))
    ensures ParseInt("-" + s, base) == Some(-(Value(s, base) as int))
  {
    hide Strip, IsNumeral, Value, ParseMagnitude, IsSpace;
    MinusIsNoSpace();
    MagnitudeReads(s, base);
    NumeralEnds(s, base);
    NothingToStrip(s);
    var t := "-" + s;
    assert t[1..] == s && t[|t| - 1] == s[|s| - 1];
    NothingToStrip(t);
  }

  /** `int` reads back what `str` printed. */
  lemma StrReads(n: int)
    ensures ParseInt(Str(n), 10) == Some(n)
  {
    hide Numeral, DigitValue, Value, IsNumeral, ParseInt;
    NumeralReads(if n < 0 then -n else n, 10);
    SignedReads(Numeral(if n < 0 then -n else n, 10), 10);
  }

  /** `{n:0{width}x}`: the sign counts in the width. */
  function Hex(n: int, width: nat): string
    requires width > 0
  {
    if n < 0 then "-" + ZeroPad(Numeral(-n, 16), width - 1) else ZeroPad(Numeral(n, 16), width)
  }

  lemma PaddedIsPlainHex(n: nat, width: nat)
    ensures PlainHex(ZeroPad(Numeral(n, 16), width)) && ZeroPad(Numeral(n, 16), width) != ""
  {
    NumeralIsPlain(n, 16);
  }

  /** `int(..., 16)` reads back what the padded hexadecimal format printed. */
  lemma HexReads(n: int, width: nat)
    requires width > 0
    ensures ParseInt(Hex(n, width), 16) == Some(n)
    ensures if n < 0 then Hex(n, width)[0] == '-' && PlainHex(Hex(n, width)[1..]) else PlainHex(Hex(n, width))
  {
    hide Numeral, DigitValue, Value, IsNumeral, ZeroPad, ParseInt;
    if n < 0 {
      var s := ZeroPad(Numeral(-n, 16), width - 1);
      PaddedReads(-n, width - 1, 16);
      PaddedIsPlainHex(-n, width - 1);
      SignedReads(s, 16);
      assert Hex(n, width)[1..] == s;
    } else {
      PaddedReads(n, width, 16);
      PaddedIsPlainHex(n, width);
      SignedReads(Hex(n, width), 16);
    }
  }

  // ----- known digits and lengths -----

  lemma OneDigitMore(n: nat, base: Base)
    ensures |Numeral(n, base)| == if n < base then 1 else |Numeral(n / base, base)| + 1
  {
  }

  lemma OneDigit(d: nat)
    requires d < 10
    ensures Numeral(d, 10) == [Digit(d)]
  {
  }

  lemma NumeralSnoc(h: nat, d: nat)
    requires h > 0 && d < 10
    ensures Numeral(10 * h + d, 10) == Numeral(h, 10) + [Digit(d)]
  {
    var n := 10 * h + d;
    assert n / 10 == h && n % 10 == d;
  }

  lemma SmallDigits()
    ensures Digit(1) == '1' && Digit(2) == '2' && Digit(3) == '3' && Digit(4) == '4'
  {
  }

  function PowerOf(base: Base, k: nat): nat {
    if k == 0 then 1 else base * PowerOf(base, k - 1)
  }

  lemma {:induction false} NumeralLength(n: nat, base: Base, k: nat)
    requires k > 0 && n < PowerOf(base, k)
    ensures |Numeral(n, base)| <= k
  {
    hide Numeral;
    OneDigitMore(n, base);
    if n < base {
    } else {
      hide PowerOf;
      FewerDigits(n, base, k);
      NumeralLength(n / base, base, k - 1);
    }
  }

  lemma FewerDigits(n: nat, base: Base, k: nat)
    requires k > 0 && base <= n < PowerOf(base, k)
    ensures k > 1 && n / base < n && n / base < PowerOf(base, k - 1)
  {
    assert PowerOf(base, 1) == base * PowerOf(base, 0) == base;
    Divide(n, base);
    Below(n, base, PowerOf(base, k - 1));
  }

  lemma Below(n: nat, base: Base, p: nat)
    requires n < base * p
    ensures n / base < p
  {
    var q := n / base;
    assert base * q <= n;
    assert base * (p - q) > 0;
    PositiveInt(base, p - q);
  }

  lemma PositiveInt(a: nat, x: int)
    requires a * x > 0
    ensures x > 0
  {
  }

  /** A number that fits in the width prints exactly that wide: a 64-bit hash takes sixteen digits. */
  lemma HexWidth(n: nat, width: nat)
    requires width > 0 && n < PowerOf(16, width)
    ensures |Hex(n, width)| == width
  {
    hide Numeral;
    NumeralLength(n, 16, width);
  }

  lemma Sixteen16()
    ensures PowerOf(16, 16) == 0x1_0000_0000_0000_0000
  {
    assert PowerOf(16, 4) == 0x1_0000;
    hide PowerOf;
    PowerAdd(16, 4, 4);
    PowerAdd(16, 8, 8);
  }

  lemma {:induction false} PowerAdd(base: Base, a: nat, b: nat)
    ensures PowerOf(base, a + b) == PowerOf(base, a) * PowerOf(base, b)
  {
    if a == 0 {
    } else {
      PowerAdd(base, a - 1, b);
      Associate(base, PowerOf(base, a - 1), PowerOf(base, b));
    }
  }

  lemma Associate(a: nat, b: nat, c: nat)
    ensures a * (b * c) == a * b * c
  {
  }

  // ----- the other spellings of an integer -----

  ghost predicate Blank(s: string) {
    forall i :: 0 <= i < |s| ==> IsSpace(s[i])
  }

  lemma {:induction false} BlankLeft(l: string, s: string)
    requires Blank(l) && s != "" && !IsSpace(s[0])
    ensures StripLeft(l + s) == s
  {
    hide IsSpace;
    if l == "" {
      assert l + s == s;
    } else {
      assert (l + s)[1..] == l[1..] + s;
      BlankLeft(l[1..], s);
    }
  }

  lemma {:induction false} BlankRight(s: string, r: string)
    requires Blank(r) && s != "" && !IsSpace(s[|s| - 1])
    ensures StripRight(s + r) == s
  {
    hide IsSpace;
    if r == "" {
      assert s + r == s;
    } else {
      assert (s + r)[..|s + r| - 1] == s + r[..|r| - 1];
      BlankRight(s, r[..|r| - 1]);
    }
  }

  /** White space around a number does not matter. */
  lemma BlanksAround(l: string, s: string, r: string, base: Base)
    requires Blank(l) && Blank(r) && s != "" && !IsSpace(s[0]) && !IsSpace(s[|s| - 1])
    ensures ParseInt(l + s + r, base) == ParseInt(s, base)
  {
    hide IsSpace, ParseMagnitude, StripLeft, StripRight, Blank;
    assert l + s + r == l + (s + r) && (s + r)[0] == s[0];
    BlankLeft(l, s + r);
    BlankRight(s, r);
    NothingToStrip(s);
  }

  /** A plus sign changes nothing. */
  lemma PlusReads(s: string, base: Base)
    requires IsNumeral(s, base)
    ensures ParseInt("+" + s, base) == Some(Value(s, base))
  {
    hide Strip, IsNumeral, Value, ParseMagnitude;
    MagnitudeReads(s, base);
    NumeralEnds(s, base);
    var t := "+" + s;
    assert t[1..] == s && t[|t| - 1] == s[|s| - 1];
    NothingToStrip(t);
  }

  lemma {:induction false} UnderscoreGoes(a: string, b: string)
    requires '_' !in a && '_' !in b
    ensures WithoutUnderscores(a + "_" + b) == a + b
  {
    var s := a + "_" + b;
    if a == "" {
      assert s[1..] == b;
      NoUnderscores(b);
    } else {
      assert a[0] in a && s[1..] == a[1..] + "_" + b;
      assert forall c :: c in a[1..] ==> c in a;
      UnderscoreGoes(a[1..], b);
    }
  }

  lemma NumeralCharacters(s: string, base: Base)
    requires IsNumeral(s, base)
    ensures '_' !in s && 'x' !in s && 'X' !in s && 'o' !in s && 'O' !in s
  {
    forall i | 0 <= i < |s| ensures s[i] != '_' && s[i] != 'x' && s[i] != 'X' && s[i] != 'o' && s[i] != 'O' {
      assert DigitValue(s[i]).Some?;
    }
  }

  /** One underscore between digits changes nothing; two are refused. */
  lemma UnderscoreReads(a: string, b: string, base: Base)
    requires IsNumeral(a, base) && IsNumeral(b, base)
    ensures IsNumeral(a + b, base) && ParseMagnitude(a + "_" + b, base) == Some(Value(a + b, base))
    ensures ParseMagnitude(a + "__" + b, base) == None
  {
    NumeralCharacters(a, base);
    NumeralCharacters(b, base);
    NoPrefix(a + b, base);
    UnderscoreGoes(a, b);
    var s, d := a + "_" + b, a + "__" + b;
    assert d[|a|] == '_' && d[|a| + 1] == '_' && s[|a|] == '_';
    NoPrefixBefore(a, "_" + b, base);
    NoPrefixBefore(a, "__" + b, base);
    assert s == a + ("_" + b) && d == a + ("__" + b);
    SingleUnderscore(a, b);
  }

  lemma SingleUnderscore(a: string, b: string)
    requires a != "" && b != "" && '_' !in a && '_' !in b
    ensures Grouped(a + "_" + b)
  {
    var s := a + "_" + b;
    forall i | 0 < i < |s| ensures !(s[i - 1] == '_' && s[i] == '_') {
      if i < |a| {
        assert s[i] == a[i] && a[i] in a;
      } else if i == |a| {
        assert s[i - 1] == a[i - 1] && a[i - 1] in a;
      } else {
        assert s[i] == b[i - |a| - 1] && b[i - |a| - 1] in b;
      }
    }
    assert s[0] == a[0] && a[0] in a && s[|s| - 1] == b[|b| - 1] && b[|b| - 1] in b;
  }

  lemma NoPrefixBefore(a: string, rest: string, base: Base)
    requires IsNumeral(a, base) && rest != "" && rest[0] == '_'
    ensures !HasPrefix(a + rest, base)
  {
    var s := a + rest;
    if |a| > 1 {
      assert DigitValue(a[1]).Some? && DigitValue(a[1]).value < base && s[1] == a[1];
    } else {
      assert s[1] == '_';
    }
  }

  lemma GroupedPlain(s: string)
    requires s != "" && '_' !in s
    ensures Grouped(s) && !("_" <= s)
  {
    assert s[0] in s && s[|s| - 1] in s;
    assert forall i :: 0 <= i < |s| ==> s[i] in s;
  }

  lemma AfterPrefix(p: string, s: string)
    requires IsNumeral(s, 16) && (p == "0x" || p == "0X")
    ensures ParseMagnitude(p + s, 16) == Some(Value(s, 16))
  {
    NumeralCharacters(s, 16);
    hide Value, Grouped, IsNumeral, WithoutUnderscores;
    NumeralEnds(s, 16);
    GroupedPlain(s);
    NoUnderscores(s);
    assert p <= p + s && (p + s)[2..] == s;
  }

  /** `0x` and `0X` are read over in base sixteen. */
  lemma PrefixReads(s: string)
    requires IsNumeral(s, 16)
    ensures ParseMagnitude("0x" + s, 16) == Some(Value(s, 16)) == ParseMagnitude("0X" + s, 16)
  {
    AfterPrefix("0x", s);
    AfterPrefix("0X", s);
  }
}
