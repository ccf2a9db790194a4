/**
 * The Python built-ins the pipeline relies on, over `seq<char>` and exact
 * numbers: `strip`, `lower`, `in`, `isdigit`, `isalpha`, `int(...)` of a
 * string or a float, `str(int)`, `join` and single-character `replace`.
 */
module Builtins {
  import opened Wrappers

  /** `c.isspace()`: exactly the characters that `str.strip()` removes. */
  predicate IsSpace(c: char) {
    || c == ' ' || '\t' <= c <= '\r' || '\U{1c}' <= c <= '\U{1f}'
    || c == '\U{85}' || c == '\U{a0}' || c == '\U{1680}'
    || '\U{2000}' <= c <= '\U{200a}' || c == '\U{2028}' || c == '\U{2029}'
    || c == '\U{202f}' || c == '\U{205f}' || c == '\U{3000}'
  }

  /** `s.lstrip()`: drops the whitespace at the front (see `TrimLeftSpec`). */
  function TrimLeft(s: string): string {
    if s != [] && IsSpace(s[0]) then TrimLeft(s[1..]) else s
  }

  /** `s.rstrip()`: drops the whitespace at the back (see `TrimRightSpec`). */
  function TrimRight(s: string): string {
    if s != [] && IsSpace(s[|s| - 1]) then TrimRight(s[..|s| - 1]) else s
  }

  /** `lstrip` keeps the longest suffix that does not start with whitespace. */
  lemma {:induction false} TrimLeftSpec(s: string)
    ensures var r := TrimLeft(s);
      && |r| <= |s| && r == s[|s| - |r|..]
      && (forall k :: 0 <= k < |s| - |r| ==> IsSpace(s[k]))
      && (r == [] || !IsSpace(r[0]))
  {
    if s != [] && IsSpace(s[0]) {
      var t := s[1..];
      TrimLeftSpec(t);
      var r := TrimLeft(t);
      assert TrimLeft(s) == r;
      assert s[|s| - |r|..] == t[|t| - |r|..];
      forall k | 0 <= k < |s| - |r| ensures IsSpace(s[k]) {
        if k > 0 {
          assert s[k] == t[k - 1];
        }
      }
    }
  }

  /** `rstrip` keeps the longest prefix that does not end with whitespace. */
  lemma {:induction false} TrimRightSpec(s: string)
    ensures var r := TrimRight(s);
      && |r| <= |s| && r == s[..|r|]
      && (forall k :: |r| <= k < |s| ==> IsSpace(s[k]))
      && (r == [] || !IsSpace(r[|r| - 1]))
  {
    if s != [] && IsSpace(s[|s| - 1]) {
      TrimRightSpec(s[..|s| - 1]);
    }
  }

  /** `s.strip()`. */
  function Strip(s: string): (r: string)
    ensures |r| <= |s|
    ensures r == [] || (!IsSpace(r[0]) && !IsSpace(r[|r| - 1]))
  {
    TrimLeftSpec(s);
    TrimRightSpec(TrimLeft(s));
    TrimRight(TrimLeft(s))
  }

  /** `s.strip()` removes whitespace only: what it drops from either end is whitespace. */
  lemma StripDropsOnlySpace(s: string)
    ensures var r, i := Strip(s), |s| - |TrimLeft(s)|;
      && 0 <= i && i + |r| <= |s| && s[i..i + |r|] == r
      && (forall k :: 0 <= k < i ==> IsSpace(s[k]))
      && (forall k :: i + |r| <= k < |s| ==> IsSpace(s[k]))
  {
    var t := TrimLeft(s);
    var r := TrimRight(t);
    var i := |s| - |t|;
    TrimLeftSpec(s);
    TrimRightSpec(t);
    assert s[i..i + |r|] == t[..|r|];
    forall k | i + |r| <= k < |s| ensures IsSpace(s[k]) {
      assert s[k] == t[k - i];
    }
  }

  /** A string with no whitespace at either end is its own strip. */
  lemma StripUnchanged(s: string)
    requires s == [] || (!IsSpace(s[0]) && !IsSpace(s[|s| - 1]))
    ensures Strip(s) == s
  {
  }

  /** Stripping twice is stripping once. */
  lemma StripIdempotent(s: string)
    ensures Strip(Strip(s)) == Strip(s)
  {
    StripUnchanged(Strip(s));
  }

  /** `c.lower()` on ASCII letters; every other character is kept. */
  function LowerChar(c: char): char {
    if 'A' <= c <= 'Z' then (c as int + 32) as char else c
  }

  /** `s.lower()`, character by character. */
  function Lower(s: string): string {
    seq(|s|, k requires 0 <= k < |s| => LowerChar(s[k]))
  }

  /** Lower-casing twice is lower-casing once. */
  lemma LowerIdempotent(s: string)
    ensures Lower(Lower(s)) == Lower(s)
  {
  }

  /** Lower-casing keeps whitespace where it was, so it commutes with `strip`. */
  lemma {:induction false} LowerStripCommute(s: string)
    ensures Lower(Strip(s)) == Strip(Lower(s))
  {
    LowerTrimLeft(s);
    LowerTrimRight(TrimLeft(s));
  }

  lemma {:induction false} LowerTrimLeft(s: string)
    ensures Lower(TrimLeft(s)) == TrimLeft(Lower(s))
  {
    if s != [] && IsSpace(s[0]) {
      assert Lower(s)[1..] == Lower(s[1..]);
      LowerTrimLeft(s[1..]);
    }
  }

  lemma {:induction false} LowerTrimRight(s: string)
    ensures Lower(TrimRight(s)) == TrimRight(Lower(s))
  {
    if s != [] && IsSpace(s[|s| - 1]) {
      assert Lower(s)[..|s| - 1] == Lower(s[..|s| - 1]);
      LowerTrimRight(s[..|s| - 1]);
    }
  }

  /** `pat` occurs in `text` starting at index `i`. */
  predicate OccursAt(text: string, pat: string, i: nat) {
    i + |pat| <= |text| && text[i..i + |pat|] == pat
  }

  /** Python's `pat in text`, scanning `text` from the left. */
  predicate Contains(text: string, pat: string) {
    pat <= text || (text != [] && Contains(text[1..], pat))
  }

  /** `pat in text` holds exactly when `pat` occurs in `text` at some position. */
  lemma {:induction false} ContainsIff(text: string, pat: string)
    ensures Contains(text, pat) <==> exists i: nat :: OccursAt(text, pat, i)
  {
    if pat <= text {
      assert OccursAt(text, pat, 0);
    }
    if text != [] {
      ContainsIff(text[1..], pat);
      forall i: nat | OccursAt(text[1..], pat, i) ensures OccursAt(text, pat, i + 1) {
        ShiftOccurrence(text, pat, i);
      }
      forall i: nat | OccursAt(text, pat, i) && i > 0 ensures OccursAt(text[1..], pat, i - 1) {
        ShiftOccurrence(text, pat, i - 1);
      }
    }
  }

  /** Dropping the first character moves every occurrence one place to the left. */
  lemma ShiftOccurrence(text: string, pat: string, i: nat)
    requires text != []
    ensures OccursAt(text[1..], pat, i) <==> OccursAt(text, pat, i + 1)
  {
    if i + 1 + |pat| <= |text| {
      assert text[1..][i..i + |pat|] == text[i + 1..i + 1 + |pat|];
    }
  }

  /** `text.find(pat)`: the first position at which `pat` occurs, if any. */
  function Find(text: string, pat: string): (r: Option<nat>)
    ensures r.Some? ==> OccursAt(text, pat, r.value) && forall j :: 0 <= j < r.value ==> !OccursAt(text, pat, j)
    ensures r.None? ==> forall j: nat :: !OccursAt(text, pat, j)
  {
    FindFrom(text, pat, 0)
  }

  function FindFrom(text: string, pat: string, i: nat): (r: Option<nat>)
    requires i <= |text|
    ensures r.Some? ==> i <= r.value && OccursAt(text, pat, r.value) && forall j :: i <= j < r.value ==> !OccursAt(text, pat, j)
    ensures r.None? ==> forall j: nat :: i <= j ==> !OccursAt(text, pat, j)
    decreases |text| - i
  {
    if OccursAt(text, pat, i) then Some(i)
    else if i == |text| then None
    else FindFrom(text, pat, i + 1)
  }

  /** `c.isdigit()` on ASCII. */
  predicate IsDigit(c: char) {
    '0' <= c <= '9'
  }

  /** `s.isdigit()`: non-empty and made of digits only. */
  predicate IsDigits(s: string) {
    s != [] && forall k :: 0 <= k < |s| ==> IsDigit(s[k])
  }

  /** `c.isalpha()` on ASCII. */
  predicate IsLetter(c: char) {
    'a' <= c <= 'z' || 'A' <= c <= 'Z'
  }

  /** `s.isalpha()`: non-empty and made of letters only. */
  predicate IsAlpha(s: string) {
    s != [] && forall k :: 0 <= k < |s| ==> IsLetter(s[k])
  }

  function DigitOf(c: char): nat
    requires IsDigit(c)
  {
    c as int - '0' as int
  }

  /** The decimal value of a run of digits (`int(s)` for such an `s`). */
  function DigitsValue(s: string): nat
    requires forall k :: 0 <= k < |s| ==> IsDigit(s[k])
  {
    if s == [] then 0 else DigitsValue(s[..|s| - 1]) * 10 + DigitOf(s[|s| - 1])
  }

  /**
   * The digits of a Python integer literal: ASCII digits, with single
   * underscores allowed between two digits (`"2_019"`).
   */
  predicate IsIntLiteral(d: string) {
    && d != [] && IsDigit(d[0]) && IsDigit(d[|d| - 1])
    && (forall k :: 0 <= k < |d| ==> IsDigit(d[k]) || d[k] == '_')
    && (forall k :: 0 <= k < |d| - 1 && d[k] == '_' ==> IsDigit(d[k + 1]))
  }

  /** A literal with its underscores removed. */
  function DropUnderscores(d: string): (r: string)
    ensures forall k :: 0 <= k < |r| ==> r[k] != '_' && r[k] in d
    ensures '_' !in d ==> r == d
    ensures d != [] && d[0] != '_' ==> r != [] && r[0] == d[0]
  {
    if d == [] then [] else (if d[0] == '_' then [] else [d[0]]) + DropUnderscores(d[1..])
  }

  /** Without its underscores a literal is a digit string. */
  lemma LiteralDigits(d: string)
    requires IsIntLiteral(d)
    ensures IsDigits(DropUnderscores(d))
  {
    var r := DropUnderscores(d);
    forall k | 0 <= k < |r| ensures IsDigit(r[k]) {
      assert r[k] in d;
    }
  }

  /**
   * Python's `int(s)` for a string: surrounding whitespace, an optional sign,
   * then digits with single underscores between them.
   */
  function ParseInt(s: string): (r: Option<int>)
    ensures r.Some? <==> Readable(Strip(s))
    ensures IsIntLiteral(s) ==> r == Some(LiteralValue(s))
    ensures IsDigits(s) ==> r == Some(DigitsValue(s))
    ensures IsIntLiteral(Strip(s)) ==> r == Some(LiteralValue(Strip(s)))
    ensures var t := Strip(s); t != [] && t[0] == '-' && IsIntLiteral(t[1..]) ==> r == Some(-(LiteralValue(t[1..]) as int))
    ensures var t := Strip(s); t != [] && t[0] == '+' && IsIntLiteral(t[1..]) ==> r == Some(LiteralValue(t[1..]))
    ensures Strip(s) == [] ==> r == None
  {
    var t := Strip(s);
    SignedReadable(t);
    if IsDigits(s) then
      DigitsAreLiteral(s);
      StripUnchanged(s);
      UnsignedLiteral(s);
      ParseSigned(t)
    else if IsIntLiteral(s) then
      StripUnchanged(s);
      UnsignedLiteral(s);
      ParseSigned(t)
    else if IsIntLiteral(t) then
      UnsignedLiteral(t);
      ParseSigned(t)
    else ParseSigned(t)
  }

  /**
   * What `int()` accepts once the whitespace is stripped: a literal,
   * optionally after one `+` or `-`.
   */
  predicate Readable(t: string) {
    IsIntLiteral(t) || (t != [] && (t[0] == '+' || t[0] == '-') && IsIntLiteral(t[1..]))
  }

  /** The value of a literal: its digits with the underscores removed. */
  function LiteralValue(d: string): nat
    requires IsIntLiteral(d)
  {
    LiteralDigits(d);
    DigitsValue(DropUnderscores(d))
  }

  /** `int()` of text without surrounding whitespace. */
  function ParseSigned(t: string): Option<int> {
    if t != [] && t[0] == '-' then
      match ParseLiteral(t[1..])
      case Some(v) => Some(-v)
      case None => None
    else if t != [] && t[0] == '+' then ParseLiteral(t[1..])
    else ParseLiteral(t)
  }

  /** Stripped text is read exactly when it is a literal after an optional sign; a sign applies to the value. */
  lemma SignedReadable(t: string)
    ensures ParseSigned(t).Some? <==> Readable(t)
    ensures t != [] && t[0] == '-' && IsIntLiteral(t[1..]) ==> ParseSigned(t) == Some(-(LiteralValue(t[1..]) as int))
    ensures t != [] && t[0] == '+' && IsIntLiteral(t[1..]) ==> ParseSigned(t) == Some(LiteralValue(t[1..]))
  {
    if t != [] && (t[0] == '+' || t[0] == '-') {
      assert !IsIntLiteral(t) by { assert !IsDigit(t[0]); }
    }
  }

  /** Without a sign, a literal is read as it stands. */
  lemma UnsignedLiteral(t: string)
    requires IsIntLiteral(t)
    ensures ParseSigned(t) == Some(LiteralValue(t))
  {
    assert IsDigit(t[0]);
  }

  /** The value of an unsigned literal, if `d` is one. */
  function ParseLiteral(d: string): (r: Option<int>)
    ensures r.Some? <==> IsIntLiteral(d)
    ensures IsIntLiteral(d) ==> r == Some(LiteralValue(d))
  {
    if IsIntLiteral(d) then Some(LiteralValue(d)) else None
  }

  /** Removing underscores distributes over concatenation. */
  lemma {:induction false} DropAppend(x: string, y: string)
    ensures DropUnderscores(x + y) == DropUnderscores(x) + DropUnderscores(y)
  {
    if x == [] {
      assert x + y == y;
    } else {
      assert (x + y)[1..] == x[1..] + y;
      DropAppend(x[1..], y);
    }
  }

  /** Two digit groups joined by one underscore form a literal of their digits. */
  lemma GroupedLiteral(a: string, b: string)
    requires IsDigits(a) && IsDigits(b)
    ensures IsIntLiteral(a + "_" + b) && DropUnderscores(a + "_" + b) == a + b
  {
    var g := a + "_" + b;
    forall k | 0 <= k < |g| ensures IsDigit(g[k]) || g[k] == '_' {
      if k < |a| { assert g[k] == a[k]; } else if k > |a| { assert g[k] == b[k - |a| - 1]; }
    }
    forall k | 0 <= k < |g| - 1 && g[k] == '_' ensures IsDigit(g[k + 1]) {
      if k == |a| { assert g[k + 1] == b[0]; }
    }
    assert g[0] == a[0] && g[|g| - 1] == b[|b| - 1];
    DigitsAreLiteral(a);
    DigitsAreLiteral(b);
    assert DropUnderscores("_") == [] by {
      assert "_"[0] == '_' && "_"[1..] == [];
    }
    DropAppend(a, "_");
    assert DropUnderscores(a + "_") == a;
    DropAppend(a + "_", b);
  }

  /** Python reads digit groups: `int("2_019") == int("2019")`. */
  lemma ParseIntGrouped(a: string, b: string)
    requires IsDigits(a) && IsDigits(b)
    ensures ParseInt(a + "_" + b) == ParseInt(a + b) == Some(DigitsValue(a + b))
  {
    GroupedLiteral(a, b);
    assert IsDigits(a + b) by {
      forall k | 0 <= k < |a + b| ensures IsDigit((a + b)[k]) {
        if k >= |a| { assert (a + b)[k] == b[k - |a|]; }
      }
    }
  }

  /** Underscores out of place: at either end, or two in a row. */
  predicate BadGroups(d: string) {
    d != [] && (d[0] == '_' || d[|d| - 1] == '_' || exists k :: 0 <= k < |d| - 1 && d[k] == '_' && d[k + 1] == '_')
  }

  /** A doubled, leading or trailing underscore, after an optional sign, is refused. */
  lemma ParseIntBadGroups(s: string)
    requires var t := Strip(s);
      BadGroups(if t != [] && (t[0] == '+' || t[0] == '-') then t[1..] else t)
    ensures ParseInt(s) == None
  {
    var t := Strip(s);
    if t != [] && (t[0] == '+' || t[0] == '-') {
      assert !IsDigit(t[0]);
    }
  }

  /** Text that is not a literal, such as `"abc"`, `"1.5"` or `"20 19"`, is refused. */
  lemma ParseIntRefuses(s: string)
    requires s in ["abc", "1.5", "20 19", "-"]
    ensures ParseInt(s) == None
  {
    StripUnchanged(s);
    assert !IsIntLiteral(s) by {
      if s == "1.5" { assert s[1] == '.'; }
      else if s == "20 19" { assert s[2] == ' '; }
    }
  }

  function DigitChar(d: nat): char
    requires d < 10
  {
    ('0' as int + d) as char
  }

  /** `str(n)` for a natural number: its decimal digits, most significant first. */
  function NatToString(n: nat): (s: string)
    ensures IsDigits(s)
  {
    if n < 10 then [DigitChar(n)] else NatToString(n / 10) + [DigitChar(n % 10)]
  }

  /** `str(i)` for an integer. */
  function IntToString(i: int): (s: string)
    ensures s != [] && !IsSpace(s[0]) && !IsSpace(s[|s| - 1])
  {
    if i < 0 then "-" + NatToString(-i) else NatToString(i)
  }

  /** Reading back the digits of a natural number gives the number. */
  lemma {:induction false} NatToStringValue(n: nat)
    ensures DigitsValue(NatToString(n)) == n
  {
    if n >= 10 {
      var s := NatToString(n);
      assert s[..|s| - 1] == NatToString(n / 10);
      NatToStringValue(n / 10);
    }
  }

  /** `int(str(i)) == i`. */
  lemma ParseIntRoundTrip(i: int)
    ensures ParseInt(IntToString(i)) == Some(i)
  {
    if i < 0 {
      NegativeRoundTrip(i);
    } else {
      NatRoundTrip(i);
    }
  }

  lemma NatRoundTrip(n: nat)
    ensures ParseInt(IntToString(n)) == Some(n)
  {
    var d := NatToString(n);
    assert IntToString(n) == d;
    NatToStringValue(n);
    assert ParseInt(d) == Some(DigitsValue(d) as int);
  }

  lemma NegativeRoundTrip(i: int)
    requires i < 0
    ensures ParseInt(IntToString(i)) == Some(i)
  {
    var d := NatToString(-i);
    NegativeDigits(i);
    NegatedText(d);
  }

  /** `str(i)` of a negative `i` is a minus sign before the literal of `-i`. */
  lemma NegativeDigits(i: int)
    requires i < 0
    ensures var d := NatToString(-i);
      IntToString(i) == "-" + d && IsIntLiteral(d) && LiteralValue(d) == -i
  {
    var d := NatToString(-i);
    DigitsAreLiteral(d);
    NatToStringValue(-i);
  }

  /** A minus sign before a literal negates its value. */
  lemma NegatedText(d: string)
    requires IsIntLiteral(d)
    ensures ParseInt("-" + d) == Some(-(LiteralValue(d) as int))
  {
    var s := "-" + d;
    assert s[0] == '-' && s[1..] == d && s[|s| - 1] == d[|d| - 1];
    StripUnchanged(s);
  }

  /** A digit string is a literal without underscores. */
  lemma DigitsAreLiteral(d: string)
    requires IsDigits(d)
    ensures IsIntLiteral(d) && DropUnderscores(d) == d
  {
    assert '_' !in d by { assert forall k :: 0 <= k < |d| ==> IsDigit(d[k]); }
  }

  /** `sep.join(items)`. */
  function Join(items: seq<string>, sep: string): (r: string)
    ensures |items| == 1 ==> r == items[0]
  {
    if items == [] then [] else if |items| == 1 then items[0] else items[0] + sep + Join(items[1..], sep)
  }

  /** `s.replace(a, b)` for single characters `a` and `b`. */
  function ReplaceChar(s: string, a: char, b: char): (r: string)
    ensures |r| == |s|
    ensures a != b ==> a !in r
    ensures forall k :: 0 <= k < |s| && s[k] == a ==> r[k] == b
    ensures forall k :: 0 <= k < |s| && s[k] != a ==> r[k] == s[k]
  {
    seq(|s|, k requires 0 <= k < |s| => if s[k] == a then b else s[k])
  }

  /** Python's `int(x)` for a float `x`: truncation toward zero. */
  function Trunc(x: real): (n: int)
    ensures x >= 0.0 ==> n as real <= x < n as real + 1.0
    ensures x < 0.0 ==> n as real - 1.0 < x <= n as real
  {
    if x >= 0.0 then x.Floor else -((-x).Floor)
  }
}
