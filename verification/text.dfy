/** String operations of the Java standard library that the modelled code relies on,
    written out with Java's semantics: `startsWith`, `contains`, `isBlank`, Hibernate's
    `@NotBlank` (a `trim()` test), `length()` in UTF-16 code units, `Long.toString`,
    `Collectors.joining`, `replace` and `split(",")[0]`. */
module Text {

  // ---------------------------------------------------------------------------
  // Prefixes and substrings
  // ---------------------------------------------------------------------------

  /** `s.startsWith(prefix)`. */
  predicate StartsWith(s: string, prefix: string) {
    |prefix| <= |s| && s[..|prefix|] == prefix
  }

  /** `s.endsWith(suffix)`. */
  predicate EndsWith(s: string, suffix: string) {
    |suffix| <= |s| && s[|s| - |suffix|..] == suffix
  }

  /** What lies between a prefix and a suffix of `s` that do not overlap. */
  function Middle(s: string, prefix: string, suffix: string): string
    requires |prefix| + |suffix| <= |s|
  {
    s[|prefix|..|s| - |suffix|]
  }

  /** A text built as `a + x + b` starts with `a`, ends with `b`, and has `x` between them. */
  lemma Framed(a: string, x: string, b: string)
    ensures var s := a + x + b;
      && StartsWith(s, a) && EndsWith(s, b) && |a| + |b| <= |s|
      && Middle(s, a, b) == x
  {
    var s := a + x + b;
    assert s[..|a|] == a;
    assert s[|s| - |b|..] == b;
    assert s[|a|..|s| - |b|] == x;
  }

  /** `s.contains(sub)`: `sub` occurs somewhere in `s`. */
  predicate Contains(s: string, sub: string)
    decreases |s|
  {
    StartsWith(s, sub) || (|s| > 0 && Contains(s[1..], sub))
  }

  /** Anything placed between two strings is contained in the result. */
  lemma {:induction false} ContainsMiddle(x: string, sub: string, y: string)
    ensures Contains(x + sub + y, sub)
    decreases |x|
  {
    if |x| == 0 {
      assert x + sub + y == sub + y;
      assert (sub + y)[..|sub|] == sub;
    } else {
      assert (x + sub + y)[1..] == x[1..] + sub + y;
      ContainsMiddle(x[1..], sub, y);
    }
  }

  // ---------------------------------------------------------------------------
  // Blankness
  // ---------------------------------------------------------------------------

  /** `Character.isWhitespace(c)`: the Unicode space, line and paragraph separators
      other than the three no-break spaces, plus the ASCII controls TAB, LF, VT, FF,
      CR and the four information separators U+001C..U+001F. */
  predicate IsJavaWhitespace(c: char) {
    || c == ' ' || c == '\t' || c == '\n' || c == '\U{000B}' || c == '\U{000C}' || c == '\r'
    || ('\U{001C}' <= c <= '\U{001F}')
    || c == '\U{1680}'
    || ('\U{2000}' <= c <= '\U{200A}' && c != '\U{2007}')
    || c == '\U{2028}' || c == '\U{2029}' || c == '\U{205F}' || c == '\U{3000}'
  }

  /** `s.isBlank()`: empty or only whitespace. */
  predicate IsBlank(s: string) {
    forall i :: 0 <= i < |s| ==> IsJavaWhitespace(s[i])
  }

  /** `s.trim().length() > 0`, the test behind Hibernate Validator's `@NotBlank`:
      `trim()` strips every character at or below U+0020. */
  predicate HasTrimmedContent(s: string) {
    exists i :: 0 <= i < |s| && s[i] > ' '
  }

  // ---------------------------------------------------------------------------
  // Case and length
  // ---------------------------------------------------------------------------

  /** Lower-cases one character (ASCII letters only). */
  function LowerChar(c: char): char {
    if 'A' <= c <= 'Z' then (c as int + 32) as char else c
  }

  /** `s.toLowerCase()` restricted to ASCII letters. */
  function ToLower(s: string): (r: string)
    ensures |r| == |s|
    ensures forall i :: 0 <= i < |s| ==> r[i] == LowerChar(s[i])
  {
    seq(|s|, i requires 0 <= i < |s| => LowerChar(s[i]))
  }

  /** `s.length()`: the number of UTF-16 code units, two for a supplementary character. */
  function JavaLength(s: string): (n: nat)
    ensures |s| <= n <= 2 * |s|
  {
    if |s| == 0 then 0
    else (if s[0] as int > 0xFFFF then 2 else 1) + JavaLength(s[1..])
  }

  // ---------------------------------------------------------------------------
  // Decimal numbers
  // ---------------------------------------------------------------------------

  predicate IsDigit(c: char) {
    '0' <= c <= '9'
  }

  predicate IsDigits(s: string) {
    forall i :: 0 <= i < |s| ==> IsDigit(s[i])
  }

  function DigitChar(d: nat): char
    requires d < 10
  {
    ('0' as int + d) as char
  }

  /** `Long.toString(n)` for a non-negative `n`. */
  function NatToString(n: nat): (s: string)
    ensures |s| >= 1 && IsDigits(s)
  {
    if n < 10 then [DigitChar(n)] else NatToString(n / 10) + [DigitChar(n % 10)]
  }

  /** `Long.toString(n)`, `String.valueOf(n)` and `%d` for any `n`. */
  function IntToString(n: int): string {
    if n < 0 then "-" + NatToString(-n) else NatToString(n)
  }

  /** The value of a string of decimal digits. */
  function ParseDigits(s: string): nat
    requires IsDigits(s)
  {
    if |s| == 0 then 0
    else ParseDigits(s[..|s| - 1]) * 10 + (s[|s| - 1] as int - '0' as int)
  }

  /** Printing a number and reading it back gives the number. */
  lemma {:induction false} ParseNatToString(n: nat)
    ensures ParseDigits(NatToString(n)) == n
  {
    if n >= 10 {
      var s := NatToString(n);
      var prefix := NatToString(n / 10);
      assert s == prefix + [DigitChar(n % 10)];
      assert s[..|s| - 1] == prefix;
      ParseNatToString(n / 10);
    }
  }

  /** The texts `Long.toString` produces: digits, optionally after a minus sign. */
  predicate IsIntText(s: string) {
    (|s| > 0 && IsDigits(s)) || (|s| > 1 && s[0] == '-' && IsDigits(s[1..]))
  }

  /** `Long.parseLong` on such a text. */
  function ParseInt(s: string): int
    requires IsIntText(s)
  {
    if s[0] == '-' then -(ParseDigits(s[1..]) as int) else ParseDigits(s)
  }

  /** Printing any integer and reading it back gives the integer. */
  lemma ParseIntToString(n: int)
    ensures IsIntText(IntToString(n)) && ParseInt(IntToString(n)) == n
  {
    if n < 0 {
      var s := IntToString(n);
      assert s[1..] == NatToString(-n);
      ParseNatToString(-n);
    } else {
      var s := NatToString(n);
      assert s[0] != '-' by { assert IsDigit(s[0]); }
      ParseNatToString(n);
    }
  }

  /** Distinct numbers print differently. */
  lemma NatToStringInjective(m: nat, n: nat)
    requires m != n
    ensures NatToString(m) != NatToString(n)
  {
    ParseNatToString(m);
    ParseNatToString(n);
  }

  // ---------------------------------------------------------------------------
  // Joining, replacing and splitting
  // ---------------------------------------------------------------------------

  /** `String.join(sep, parts)` / `Collectors.joining(sep)`. */
  function Join(parts: seq<string>, sep: string): string
    decreases |parts|
  {
    if |parts| == 0 then ""
    else if |parts| == 1 then parts[0]
    else parts[0] + sep + Join(parts[1..], sep)
  }

  /** Every joined part appears in the joined text. */
  lemma {:induction false} JoinContainsPart(parts: seq<string>, sep: string, i: nat)
    requires i < |parts|
    ensures Contains(Join(parts, sep), parts[i])
    decreases |parts|
  {
    if |parts| == 1 {
      ContainsMiddle("", parts[0], "");
      assert "" + parts[0] + "" == parts[0];
    } else if i == 0 {
      ContainsMiddle("", parts[0], sep + Join(parts[1..], sep));
      assert "" + parts[0] + (sep + Join(parts[1..], sep)) == Join(parts, sep);
    } else {
      JoinContainsPart(parts[1..], sep, i - 1);
      ContainsSuffix(parts[0] + sep, Join(parts[1..], sep), parts[i]);
    }
  }

  /** A substring of a suffix is a substring of the whole. */
  lemma {:induction false} ContainsSuffix(x: string, y: string, sub: string)
    requires Contains(y, sub)
    ensures Contains(x + y, sub)
    decreases |x|
  {
    if |x| == 0 {
      assert x + y == y;
    } else {
      assert (x + y)[1..] == x[1..] + y;
      ContainsSuffix(x[1..], y, sub);
    }
  }

  /** `s.replace(pat, "")`: removes the occurrences of `pat` found scanning left to right. */
  function RemoveAll(s: string, pat: string): (r: string)
    requires |pat| > 0
    ensures |r| <= |s|
    decreases |s|
  {
    if StartsWith(s, pat) then RemoveAll(s[|pat|..], pat)
    else if |s| == 0 then ""
    else [s[0]] + RemoveAll(s[1..], pat)
  }

  /** Text without the pattern is left untouched. */
  lemma {:induction false} RemoveAllAbsent(s: string, pat: string)
    requires |pat| > 0 && !Contains(s, pat)
    ensures RemoveAll(s, pat) == s
    decreases |s|
  {
    if |s| > 0 {
      RemoveAllAbsent(s[1..], pat);
      assert [s[0]] + s[1..] == s;
    }
  }

  /** `s.split(",")[0]` when `s` holds some character other than `sep`: the text before
      the first `sep` (the whole of `s` when there is none). */
  function BeforeFirst(s: string, sep: char): (r: string)
    ensures |r| <= |s| && r == s[..|r|]
    ensures sep !in r
    ensures |r| < |s| ==> s[|r|] == sep
  {
    if |s| == 0 || s[0] == sep then "" else [s[0]] + BeforeFirst(s[1..], sep)
  }
}
