/**
 * Character classes and small string functions shared by the parser, the
 * e-mail check and the community forms. Python's `\d`, `\s`, `str.strip()`
 * and `str.lower()` are Unicode-aware; here they are restricted to ASCII.
 */
module Text {

  /** `\d` restricted to ASCII. */
  predicate IsDigit(c: char) {
    '0' <= c <= '9'
  }

  /** `\s` (and `str.isspace`) restricted to ASCII: tab, line feed, vertical
      tab, form feed, carriage return, the four separators 0x1C-0x1F, and space. */
  predicate IsSpace(c: char) {
    c == ' ' || (9 <= c as int <= 13) || (28 <= c as int <= 31)
  }

  predicate IsAsciiLetter(c: char) {
    ('a' <= c <= 'z') || ('A' <= c <= 'Z')
  }

  /** `s[lo..hi]` is in range and every character of it satisfies `p`. */
  predicate AllIn(s: string, lo: nat, hi: nat, p: char -> bool) {
    lo <= hi <= |s| && forall k :: lo <= k < hi ==> p(s[k])
  }

  /** Every character of `s` is a digit. */
  predicate Digits(s: string) {
    forall k :: 0 <= k < |s| ==> IsDigit(s[k])
  }

  /** Every character of `s` is whitespace. */
  predicate Spaces(s: string) {
    forall k :: 0 <= k < |s| ==> IsSpace(s[k])
  }

  /** The end of the longest run of characters satisfying `p` that starts at
      `i`: what a greedy `p*` consumes from position `i`. */
  function RunEnd(s: string, i: nat, p: char -> bool): (j: nat)
    requires i <= |s|
    ensures i <= j <= |s|
    ensures AllIn(s, i, j, p)
    ensures j < |s| ==> !p(s[j])
    decreases |s| - i
  {
    if i < |s| && p(s[i]) then RunEnd(s, i + 1, p) else i
  }

  /** A run of `p`-characters that is followed by a non-`p` character (or the
      end of the string) is exactly the greedy run. */
  lemma {:induction false} RunEndUnique(s: string, i: nat, j: nat, p: char -> bool)
    requires i <= |s|
    requires AllIn(s, i, j, p)
    requires j == |s| || !p(s[j])
    ensures RunEnd(s, i, p) == j
    decreases j - i
  {
    if i < j {
      RunEndUnique(s, i + 1, j, p);
    }
  }

  function DigitValue(c: char): (d: nat)
    requires IsDigit(c)
    ensures d < 10
  {
    c as int - '0' as int
  }

  function DigitChar(d: nat): (c: char)
    requires d < 10
    ensures IsDigit(c) && DigitValue(c) == d
  {
    ('0' as int + d) as char
  }

  function Pow10(n: nat): (p: nat)
    ensures p >= 1
  {
    if n == 0 then 1 else 10 * Pow10(n - 1)
  }

  /** The number a run of decimal digits denotes, most significant first
      (what Python's `int()` gives for such a string). */
  function DigitsValue(s: string): nat
    requires Digits(s)
  {
    if s == [] then 0 else 10 * DigitsValue(s[..|s| - 1]) + DigitValue(s[|s| - 1])
  }

  /** k digits denote less than 10^k. */
  lemma {:induction false} DigitsBelowPow10(s: string)
    requires Digits(s)
    ensures DigitsValue(s) < Pow10(|s|)
  {
    if s != [] {
      DigitsBelowPow10(s[..|s| - 1]);
    }
  }

  /** Python's `str(n)` for a non-negative integer. */
  function DecimalString(n: nat): (s: string)
    ensures |s| >= 1
    ensures Digits(s)
    ensures n > 0 ==> s[0] != '0'
  {
    if n < 10 then [DigitChar(n)] else DecimalString(n / 10) + [DigitChar(n % 10)]
  }

  /** `int(str(n)) == n`. */
  lemma {:induction false} DecimalStringValue(n: nat)
    ensures DigitsValue(DecimalString(n)) == n
  {
    var s := DecimalString(n);
    if n >= 10 {
      DecimalStringValue(n / 10);
      assert s[..|s| - 1] == DecimalString(n / 10);
    }
  }

  /** A number in [10^(k-1), 10^k) is written with exactly k digits. */
  lemma {:induction false} DecimalStringLength(n: nat, k: nat)
    requires k >= 1
    requires Pow10(k - 1) <= n < Pow10(k)
    ensures |DecimalString(n)| == k
  {
    if n >= 10 {
      assert k >= 2;
      DecimalStringLength(n / 10, k - 1);
    }
  }

  /** Index of the first character that is not whitespace. */
  function StripStart(s: string): (i: nat)
    ensures i <= |s|
    ensures AllIn(s, 0, i, IsSpace)
    ensures i < |s| ==> !IsSpace(s[i])
  {
    RunEnd(s, 0, IsSpace)
  }

  /** Index just past the last character that is not whitespace (at least `lo`). */
  function StripEnd(s: string, lo: nat): (j: nat)
    requires lo <= |s|
    ensures lo <= j <= |s|
    ensures AllIn(s, j, |s|, IsSpace)
    ensures j > lo ==> !IsSpace(s[j - 1])
    decreases |s| - lo
  {
    if |s| == lo then lo
    else if IsSpace(s[|s| - 1]) then StripEnd(s[..|s| - 1], lo)
    else |s|
  }

  /** Python's `str.strip()` with ASCII whitespace. */
  function Strip(s: string): (r: string)
    ensures |r| <= |s|
    ensures r != [] ==> !IsSpace(r[0]) && !IsSpace(r[|r| - 1])
    ensures r == [] <==> Spaces(s)
  {
    var i := StripStart(s);
    var j := StripEnd(s, i);
    s[i..j]
  }

  /** What `strip` removes is whitespace on either side and nothing else. */
  lemma StripDecomposes(s: string)
    ensures exists i, j ::
              && 0 <= i <= j <= |s| && Strip(s) == s[i..j]
              && AllIn(s, 0, i, IsSpace) && AllIn(s, j, |s|, IsSpace)
  {
    var i := StripStart(s);
    var j := StripEnd(s, i);
    assert Strip(s) == s[i..j];
  }

  /** Stripping twice is stripping once. */
  lemma StripIdempotent(s: string)
    ensures Strip(Strip(s)) == Strip(s)
  {
    var r := Strip(s);
    if r != [] {
      RunEndUnique(r, 0, 0, IsSpace);
      assert StripEnd(r, 0) == |r|;
    }
  }

  /** ASCII `str.lower()`. */
  function Lower(s: string): (r: string)
    ensures |r| == |s|
    ensures forall k :: 0 <= k < |s| ==> r[k] == (if 'A' <= s[k] <= 'Z' then (s[k] as int + 32) as char else s[k])
  {
    if s == [] then [] else Lower(s[..|s| - 1]) + [if 'A' <= s[|s| - 1] <= 'Z' then (s[|s| - 1] as int + 32) as char else s[|s| - 1]]
  }

  /** `needle` occurs in `haystack` starting at index `i`. */
  predicate OccursAt(haystack: string, needle: string, i: nat) {
    i + |needle| <= |haystack| && haystack[i..i + |needle|] == needle
  }

  /** Python's `needle in haystack` for strings. */
  predicate Contains(haystack: string, needle: string) {
    exists i: nat | i <= |haystack| :: OccursAt(haystack, needle, i)
  }

  /** `haystack.count(c)` for a single character. */
  function CountChar(s: string, c: char): nat {
    if s == [] then 0 else CountChar(s[..|s| - 1], c) + (if s[|s| - 1] == c then 1 else 0)
  }

  lemma {:induction false} CountCharAppend(a: string, b: string, c: char)
    ensures CountChar(a + b, c) == CountChar(a, c) + CountChar(b, c)
    decreases |b|
  {
    if b == [] {
      assert a + b == a;
    } else {
      assert (a + b)[..|a + b| - 1] == a + b[..|b| - 1];
      CountCharAppend(a, b[..|b| - 1], c);
    }
  }

  lemma {:induction false} CountCharAbsent(s: string, c: char)
    requires forall k :: 0 <= k < |s| ==> s[k] != c
    ensures CountChar(s, c) == 0
    decreases |s|
  {
    if s != [] {
      CountCharAbsent(s[..|s| - 1], c);
    }
  }
}
