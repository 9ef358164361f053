/**
 * Character classes and string operations of Python that the colour pipeline
 * relies on: the `\w`, `\s` and `\d` classes of the `re` module, `str.strip()`,
 * `str.lower()`, the `in` operator on strings and `str.replace`.
 * Characters are restricted to their ASCII meaning (see README).
 */
module Text {

  /** `\s` in a `re` pattern and what `str.strip()` removes: the ASCII characters for which `str.isspace()` holds. */
  predicate IsSpace(c: char) {
    c == ' ' || c == '\t' || c == '\n' || c == '\r' || c == '\U{000B}' || c == '\U{000C}'
    || ('\U{001C}' <= c <= '\U{001F}')
  }

  /** `\d` in a `re` pattern: a decimal digit. */
  predicate IsDigit(c: char) {
    '0' <= c <= '9'
  }

  /** `\w` in a `re` pattern: a letter, a digit or the underscore. */
  predicate IsWordChar(c: char) {
    ('a' <= c <= 'z') || ('A' <= c <= 'Z') || IsDigit(c) || c == '_'
  }

  predicate AllChars(s: string, p: char -> bool) {
    forall k :: 0 <= k < |s| ==> p(s[k])
  }

  /** The end of the longest run of characters satisfying `p` that starts at `i`: what a greedy `p+` or `p*` consumes. */
  function SkipWhile(s: string, i: nat, p: char -> bool): (j: nat)
    requires i <= |s|
    ensures i <= j <= |s|
    ensures forall k :: i <= k < j ==> p(s[k])
    ensures j == |s| || !p(s[j])
    decreases |s| - i
  {
    if i < |s| && p(s[i]) then SkipWhile(s, i + 1, p) else i
  }

  /** The start of the longest run of characters satisfying `p` that ends at `j` and stays at or after `lo`. */
  function SkipBackWhile(s: string, lo: nat, j: nat, p: char -> bool): (i: nat)
    requires lo <= j <= |s|
    ensures lo <= i <= j
    ensures forall k :: i <= k < j ==> p(s[k])
    ensures i == lo || !p(s[i - 1])
    decreases j
  {
    if lo < j && p(s[j - 1]) then SkipBackWhile(s, lo, j - 1, p) else j
  }

  /** A string with no whitespace at either end. */
  predicate IsTrimmed(s: string) {
    s == [] || (!IsSpace(s[0]) && !IsSpace(s[|s| - 1]))
  }

  /** Python's `str.strip()` without arguments. */
  function Strip(s: string): (r: string)
    ensures IsTrimmed(r)
    ensures forall c :: c in r ==> c in s
    ensures |r| <= |s|
  {
    var a := SkipWhile(s, 0, IsSpace);
    var b := SkipBackWhile(s, a, |s|, IsSpace);
    assert forall c :: c in s[a..b] ==> c in s by {
      forall c | c in s[a..b] ensures c in s {
        var k :| 0 <= k < b - a && s[a..b][k] == c;
        assert s[a + k] == c;
      }
    }
    s[a..b]
  }

  /** `strip()` removes a run of whitespace at the front and one at the back, and keeps everything between them. */
  lemma StripRemovesOuterBlanks(s: string)
    ensures exists a, b :: 0 <= a <= b <= |s| && Strip(s) == s[a..b] && AllChars(s[..a], IsSpace) && AllChars(s[b..], IsSpace)
  {
    var a := SkipWhile(s, 0, IsSpace);
    var b := SkipBackWhile(s, a, |s|, IsSpace);
    forall k | 0 <= k < a ensures IsSpace(s[..a][k]) {
      assert s[..a][k] == s[k];
    }
    forall k | 0 <= k < |s| - b ensures IsSpace(s[b..][k]) {
      assert s[b..][k] == s[b + k];
    }
    assert Strip(s) == s[a..b];
  }

  /** A string without surrounding whitespace is left alone by `strip()`; in particular `strip()` is idempotent. */
  lemma StripTrimmed(s: string)
    requires IsTrimmed(s)
    ensures Strip(s) == s
  {
  }

  /** `needle in haystack` for strings. */
  predicate Contains(haystack: string, needle: string) {
    exists i :: 0 <= i <= |haystack| && OccursAt(haystack, needle, i)
  }

  /** `needle` occurs in `haystack` starting at index `i`. */
  predicate OccursAt(haystack: string, needle: string, i: nat) {
    i + |needle| <= |haystack| && haystack[i..i + |needle|] == needle
  }

  /** `str.lower()` on ASCII letters. */
  function Lower(s: string): (r: string)
    ensures |r| == |s|
    ensures forall k :: 0 <= k < |s| ==> r[k] == (if 'A' <= s[k] <= 'Z' then (s[k] as int + 32) as char else s[k])
  {
    seq(|s|, k requires 0 <= k < |s| => if 'A' <= s[k] <= 'Z' then (s[k] as int + 32) as char else s[k])
  }

  /**
   * Python's `s.replace(pat, rep)`: every non-overlapping occurrence of `pat`,
   * found from left to right, is replaced by `rep`.
   */
  function ReplaceAll(s: string, pat: string, rep: string): string
    requires pat != []
    decreases |s|
  {
    if |s| < |pat| then s
    else if s[..|pat|] == pat then rep + ReplaceAll(s[|pat|..], pat, rep)
    else [s[0]] + ReplaceAll(s[1..], pat, rep)
  }

  /** Replacing a whole string by `rep` gives `rep`. */
  lemma ReplaceWhole(pat: string, rep: string)
    requires pat != []
    ensures ReplaceAll(pat, pat, rep) == rep
  {
    assert pat[..|pat|] == pat;
    assert ReplaceAll(pat[|pat|..], pat, rep) == [];
  }

  /** A run of `p` characters from `i` to `j` that stops at `j` is exactly what `SkipWhile` consumes. */
  lemma {:induction false} SkipWhileStops(s: string, i: nat, j: nat, p: char -> bool)
    requires i <= j <= |s|
    requires forall k :: i <= k < j ==> p(s[k])
    requires j == |s| || !p(s[j])
    ensures SkipWhile(s, i, p) == j
    decreases j - i
  {
    if i < j {
      SkipWhileStops(s, i + 1, j, p);
    }
  }
}
