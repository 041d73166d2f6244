/**
 * Whitespace, trimming and decimal digits as Python's `str` methods and the `re`
 * module see them. Every other module trims and reads numbers through these.
 */
module Strings {

  /**
   * Python's notion of whitespace (`str.isspace`, `str.strip()` without an
   * argument, and `\s` in a `str` pattern): the ASCII controls TAB..CR and
   * FS..US, the space, NEL, NO-BREAK SPACE and the Unicode space separators.
   */
  predicate IsSpace(c: char) {
    || c == ' '
    || '\t' <= c <= '\r'
    || '\U{1C}' <= c <= '\U{1F}'
    || c == '\U{85}'
    || c == '\U{A0}'
    || c == '\U{1680}'
    || '\U{2000}' <= c <= '\U{200A}'
    || c == '\U{2028}'
    || c == '\U{2029}'
    || c == '\U{202F}'
    || c == '\U{205F}'
    || c == '\U{3000}'
  }

  predicate AllSpace(s: string) {
    forall i :: 0 <= i < |s| ==> IsSpace(s[i])
  }

  /** Neither the first nor the last character is whitespace. */
  predicate Trimmed(s: string) {
    s == [] || (!IsSpace(s[0]) && !IsSpace(s[|s| - 1]))
  }

  /** Index of the first non-whitespace character at or after `i`, or `|s|`: the left scan of `strip()`. */
  function SkipSpace(s: string, i: nat): (k: nat)
    requires i <= |s|
    ensures i <= k <= |s|
    ensures forall m :: i <= m < k ==> IsSpace(s[m])
    ensures k == |s| || !IsSpace(s[k])
    decreases |s| - i
  {
    if i < |s| && IsSpace(s[i]) then SkipSpace(s, i + 1) else i
  }

  /**
   * One past the last non-whitespace character before `j`, but not below
   * `lo`: the right scan of `strip()`, which stops where the left scan ended.
   */
  function SkipSpaceBack(s: string, lo: nat, j: nat): (k: nat)
    requires lo <= j <= |s|
    ensures lo <= k <= j
    ensures forall m :: k <= m < j ==> IsSpace(s[m])
    ensures k == lo || !IsSpace(s[k - 1])
    decreases j
  {
    if j > lo && IsSpace(s[j - 1]) then SkipSpaceBack(s, lo, j - 1) else j
  }

  /** The left scan stops at the one position with the two properties it promises. */
  lemma {:induction false} SkipSpaceAt(s: string, i: nat, k: nat)
    requires i <= k <= |s|
    requires forall m :: i <= m < k ==> IsSpace(s[m])
    requires k == |s| || !IsSpace(s[k])
    ensures SkipSpace(s, i) == k
    decreases |s| - i
  {
    if i < k {
      SkipSpaceAt(s, i + 1, k);
    }
  }

  /** The right scan stops at the one position with the two properties it promises. */
  lemma {:induction false} SkipSpaceBackAt(s: string, lo: nat, j: nat, k: nat)
    requires lo <= k <= j <= |s|
    requires forall m :: k <= m < j ==> IsSpace(s[m])
    requires k == lo || !IsSpace(s[k - 1])
    ensures SkipSpaceBack(s, lo, j) == k
    decreases j
  {
    if k < j {
      SkipSpaceBackAt(s, lo, j - 1, k);
    }
  }

  /** Where the result of `strip()` starts. */
  function StripStart(s: string): nat {
    SkipSpace(s, 0)
  }

  /** Where the result of `strip()` ends. */
  function StripEnd(s: string): (j: nat)
    ensures StripStart(s) <= j <= |s|
  {
    SkipSpaceBack(s, StripStart(s), |s|)
  }

  /** Python's `str.strip()`: the text between the two scans. */
  function Strip(s: string): (r: string)
    ensures Trimmed(r) && |r| <= |s|
  {
    s[StripStart(s)..StripEnd(s)]
  }

  /**
   * Stripping is exact: whatever whitespace surrounds a trimmed string,
   * `strip()` gives back that string.
   */
  lemma StripPadded(w1: string, x: string, w2: string)
    requires AllSpace(w1) && AllSpace(w2) && Trimmed(x)
    ensures Strip(w1 + x + w2) == x
  {
    var s := w1 + x + w2;
    var a, b := |w1|, |w1| + |x|;
    forall m | 0 <= m < a ensures IsSpace(s[m]) {
      assert s[m] == w1[m];
    }
    forall m | b <= m < |s| ensures IsSpace(s[m]) {
      assert s[m] == w2[m - b];
    }
    if x == [] {
      SkipSpaceAt(s, 0, |s|);
    } else {
      assert s[a] == x[0] && s[b - 1] == x[|x| - 1];
      SkipSpaceAt(s, 0, a);
      SkipSpaceBackAt(s, a, |s|, b);
      assert s[a..b] == x;
    }
  }

  /** A string without whitespace at either end strips to itself. */
  lemma StrippedFixed(x: string)
    requires Trimmed(x)
    ensures Strip(x) == x
  {
    SkipSpaceAt(x, 0, 0);
    SkipSpaceBackAt(x, 0, |x|, |x|);
  }

  /** `strip()` leaves a stripped string alone. */
  lemma StripIdempotent(s: string)
    ensures Strip(Strip(s)) == Strip(s)
  {
    StrippedFixed(Strip(s));
  }

  /** The substring test `p in s` of Python. */
  predicate ContainsAt(s: string, p: string, i: nat) {
    i + |p| <= |s| && s[i..i + |p|] == p
  }

  predicate Contains(s: string, p: string) {
    exists i: nat :: i <= |s| && ContainsAt(s, p, i)
  }

  predicate IsDigit(c: char) {
    '0' <= c <= '9'
  }

  predicate AllDigits(s: string) {
    forall i :: 0 <= i < |s| ==> IsDigit(s[i])
  }

  function DigitValue(c: char): nat
    requires IsDigit(c)
  {
    c as int - '0' as int
  }

  function DigitChar(n: nat): (c: char)
    requires n < 10
    ensures IsDigit(c) && DigitValue(c) == n
  {
    ('0' as int + n) as char
  }

  /** Python's `int(s)` for a string of ASCII decimal digits (leading zeros allowed). */
  function DigitsValue(s: string): nat
    requires AllDigits(s)
  {
    if s == [] then 0
    else DigitsValue(s[..|s| - 1]) * 10 + DigitValue(s[|s| - 1])
  }

  /** Python's `str(n)` for a natural number. */
  function NatToString(n: nat): (s: string)
    ensures s != [] && AllDigits(s)
  {
    if n < 10 then [DigitChar(n)]
    else NatToString(n / 10) + [DigitChar(n % 10)]
  }

  /** `int(str(n)) == n`. */
  lemma {:induction false} NatToStringRoundTrip(n: nat)
    ensures DigitsValue(NatToString(n)) == n
  {
    var s := NatToString(n);
    if n >= 10 {
      assert s[..|s| - 1] == NatToString(n / 10);
      NatToStringRoundTrip(n / 10);
    }
  }

  /**
   * Start of the longest run of characters satisfying `p` that ends just
   * before position `j`: a scan from `j` towards the left.
   */
  function RunStart(s: string, j: nat, p: char -> bool): (d: nat)
    requires j <= |s|
    ensures d <= j
    ensures forall k :: d <= k < j ==> p(s[k])
    ensures d == 0 || !p(s[d - 1])
    decreases j
  {
    if j > 0 && p(s[j - 1]) then RunStart(s, j - 1, p) else j
  }

  /** The run is maximal, so any position with the same two properties is its start. */
  lemma RunStartUnique(s: string, j: nat, p: char -> bool, d0: nat)
    requires d0 <= j <= |s|
    requires forall k :: d0 <= k < j ==> p(s[k])
    requires d0 == 0 || !p(s[d0 - 1])
    ensures RunStart(s, j, p) == d0
  {
  }
}
