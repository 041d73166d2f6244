/**
 * `analyze_circular_voyages` (app.py lines 175-186): a vessel name such as
 * "Волга (3)" names voyage 3 of the vessel "Волга". The pattern
 * `^(.*?)\s*\((\d+)\)\s*$` is read here as a scan from the right end.
 */
module Voyages {
  import opened Common
  import opened Strings
  import opened Cells

  /**
   * The one way the pattern can match `s`, by positions: the first group is
   * `s[..b]`, whitespace runs up to the '(' at `open`, the digits run up to the
   * ')' at `e - 1`, and only whitespace follows. The first group holds no line
   * break (the pattern's `.` does not match one) and does not end in
   * whitespace (the lazy group stops where `\s*` can take over).
   */
  predicate SplitAt(s: string, b: nat, open: nat, e: nat) {
    && b <= open && open + 2 < e <= |s|
    && AllSpace(s[b..open])
    && s[open] == '('
    && AllDigits(s[open + 1..e - 1])
    && s[e - 1] == ')'
    && AllSpace(s[e..])
    && '\n' !in s[..b]
    && (b == 0 || !IsSpace(s[b - 1]))
  }

  /**
   * The match of the pattern, as its two groups: skip trailing whitespace,
   * require ')', take the digits before it, require '(' before them, and the
   * first group ends where the whitespace before '(' begins.
   */
  function MatchVoyageSuffix(s: string): (m: Option<(string, string)>)
    ensures m.Some? ==> exists b: nat, open: nat, e: nat :: SplitAt(s, b, open, e) && m.value == (s[..b], s[open + 1..e - 1])
  {
    var e := RunStart(s, |s|, IsSpace);
    if e == 0 || s[e - 1] != ')' then None
    else
      var d := RunStart(s, e - 1, IsDigit);
      if d == e - 1 || d == 0 || s[d - 1] != '(' then None
      else
        var b := RunStart(s, d - 1, IsSpace);
        if '\n' in s[..b] then None
        else
          assert SplitAt(s, b, d - 1, e);
          Some((s[..b], s[d..e - 1]))
  }

  /** A whitespace slice preceded by no whitespace is the run the scan finds. */
  lemma SpaceRun(s: string, lo: nat, hi: nat)
    requires lo <= hi <= |s| && AllSpace(s[lo..hi]) && (lo == 0 || !IsSpace(s[lo - 1]))
    ensures RunStart(s, hi, IsSpace) == lo
  {
    forall k | lo <= k < hi ensures IsSpace(s[k]) {
      assert s[k] == s[lo..hi][k - lo];
    }
    RunStartUnique(s, hi, IsSpace, lo);
  }

  /** A digit slice preceded by a non-digit is the run the scan finds. */
  lemma DigitRun(s: string, lo: nat, hi: nat)
    requires 0 < lo <= hi <= |s| && AllDigits(s[lo..hi]) && !IsDigit(s[lo - 1])
    ensures RunStart(s, hi, IsDigit) == lo
  {
    forall k | lo <= k < hi ensures IsDigit(s[k]) {
      assert s[k] == s[lo..hi][k - lo];
    }
    RunStartUnique(s, hi, IsDigit, lo);
  }

  /** Whenever `s` has the shape the pattern describes, the scan finds exactly those groups. */
  lemma MatchVoyageSuffixComplete(s: string, b: nat, open: nat, e: nat)
    requires SplitAt(s, b, open, e)
    ensures MatchVoyageSuffix(s) == Some((s[..b], s[open + 1..e - 1]))
  {
    assert s[e..] == s[e..|s|];
    SpaceRun(s, e, |s|);
    DigitRun(s, open + 1, e - 1);
    SpaceRun(s, b, open);
  }

  /** What the function returns: a base name (or the input itself) and a voyage number. */
  datatype Voyage = Voyage(base: Cell, number: nat)

  /**
   * `analyze_circular_voyages`: a missing or empty name comes back unchanged
   * with voyage 0; otherwise the stripped name is matched, giving the stripped
   * first group and the number, or the stripped name and 0. The base name of
   * any non-empty text is text without surrounding whitespace.
   */
  function AnalyzeCircularVoyages(v: Cell): (r: Voyage)
    ensures v.Missing? || v == Str("") ==> r == Voyage(v, 0)
    ensures v.Str? ==> r.base.Str?
    ensures v.Str? && v.s != "" ==> Trimmed(r.base.s)
  {
    match v
    case Missing => Voyage(v, 0)
    case Str(s) =>
      if s == "" then Voyage(v, 0)
      else
        var t := Strip(s);
        match MatchVoyageSuffix(t)
        case Some((g, ds)) => Voyage(Str(Strip(g)), DigitsValue(ds))
        case None => Voyage(Str(t), 0)
  }

  /** A prefix of a stripped string that does not end in whitespace is stripped too. */
  lemma StrippedPrefix(t: string, b: nat)
    requires Trimmed(t) && b <= |t| && (b == 0 || !IsSpace(t[b - 1]))
    ensures Strip(t[..b]) == t[..b]
  {
    var g := t[..b];
    assert Trimmed(g) by {
      if g != [] {
        assert g[0] == t[0];
      }
    }
    StrippedFixed(g);
  }

  /**
   * The three steps of the function on a non-empty name: `s` strips to `t`,
   * `t` matches with groups `g` and `ds`, and `g` is already stripped.
   */
  lemma AnalyzeMatched(s: string, t: string, g: string, ds: string)
    requires s != "" && Strip(s) == t && AllDigits(ds)
    requires MatchVoyageSuffix(t) == Some((g, ds)) && Strip(g) == g
    ensures AnalyzeCircularVoyages(Str(s)) == Voyage(Str(g), DigitsValue(ds))
  {
  }

  /** A name of the form base, whitespace, "(digits)" gives that base and that number. */
  lemma AnalyzeSplit(s: string, t: string, b: nat, open: nat, e: nat)
    requires s != "" && t == Strip(s) && SplitAt(t, b, open, e)
    ensures AnalyzeCircularVoyages(Str(s)) == Voyage(Str(t[..b]), DigitsValue(t[open + 1..e - 1]))
  {
    MatchVoyageSuffixComplete(t, b, open, e);
    StrippedPrefix(t, b);
    AnalyzeMatched(s, t, t[..b], t[open + 1..e - 1]);
  }

  /** A name without a trailing "(digits)" is voyage 0 of its stripped self. */
  lemma AnalyzeUnsuffixed(s: string)
    requires s != ""
    requires forall b: nat, open: nat, e: nat :: !SplitAt(Strip(s), b, open, e)
    ensures AnalyzeCircularVoyages(Str(s)) == Voyage(Str(Strip(s)), 0)
  {
    if MatchVoyageSuffix(Strip(s)).Some? {
      assert false;
    }
  }

  /** `" (" + ds + ")"` strips to `"(" + ds + ")"`. */
  lemma EmptyBaseStrip(ds: string)
    ensures Strip(" (" + ds + ")") == "(" + ds + ")"
  {
    var x := "(" + ds + ")";
    assert " (" + ds + ")" == " " + x + [];
    assert x[0] == '(' && x[|x| - 1] == ')';
    StripPadded(" ", x, []);
  }

  /** `"(" + ds + ")"` matches with an empty first group and second group `ds`. */
  lemma EmptyBaseMatch(ds: string)
    requires ds != [] && AllDigits(ds)
    ensures MatchVoyageSuffix("(" + ds + ")") == Some(([], ds))
  {
    var x := "(" + ds + ")";
    assert x[1..|x| - 1] == ds && x[..0] == [];
    assert SplitAt(x, 0, 0, |x|);
    MatchVoyageSuffixComplete(x, 0, 0, |x|);
  }

  /** `base + " (" + ds + ")"` matches with first group `base` and second group `ds`. */
  lemma BaseSplit(base: string, ds: string)
    requires base != [] && Trimmed(base) && '\n' !in base
    requires ds != [] && AllDigits(ds)
    ensures base + " (" + ds + ")" != []
    ensures MatchVoyageSuffix(base + " (" + ds + ")") == Some((base, ds))
  {
    var s := base + " (" + ds + ")";
    var open := |base| + 1;
    assert s[..|base|] == base;
    assert s[|base|..open] == " ";
    assert s[open + 1..|s| - 1] == ds;
    MatchVoyageSuffixComplete(s, |base|, open, |s|);
  }

  /** `base + " (" + ds + ")"` is already stripped when `base` is non-empty and stripped. */
  lemma BaseSuffixStripped(base: string, ds: string)
    requires base != [] && Trimmed(base)
    ensures Strip(base + " (" + ds + ")") == base + " (" + ds + ")"
  {
    var s := base + " (" + ds + ")";
    assert s[0] == base[0] && s[|s| - 1] == ')';
    StrippedFixed(s);
  }

  lemma RoundTripEmptyBase(base: string, ds: string)
    requires base == [] && ds != [] && AllDigits(ds)
    ensures AnalyzeCircularVoyages(Str(base + " (" + ds + ")")) == Voyage(Str(base), DigitsValue(ds))
  {
    assert base + " (" + ds + ")" == " (" + ds + ")";
    StrippedFixed(base);
    EmptyBaseStrip(ds);
    EmptyBaseMatch(ds);
    AnalyzeMatched(" (" + ds + ")", "(" + ds + ")", base, ds);
  }

  lemma RoundTripBase(base: string, ds: string)
    requires base != [] && Trimmed(base) && '\n' !in base
    requires ds != [] && AllDigits(ds)
    ensures AnalyzeCircularVoyages(Str(base + " (" + ds + ")")) == Voyage(Str(base), DigitsValue(ds))
  {
    StrippedFixed(base);
    BaseSplit(base, ds);
    BaseSuffixStripped(base, ds);
    AnalyzeMatched(base + " (" + ds + ")", base + " (" + ds + ")", base, ds);
  }

  /**
   * Writing a voyage number after a base name and reading it back gives both
   * back: `analyze(b + " (" + str(n) + ")") == (b, n)` for every stripped `b`
   * without a line break.
   */
  lemma VoyageRoundTrip(base: string, n: nat)
    requires Trimmed(base) && '\n' !in base
    ensures AnalyzeCircularVoyages(Str(base + " (" + NatToString(n) + ")")) == Voyage(Str(base), n)
  {
    var ds := NatToString(n);
    NatToStringRoundTrip(n);
    if base == [] {
      RoundTripEmptyBase(base, ds);
    } else {
      RoundTripBase(base, ds);
    }
  }
}
