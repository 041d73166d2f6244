/**
 * Cleaning of single cells: `safe_str_convert` (app.py lines 86-89) and
 * `parse_date` with its `strptime(..., '%d.%m.%Y')` (lines 59-68).
 */
module Cells {
  import opened Common
  import opened Strings

  /** A cell as the sheet delivers it: missing (NaN), or text. */
  datatype Cell = Missing | Str(s: string)

  /** A cell counts as empty when it is missing, is "", or strips to "nan". */
  predicate IsBlank(c: Cell) {
    c.Missing? || c.s == "" || Strip(c.s) == "nan"
  }

  /**
   * `safe_str_convert`: blank cells become "", anything else is stripped. The
   * result is trimmed and never the placeholder "nan".
   */
  function SafeStr(c: Cell): (r: string)
    ensures Trimmed(r) && r != "nan"
    ensures r == "" <==> IsBlank(c) || Strip(c.s) == ""
    ensures r != "" ==> r == Strip(c.s)
  {
    match c
    case Missing => ""
    case Str(s) => if s == "" || Strip(s) == "nan" then "" else Strip(s)
  }

  /** Cleaning a cleaned value changes nothing. */
  lemma SafeStrIdempotent(c: Cell)
    ensures SafeStr(Str(SafeStr(c))) == SafeStr(c)
  {
    var r := SafeStr(c);
    if r != "" {
      StrippedFixed(r);
    }
  }

  /** Surrounding whitespace is all that cleaning removes from real text. */
  lemma SafeStrPadded(w1: string, x: string, w2: string)
    requires AllSpace(w1) && AllSpace(w2) && Trimmed(x) && x != "nan"
    ensures SafeStr(Str(w1 + x + w2)) == x
  {
    StripPadded(w1, x, w2);
  }

  /** A calendar date (the time of day of pandas' timestamps is not modelled). */
  datatype Date = Date(year: int, month: int, day: int)

  predicate IsLeapYear(y: int) {
    y % 4 == 0 && (y % 100 != 0 || y % 400 == 0)
  }

  function DaysInMonth(y: int, m: int): int
    requires 1 <= m <= 12
  {
    if m == 2 then (if IsLeapYear(y) then 29 else 28)
    else if m == 4 || m == 6 || m == 9 || m == 11 then 30
    else 31
  }

  /** What Python's `datetime` accepts: years 1 to 9999, proleptic Gregorian calendar. */
  predicate ValidDate(d: Date) {
    && 1 <= d.year <= 9999
    && 1 <= d.month <= 12
    && 1 <= d.day <= DaysInMonth(d.year, d.month)
  }

  predicate IsNonZeroDigit(c: char) {
    '1' <= c <= '9'
  }

  /** The alternatives of strptime's `%d`: `3[01] | [12]\d | 0[1-9] | [1-9] | ' '[1-9]`. */
  predicate DayToken(t: string) {
    || (|t| == 2 && t[0] == '3' && (t[1] == '0' || t[1] == '1'))
    || (|t| == 2 && (t[0] == '1' || t[0] == '2') && IsDigit(t[1]))
    || (|t| == 2 && t[0] == '0' && IsNonZeroDigit(t[1]))
    || (|t| == 1 && IsNonZeroDigit(t[0]))
    || (|t| == 2 && t[0] == ' ' && IsNonZeroDigit(t[1]))
  }

  /** The alternatives of strptime's `%m`: `1[0-2] | 0[1-9] | [1-9]`. */
  predicate MonthToken(t: string) {
    || (|t| == 2 && t[0] == '1' && '0' <= t[1] <= '2')
    || (|t| == 2 && t[0] == '0' && IsNonZeroDigit(t[1]))
    || (|t| == 1 && IsNonZeroDigit(t[0]))
  }

  /** `int()` of a day or month token; a leading blank counts as nothing. */
  function TokenValue(t: string): nat
    requires DayToken(t) || MonthToken(t)
  {
    if |t| == 1 then DigitValue(t[0])
    else (if t[0] == ' ' then 0 else DigitValue(t[0]) * 10) + DigitValue(t[1])
  }

  /**
   * `datetime.strptime(t, '%d.%m.%Y')`, None where it raises: the day runs up
   * to the first '.', the month up to the second, the year is exactly four
   * digits with nothing after it, and the three must name a real date.
   */
  function StrptimeDayMonthYear(t: string): (r: Option<Date>)
    ensures r.Some? ==> ValidDate(r.value)
  {
    var p1 := IndexOf(t, '.');
    if p1 == |t| then None
    else
      var rest := t[p1 + 1..];
      var p2 := IndexOf(rest, '.');
      if p2 == |rest| then None
      else
        var dd, mm, yyyy := t[..p1], rest[..p2], rest[p2 + 1..];
        if DayToken(dd) && MonthToken(mm) && |yyyy| == 4 && AllDigits(yyyy) then
          var d := Date(DigitsValue(yyyy), TokenValue(mm), TokenValue(dd));
          if ValidDate(d) then Some(d) else None
        else None
  }

  /**
   * `parse_date`: blank cells give no date; otherwise the stripped text is read
   * as dd.mm.yyyy, and when that fails the original text goes to pandas'
   * general parser, which is the uninterpreted `fallback` here.
   */
  function ParseDate(c: Cell, fallback: string -> Option<Date>): (r: Option<Date>)
    ensures IsBlank(c) ==> r.None?
    ensures !IsBlank(c) && StrptimeDayMonthYear(Strip(c.s)).Some? ==> r == StrptimeDayMonthYear(Strip(c.s))
    ensures !IsBlank(c) && StrptimeDayMonthYear(Strip(c.s)).None? ==> r == fallback(c.s)
  {
    match c
    case Missing => None
    case Str(s) =>
      if s == "" || Strip(s) == "nan" then None
      else
        match StrptimeDayMonthYear(Strip(s))
        case Some(d) => Some(d)
        case None => fallback(s)
  }

  /** Two decimal digits, with a leading zero below ten. */
  function TwoDigits(n: nat): (s: string)
    requires n < 100
    ensures |s| == 2 && AllDigits(s)
  {
    [DigitChar(n / 10), DigitChar(n % 10)]
  }

  /** Four decimal digits, zero-padded. */
  function FourDigits(n: nat): (s: string)
    requires n < 10000
    ensures |s| == 4 && AllDigits(s)
  {
    [DigitChar(n / 1000), DigitChar(n / 100 % 10), DigitChar(n / 10 % 10), DigitChar(n % 10)]
  }

  /** A date written the way the sheet writes it: `dd.mm.yyyy`. */
  function FormatDate(d: Date): string
    requires ValidDate(d)
  {
    TwoDigits(d.day) + "." + TwoDigits(d.month) + "." + FourDigits(d.year)
  }

  lemma FourDigitsValue(n: nat)
    requires n < 10000
    ensures DigitsValue(FourDigits(n)) == n
  {
    var s := FourDigits(n);
    var s1, s2, s3 := s[..1], s[..2], s[..3];
    assert s1 == [DigitChar(n / 1000)] && s1[..0] == [];
    assert s2 == [DigitChar(n / 1000), DigitChar(n / 100 % 10)] && s2[..1] == s1;
    assert s3 == [DigitChar(n / 1000), DigitChar(n / 100 % 10), DigitChar(n / 10 % 10)] && s3[..2] == s2;
    assert s[..3] == s3;
    assert DigitsValue(s1) == n / 1000;
    assert n / 1000 == n / 100 / 10;
    assert DigitsValue(s2) == n / 100;
    assert n / 100 == n / 10 / 10;
    assert DigitsValue(s3) == n / 10;
  }

  /** A day of the month written with two digits is a `%d` token of that value. */
  lemma TwoDigitsDay(n: nat)
    requires 1 <= n <= 31
    ensures DayToken(TwoDigits(n)) && TokenValue(TwoDigits(n)) == n
  {
  }

  /** A month written with two digits is a `%m` token of that value. */
  lemma TwoDigitsMonth(n: nat)
    requires 1 <= n <= 12
    ensures MonthToken(TwoDigits(n)) && TokenValue(TwoDigits(n)) == n
  {
  }

  /** The two '.' searches of strptime split `dd.mm.yyyy` back into its three fields. */
  lemma SplitFields(t: string, dd: string, mm: string, yyyy: string)
    requires t == dd + "." + mm + "." + yyyy
    requires '.' !in dd && '.' !in mm
    ensures IndexOf(t, '.') == |dd| && t[..|dd|] == dd
    ensures var rest := t[|dd| + 1..];
      IndexOf(rest, '.') == |mm| && rest[..|mm|] == mm && rest[|mm| + 1..] == yyyy
  {
    assert t[|dd|] == '.' && t[..|dd|] == dd;
    var rest := t[|dd| + 1..];
    assert rest == mm + "." + yyyy;
    assert rest[|mm|] == '.' && rest[..|mm|] == mm;
    assert rest[|mm| + 1..] == yyyy;
  }

  /** strptime reads back every date written as dd.mm.yyyy. */
  lemma StrptimeFormatted(d: Date)
    requires ValidDate(d)
    ensures StrptimeDayMonthYear(FormatDate(d)) == Some(d)
  {
    var dd, mm, yyyy := TwoDigits(d.day), TwoDigits(d.month), FourDigits(d.year);
    assert '.' !in dd && '.' !in mm by {
      assert IsDigit(dd[0]) && IsDigit(dd[1]) && IsDigit(mm[0]) && IsDigit(mm[1]);
    }
    SplitFields(FormatDate(d), dd, mm, yyyy);
    FourDigitsValue(d.year);
    TwoDigitsDay(d.day);
    TwoDigitsMonth(d.month);
  }

  /**
   * A cell holding a valid date as dd.mm.yyyy, with any whitespace around it,
   * parses to that date whatever the fallback parser would do.
   */
  lemma ParseDateFormatted(d: Date, w1: string, w2: string, fallback: string -> Option<Date>)
    requires ValidDate(d) && AllSpace(w1) && AllSpace(w2)
    ensures ParseDate(Str(w1 + FormatDate(d) + w2), fallback) == Some(d)
  {
    var t := FormatDate(d);
    assert IsDigit(t[0]) && IsDigit(t[|t| - 1]);
    StripPadded(w1, t, w2);
    assert t != "nan" by { assert t[0] != 'n'; }
    StrptimeFormatted(d);
  }
}
