/**
 * Dates as the utilities use them: Python's `datetime.date` with its ordering, its
 * `toordinal()` day count, `strftime('%Y-%m-%d')`, and `compute_custom_week`, the
 * school-week numbering that starts on Monday 8 September 2025 and skips the break
 * from 15 to 28 February 2026.
 */
module Calendar {
  import Numerals

  /** A calendar date, as `datetime.date` holds it. */
  datatype Date = Date(year: nat, month: nat, day: nat)

  predicate IsLeap(y: nat) {
    y % 4 == 0 && (y % 100 != 0 || y % 400 == 0)
  }

  function DaysInMonth(y: nat, m: nat): nat
    requires 1 <= m <= 12
  {
    if m == 2 then (if IsLeap(y) then 29 else 28)
    else if m == 4 || m == 6 || m == 9 || m == 11 then 30
    else 31
  }

  /** The dates `datetime.date` accepts. */
  predicate ValidDate(d: Date) {
    1 <= d.year <= 9999 && 1 <= d.month <= 12 && 1 <= d.day <= DaysInMonth(d.year, d.month)
  }

  /** Python's `a < b` on dates: lexicographic on (year, month, day). */
  predicate DateLess(a: Date, b: Date) {
    a.year < b.year ||
    (a.year == b.year && (a.month < b.month || (a.month == b.month && a.day < b.day)))
  }

  function DaysBeforeMonth(y: nat, m: nat): nat
    requires 1 <= m <= 12
  {
    [0, 31, 59, 90, 120, 151, 181, 212, 243, 273, 304, 334][m - 1] + (if m > 2 && IsLeap(y) then 1 else 0)
  }

  /** Python's `date.toordinal()`: day 1 is 1 January of year 1. */
  function Ordinal(d: Date): int
    requires ValidDate(d)
  {
    var y := d.year - 1;
    y * 365 + y / 4 - y / 100 + y / 400 + DaysBeforeMonth(d.year, d.month) + d.day
  }

  /** `n` written in decimal and left-padded with zeros to `width` characters. */
  function ZeroPad(n: nat, width: nat): (s: string)
    ensures s != [] && Numerals.AllDigits(s)
  {
    var d := Numerals.Digits(n);
    if |d| >= width then d else seq(width - |d|, _ => '0') + d
  }

  /** The padded digits read back as `n`; they are at least `width` long, and exactly
      `width` long for a number below `10^width`. */
  lemma ZeroPadValue(n: nat, width: nat)
    ensures var s := ZeroPad(n, width);
            |s| >= width && Numerals.DigitsValue(s) == n &&
            (width >= 1 && n < Numerals.Pow10(width) ==> |s| == width)
  {
    var d := Numerals.Digits(n);
    Numerals.DigitsRoundTrip(n);
    Numerals.DigitsLength(n, width);
    if |d| < width {
      Numerals.LeadingZeros(width - |d|, d);
    }
  }

  /** `d.strftime('%Y-%m-%d')`. */
  function FormatDate(d: Date): (s: string)
    ensures s != [] && Numerals.IsDigit(s[0]) && Numerals.IsDigit(s[|s| - 1])
  {
    ZeroPad(d.year, 4) + "-" + ZeroPad(d.month, 2) + "-" + ZeroPad(d.day, 2)
  }

  /** A valid date is written as ten characters, `YYYY-MM-DD`: four digits reading as the
      year, a dash, two digits reading as the month, a dash, two digits reading as the day. */
  lemma FormatDateShape(d: Date)
    requires ValidDate(d)
    ensures var s := FormatDate(d);
            |s| == 10 && s[4] == '-' && s[7] == '-' &&
            Numerals.AllDigits(s[..4]) && Numerals.DigitsValue(s[..4]) == d.year &&
            Numerals.AllDigits(s[5..7]) && Numerals.DigitsValue(s[5..7]) == d.month &&
            Numerals.AllDigits(s[8..]) && Numerals.DigitsValue(s[8..]) == d.day
  {
    assert Numerals.Pow10(2) == 100 && Numerals.Pow10(4) == 10000;
    ZeroPadValue(d.year, 4);
    ZeroPadValue(d.month, 2);
    ZeroPadValue(d.day, 2);
    var y, m, dd := ZeroPad(d.year, 4), ZeroPad(d.month, 2), ZeroPad(d.day, 2);
    var s := y + "-" + m + "-" + dd;
    assert s[..4] == y && s[5..7] == m && s[8..] == dd;
  }

  /** Distinct valid dates are written differently, so comparing the text compares the
      dates. */
  lemma FormatDateInjective(a: Date, b: Date)
    requires ValidDate(a) && ValidDate(b)
    requires FormatDate(a) == FormatDate(b)
    ensures a == b
  {
    FormatDateShape(a);
    FormatDateShape(b);
  }

  // ---------------------------------------------------------------------------------
  // compute_custom_week, on day ordinals
  // ---------------------------------------------------------------------------------

  /** Monday 8 September 2025, the first day of week 1. */
  const SchoolStart: int := 739502
  /** 15 February 2026, the first day of the break. */
  const BreakStart: int := 739662
  /** 28 February 2026, the last day of the break. */
  const BreakEnd: int := 739675
  /** `(break_end - break_start).days + 1`. */
  const BreakLength: int := BreakEnd - BreakStart + 1

  /** `compute_custom_week` on the date whose ordinal is `d`. */
  function CustomWeek(d: int): (w: int)
    ensures w >= 1
  {
    if d < SchoolStart then 1
    else
      var effective := if BreakStart <= d <= BreakEnd then BreakStart - 1 else d;
      var delta := effective - SchoolStart;
      var shifted := if effective > BreakEnd then delta - BreakLength else delta;
      shifted / 7 + 1
  }

  /** `compute_custom_week(d)` for a date. */
  function CustomWeekOf(d: Date): (w: int)
    requires ValidDate(d)
    ensures w >= 1
  {
    CustomWeek(Ordinal(d))
  }

  /** Seven-day weeks counted from the start, as if there were no break. */
  function PlainWeek(d: int): int {
    (d - SchoolStart) / 7 + 1
  }

  /** The three constants are the ordinals of the dates the source names. */
  lemma CalendarConstants()
    ensures ValidDate(Date(2025, 9, 8)) && Ordinal(Date(2025, 9, 8)) == SchoolStart
    ensures ValidDate(Date(2026, 2, 15)) && Ordinal(Date(2026, 2, 15)) == BreakStart
    ensures ValidDate(Date(2026, 2, 28)) && Ordinal(Date(2026, 2, 28)) == BreakEnd
    ensures BreakLength == 14
  {
  }

  /** Every date before the start, and the first seven days from it, are in week 1. */
  lemma FirstWeek(d: int)
    requires d < SchoolStart + 7
    ensures CustomWeek(d) == 1
  {
  }

  /** Before the break the week is the plain seven-day count; a day of the break gets the
      week of 14 February 2026; after the break the count runs 14 days behind. */
  lemma BreakHandling(d: int)
    ensures SchoolStart <= d < BreakStart ==> CustomWeek(d) == PlainWeek(d)
    ensures BreakStart <= d <= BreakEnd ==> CustomWeek(d) == CustomWeek(BreakStart - 1)
    ensures d > BreakEnd ==> CustomWeek(d) == PlainWeek(d - BreakLength)
  {
  }

  /** A later date never gets an earlier week. */
  lemma CustomWeekMonotone(d1: int, d2: int)
    requires d1 <= d2
    ensures CustomWeek(d1) <= CustomWeek(d2)
  {
  }

  /** The next day is in the same week or the next one: no week number is skipped. */
  lemma CustomWeekNoGap(d: int)
    ensures CustomWeek(d) <= CustomWeek(d + 1) <= CustomWeek(d) + 1
  {
  }

  /** Saturday 14 February 2026 closes week 23; Monday 2 March 2026 opens week 24. */
  lemma CustomWeekAroundBreak()
    ensures CustomWeek(BreakStart - 1) == 23
    ensures CustomWeek(BreakEnd + 1) == 23
    ensures CustomWeek(BreakEnd + 2) == 24
  {
  }
}
