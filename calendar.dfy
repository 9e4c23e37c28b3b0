/**
 * The proleptic Gregorian calendar as Python's `datetime` uses it: leap years, days
 * before each month, ordinal day numbers (`date.toordinal()`), the next day
 * (`+ timedelta(days=1)`), date comparison, `strftime` of dates and months, and
 * `strptime(s, '%Y%j')` for the ordinal-date form YYYYDDD of ISO 8601.
 */
module Calendar {
  import opened Wrappers
  import opened Text

  predicate IsLeapYear(y: int) {
    y % 4 == 0 && (y % 100 != 0 || y % 400 == 0)
  }

  function DaysInYear(y: int): int {
    if IsLeapYear(y) then 366 else 365
  }

  function DaysInMonth(y: int, m: int): int
    requires 1 <= m <= 12
  {
    if m == 2 then (if IsLeapYear(y) then 29 else 28)
    else if m == 4 || m == 6 || m == 9 || m == 11 then 30
    else 31
  }

  /** Days of year `y` that come before month `m`; month 13 stands for the end of the year. */
  function DaysBeforeMonth(y: int, m: int): int
    requires 1 <= m <= 13
  {
    [0, 31, 59, 90, 120, 151, 181, 212, 243, 273, 304, 334, 365][m - 1]
    + (if m > 2 && IsLeapYear(y) then 1 else 0)
  }

  /** The month table and the month lengths agree, and the months fill the year. */
  lemma MonthsFillYear(y: int, m: int)
    requires 1 <= m <= 12
    ensures DaysBeforeMonth(y, m + 1) == DaysBeforeMonth(y, m) + DaysInMonth(y, m)
    ensures DaysBeforeMonth(y, 13) == DaysInYear(y)
  {
  }

  lemma DaysBeforeMonthMonotone(y: int, m1: int, m2: int)
    requires 1 <= m1 <= m2 <= 13
    ensures DaysBeforeMonth(y, m1) <= DaysBeforeMonth(y, m2)
  {
  }

  /** The month of year `y` containing day `d`, searching from month `m` on. */
  function MonthFrom(y: int, d: int, m: int): (r: int)
    requires 1 <= m <= 12 && DaysBeforeMonth(y, m) < d <= DaysInYear(y)
    ensures m <= r <= 12
    ensures DaysBeforeMonth(y, r) < d <= DaysBeforeMonth(y, r + 1)
    decreases 12 - m
  {
    if d <= DaysBeforeMonth(y, m + 1) || m == 12 then m else MonthFrom(y, d, m + 1)
  }

  /** The month (1..12) that day `d` of year `y` falls in. */
  function MonthOfDay(y: int, d: int): (m: int)
    requires 1 <= d <= DaysInYear(y)
    ensures 1 <= m <= 12
    ensures DaysBeforeMonth(y, m) < d <= DaysBeforeMonth(y, m + 1)
  {
    MonthFrom(y, d, 1)
  }

  /** A day of the year lies in one month only. */
  lemma MonthOfDayUnique(y: int, d: int, m: int)
    requires 1 <= m <= 12 && DaysBeforeMonth(y, m) < d <= DaysBeforeMonth(y, m + 1)
    ensures 1 <= d <= DaysInYear(y) && MonthOfDay(y, d) == m
  {
    MonthsFillYear(y, 12);
    DaysBeforeMonthMonotone(y, m + 1, 13);
    var k := MonthOfDay(y, d);
    if k < m {
      DaysBeforeMonthMonotone(y, k + 1, m);
    } else if m < k {
      DaysBeforeMonthMonotone(y, m + 1, k);
    }
  }

  // ---------------------------------------------------------------------------
  // Dates and ordinal day numbers
  // ---------------------------------------------------------------------------

  datatype Date = Date(year: int, month: int, day: int)

  predicate ValidDate(d: Date) {
    1 <= d.year && 1 <= d.month <= 12 && 1 <= d.day <= DaysInMonth(d.year, d.month)
  }

  /** Days in the years before `y` (CPython's `_days_before_year`, counted year by year). */
  function DaysBeforeYear(y: int): int
    requires y >= 1
  {
    if y == 1 then 0 else DaysBeforeYear(y - 1) + DaysInYear(y - 1)
  }

  lemma DaysBeforeNextYear(y: int)
    requires y >= 1
    ensures DaysBeforeYear(y + 1) == DaysBeforeYear(y) + DaysInYear(y)
  {
  }

  lemma {:induction false} DaysBeforeYearGrows(y1: int, y2: int)
    requires 1 <= y1 < y2
    ensures DaysBeforeYear(y1) + DaysInYear(y1) <= DaysBeforeYear(y2)
    decreases y2 - y1
  {
    DaysBeforeNextYear(y1);
    if y1 + 1 < y2 {
      DaysBeforeYearGrows(y1 + 1, y2);
    }
  }

  /** `date.toordinal()`: 1 January of year 1 is day 1. */
  function Ordinal(d: Date): int
    requires ValidDate(d)
  {
    DaysBeforeYear(d.year) + DaysBeforeMonth(d.year, d.month) + d.day
  }

  /** A date's ordinal lies within its own year's span of ordinals. */
  lemma OrdinalWithinYear(d: Date)
    requires ValidDate(d)
    ensures DaysBeforeYear(d.year) < Ordinal(d) <= DaysBeforeYear(d.year) + DaysInYear(d.year)
  {
    MonthsFillYear(d.year, d.month);
    DaysBeforeMonthMonotone(d.year, d.month + 1, 13);
  }

  /** `a <= b` on dates: year, then month, then day. */
  predicate NotAfter(a: Date, b: Date) {
    a.year < b.year
    || (a.year == b.year && (a.month < b.month || (a.month == b.month && a.day <= b.day)))
  }

  /** Comparing dates is comparing their ordinals. */
  lemma NotAfterIsOrdinalOrder(a: Date, b: Date)
    requires ValidDate(a) && ValidDate(b)
    ensures NotAfter(a, b) <==> Ordinal(a) <= Ordinal(b)
  {
    OrdinalWithinYear(a);
    OrdinalWithinYear(b);
    if a.year < b.year {
      DaysBeforeYearGrows(a.year, b.year);
    } else if b.year < a.year {
      DaysBeforeYearGrows(b.year, a.year);
    } else if a.month < b.month {
      MonthsFillYear(a.year, a.month);
      DaysBeforeMonthMonotone(a.year, a.month + 1, b.month);
    } else if b.month < a.month {
      MonthsFillYear(b.year, b.month);
      DaysBeforeMonthMonotone(b.year, b.month + 1, a.month);
    }
  }

  /** Distinct valid dates have distinct ordinals. */
  lemma OrdinalInjective(a: Date, b: Date)
    requires ValidDate(a) && ValidDate(b) && Ordinal(a) == Ordinal(b)
    ensures a == b
  {
    NotAfterIsOrdinalOrder(a, b);
    NotAfterIsOrdinalOrder(b, a);
  }

  /** `d + timedelta(days=1)`. */
  function NextDay(d: Date): (r: Date)
    requires ValidDate(d)
    ensures ValidDate(r) && Ordinal(r) == Ordinal(d) + 1
  {
    if d.day < DaysInMonth(d.year, d.month) then Date(d.year, d.month, d.day + 1)
    else if d.month < 12 then
      MonthsFillYear(d.year, d.month);
      Date(d.year, d.month + 1, 1)
    else
      MonthsFillYear(d.year, 12);
      DaysBeforeNextYear(d.year);
      Date(d.year + 1, 1, 1)
  }

  // ---------------------------------------------------------------------------
  // strftime
  // ---------------------------------------------------------------------------

  /** `strftime('%Y-%m-%d')`. */
  function FormatDate(d: Date): string
    requires ValidDate(d)
  {
    Fixed(d.year, 4) + "-" + Fixed(d.month, 2) + "-" + Fixed(d.day, 2)
  }

  /** `strftime('%Y-%m')`. */
  function FormatYearMonth(y: nat, m: nat): string {
    Fixed(y, 4) + "-" + Fixed(m, 2)
  }

  /** Dates in years 1..9999 print differently. */
  lemma FormatDateInjective(a: Date, b: Date)
    requires ValidDate(a) && ValidDate(b) && a.year <= 9999 && b.year <= 9999
    requires FormatDate(a) == FormatDate(b)
    ensures a == b
  {
    var fa, fb := FormatDate(a), FormatDate(b);
    assert fa[..4] == Fixed(a.year, 4) && fb[..4] == Fixed(b.year, 4);
    assert fa[5..7] == Fixed(a.month, 2) && fb[5..7] == Fixed(b.month, 2);
    assert fa[8..] == Fixed(a.day, 2) && fb[8..] == Fixed(b.day, 2);
    NatOfFixed(a.year, 4);
    NatOfFixed(b.year, 4);
    NatOfFixed(a.month, 2);
    NatOfFixed(b.month, 2);
    NatOfFixed(a.day, 2);
    NatOfFixed(b.day, 2);
  }

  /** Months of years 0..9999 print differently, so distinct months give distinct keys. */
  lemma FormatYearMonthInjective(y1: nat, m1: nat, y2: nat, m2: nat)
    requires y1 <= 9999 && y2 <= 9999 && m1 <= 12 && m2 <= 12
    requires FormatYearMonth(y1, m1) == FormatYearMonth(y2, m2)
    ensures y1 == y2 && m1 == m2
  {
    var f1, f2 := FormatYearMonth(y1, m1), FormatYearMonth(y2, m2);
    assert f1[..4] == Fixed(y1, 4) && f2[..4] == Fixed(y2, 4);
    assert f1[5..] == Fixed(m1, 2) && f2[5..] == Fixed(m2, 2);
    NatOfFixed(y1, 4);
    NatOfFixed(y2, 4);
    NatOfFixed(m1, 2);
    NatOfFixed(m2, 2);
  }

  // ---------------------------------------------------------------------------
  // strptime(s, '%Y%j') followed by strftime('%Y-%m')
  // ---------------------------------------------------------------------------

  /**
   * What `strptime` reads with '%Y%j': exactly four digits of year, then one to three
   * digits of day with value 1..366, and nothing after. None is the ValueError.
   */
  function ParseYearDay(s: string): (r: Option<(nat, nat)>)
    ensures r.Some? ==> 5 <= |s| <= 7 && 1 <= r.value.1 <= 366 && r.value.0 <= 9999
    ensures r.Some? ==> s == Fixed(r.value.0, 4) + Fixed(r.value.1, |s| - 4)
  {
    if 5 <= |s| <= 7 && AllDigits(s) then
      assert AllDigits(s[..4]) && AllDigits(s[4..]);
      NatOfBound(s[..4]);
      FixedNatOf(s[..4]);
      FixedNatOf(s[4..]);
      assert s == s[..4] + s[4..];
      var y, j := NatOf(s[..4]), NatOf(s[4..]);
      if 1 <= j <= 366 then Some((y, j)) else None
    else None
  }

  /**
   * `julian_to_month`: the "YYYY-MM" of day DDD of year YYYY, or None where `strptime`
   * raises ValueError. CPython turns the day into a date by counting days from
   * 1 January, so day 366 of a common year is read as 1 January of the next year,
   * and year 0 or a date past 9999 is rejected.
   */
  function JulianToMonth(s: string): (r: Option<string>)
    ensures r.Some? ==> ParseYearDay(s).Some?
  {
    match ParseYearDay(s)
    case None => None
    case Some((y, j)) =>
      if y == 0 then None
      else if j <= DaysInYear(y) then Some(FormatYearMonth(y, MonthOfDay(y, j)))
      else if y == 9999 then None
      else Some(FormatYearMonth(y + 1, 1))
  }

  /** The seven digits YYYYDDD of day `j` of year `y` read back as year `y`, day `j`. */
  lemma ParseYearDayOfDigits(y: nat, j: nat)
    requires y <= 9999 && 1 <= j <= 366
    ensures ParseYearDay(Fixed(y, 4) + Fixed(j, 3)) == Some((y, j))
  {
    var s := Fixed(y, 4) + Fixed(j, 3);
    assert s[..4] == Fixed(y, 4) && s[4..] == Fixed(j, 3);
    NatOfFixed(y, 4);
    NatOfFixed(j, 3);
  }

  /**
   * The short forms `strptime` also accepts: four year digits followed by one to three
   * day digits, such as "20201" for day 1 of 2020, read back as year `y`, day `j`.
   */
  lemma ParseYearDayOfShortDigits(y: nat, j: nat, w: nat)
    requires y <= 9999 && 1 <= j <= 366 && 1 <= w <= 3 && j < Pow10(w)
    ensures ParseYearDay(Fixed(y, 4) + Fixed(j, w)) == Some((y, j))
  {
    var s := Fixed(y, 4) + Fixed(j, w);
    assert s[..4] == Fixed(y, 4) && s[4..] == Fixed(j, w);
    assert AllDigits(s) by {
      assert forall i :: 4 <= i < |s| ==> s[i] == Fixed(j, w)[i - 4];
    }
    NatOfFixed(y, 4);
    NatOfFixed(j, w);
  }

  /**
   * Day `j` of year `y`, written YYYYDDD, maps to "YYYY-MM" where MM is the month that
   * contains that day, leap years included.
   */
  lemma JulianToMonthIsMonthOfDay(y: nat, j: nat, m: nat)
    requires 1 <= y <= 9999 && 1 <= m <= 12
    requires DaysBeforeMonth(y, m) < j <= DaysBeforeMonth(y, m + 1)
    ensures JulianToMonth(Fixed(y, 4) + Fixed(j, 3)) == Some(FormatYearMonth(y, m))
  {
    MonthOfDayUnique(y, j, m);
    ParseYearDayOfDigits(y, j);
  }

  /** Day 60 is 29 February in a leap year and 1 March otherwise. */
  lemma Day60(y: nat)
    requires 1 <= y <= 9999
    ensures JulianToMonth(Fixed(y, 4) + "060") == Some(FormatYearMonth(y, if IsLeapYear(y) then 2 else 3))
  {
    assert Fixed(60, 3) == "060" by {
      assert Fixed(0, 1) == "0";
      assert Fixed(6, 2) == "06";
    }
    JulianToMonthIsMonthOfDay(y, 60, if IsLeapYear(y) then 2 else 3);
  }

  /** Day 366 of a common year is accepted and read as January of the next year. */
  lemma Day366OfCommonYear(y: nat)
    requires 1 <= y < 9999 && !IsLeapYear(y)
    ensures JulianToMonth(Fixed(y, 4) + Fixed(366, 3)) == Some(FormatYearMonth(y + 1, 1))
  {
    ParseYearDayOfDigits(y, 366);
  }

  /** Every accepted string maps to a real month of a year in 1..9999. */
  lemma JulianToMonthGivesMonth(s: string)
    requires JulianToMonth(s).Some?
    ensures exists y: nat, m: nat :: 1 <= y <= 9999 && 1 <= m <= 12 && JulianToMonth(s) == Some(FormatYearMonth(y, m))
  {
    var (y, j) := ParseYearDay(s).value;
    if j <= DaysInYear(y) {
      var m := MonthOfDay(y, j);
      assert JulianToMonth(s) == Some(FormatYearMonth(y, m));
    } else {
      assert JulianToMonth(s) == Some(FormatYearMonth(y + 1, 1));
    }
  }
}
