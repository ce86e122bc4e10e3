/**
 * The proleptic Gregorian calendar over whole-day numbers. Day 0 is
 * 1970-01-01, the day JavaScript time value 0 falls on; a `Date` built from a
 * `YYYY-MM-DD` string is UTC midnight of its day, so it is identified here
 * with that day's number.
 */
module Calendar {

  datatype CivilDate = CivilDate(year: int, month: int, day: int)

  predicate IsLeapYear(y: int) {
    y % 4 == 0 && (y % 100 != 0 || y % 400 == 0)
  }

  function YearLength(y: int): int {
    if IsLeapYear(y) then 366 else 365
  }

  function MonthLength(y: int, m: int): int
    requires 1 <= m <= 12
  {
    if m == 2 then (if IsLeapYear(y) then 29 else 28)
    else if m == 4 || m == 6 || m == 9 || m == 11 then 30
    else 31
  }

  /** A real calendar date: month 1..12 and day 1..length of that month. */
  predicate IsValidDate(c: CivilDate) {
    1 <= c.month <= 12 && 1 <= c.day <= MonthLength(c.year, c.month)
  }

  /** Days of year `y` before the first of month `m`; month 13 stands for the year's end. */
  function DaysBeforeMonth(y: int, m: int): int
    requires 1 <= m <= 13
  {
    [0, 31, 59, 90, 120, 151, 181, 212, 243, 273, 304, 334, 365][m - 1]
    + (if m > 2 && IsLeapYear(y) then 1 else 0)
  }

  /** Days from 0000-01-01 to the first of January of year `y` (negative before year 0). */
  function DaysBeforeYear(y: int): int {
    365 * y + (y + 3) / 4 - (y + 99) / 100 + (y + 399) / 400
  }

  /** Days from 0000-01-01 to 1970-01-01. */
  const EpochOffset: int := 719528

  /** Days in one 400-year Gregorian cycle. */
  const CycleLength: int := 146097

  /**
   * The day number of a calendar date. A day beyond its month's length rolls
   * over into the next months, as ECMAScript's MakeDay does.
   */
  function DaysFromCivil(c: CivilDate): int
    requires 1 <= c.month <= 12
  {
    DaysBeforeYear(c.year) + DaysBeforeMonth(c.year, c.month) + c.day - 1 - EpochOffset
  }

  /** The calendar date of day number `n`. */
  function CivilFromDays(n: int): (c: CivilDate)
    ensures IsValidDate(c)
    ensures DaysFromCivil(c) == n
  {
    var z := n + EpochOffset;
    var cycle := z / CycleLength;
    CycleStart(cycle);
    var (y, dayOfYear) := LocateYear(400 * cycle, z % CycleLength);
    var (m, d) := LocateMonth(y, 1, dayOfYear);
    CivilDate(y, m, d)
  }

  /**
   * The year holding the day `rem` days after the first of January of `y`, and
   * that day's zero-based position in it.
   */
  function LocateYear(y: int, rem: nat): (r: (int, nat))
    ensures r.1 < YearLength(r.0)
    ensures DaysBeforeYear(r.0) + r.1 == DaysBeforeYear(y) + rem
    decreases rem
  {
    if rem < YearLength(y) then (y, rem)
    else
      YearStep(y);
      LocateYear(y + 1, rem - YearLength(y))
  }

  /**
   * The month and day of year `y` holding the day `rem` days after the first
   * of month `m`.
   */
  function LocateMonth(y: int, m: int, rem: nat): (r: (int, int))
    requires 1 <= m <= 12
    requires DaysBeforeMonth(y, m) + rem < YearLength(y)
    ensures 1 <= r.0 <= 12 && 1 <= r.1 <= MonthLength(y, r.0)
    ensures DaysBeforeMonth(y, r.0) + r.1 - 1 == DaysBeforeMonth(y, m) + rem
    decreases 12 - m
  {
    if rem < MonthLength(y, m) then (m, rem + 1)
    else LocateMonth(y, m + 1, rem - MonthLength(y, m))
  }

  /** Each year contributes exactly its own length to the day count. */
  lemma YearStep(y: int)
    ensures DaysBeforeYear(y + 1) == DaysBeforeYear(y) + YearLength(y)
  {
    FourYearStep(y);
    CenturyStep(y);
    QuadCenturyStep(y);
    LeapRuleNesting(y);
    if y % 4 != 0 {
      assert YearLength(y) == 365;
    } else if y % 100 != 0 {
      assert YearLength(y) == 366;
    } else if y % 400 != 0 {
      assert YearLength(y) == 365;
    } else {
      assert YearLength(y) == 366;
    }
  }

  /** A multiple of 400 is a multiple of 100, and a multiple of 100 is a multiple of 4. */
  lemma LeapRuleNesting(y: int)
    ensures y % 400 == 0 ==> y % 100 == 0
    ensures y % 100 == 0 ==> y % 4 == 0
  {
    if y % 400 == 0 {
      assert y == 100 * (4 * (y / 400));
      MultipleOf100(4 * (y / 400));
    }
    if y % 100 == 0 {
      assert y == 4 * (25 * (y / 100));
      MultipleOf4(25 * (y / 100));
    }
  }

  lemma MultipleOf4(k: int)
    ensures (4 * k) % 4 == 0
  {
  }

  lemma MultipleOf100(k: int)
    ensures (100 * k) % 100 == 0
  {
  }

  /** Moving past year `y` adds a leap day to the four-year count exactly when 4 divides `y`. */
  lemma FourYearStep(y: int)
    ensures (y + 4) / 4 - (y + 3) / 4 == if y % 4 == 0 then 1 else 0
  {
    var q, r := y / 4, y % 4;
    assert y == 4 * q + r;
    assert (y + 4) / 4 == q + 1;
    assert (y + 3) / 4 == if r == 0 then q else q + 1;
  }

  /** Moving past year `y` drops a leap day in the century count exactly when 100 divides `y`. */
  lemma CenturyStep(y: int)
    ensures (y + 100) / 100 - (y + 99) / 100 == if y % 100 == 0 then 1 else 0
  {
    var q, r := y / 100, y % 100;
    assert y == 100 * q + r;
    assert (y + 100) / 100 == q + 1;
    assert (y + 99) / 100 == if r == 0 then q else q + 1;
  }

  /** Moving past year `y` restores a leap day in the 400-year count exactly when 400 divides `y`. */
  lemma QuadCenturyStep(y: int)
    ensures (y + 400) / 400 - (y + 399) / 400 == if y % 400 == 0 then 1 else 0
  {
    var q, r := y / 400, y % 400;
    assert y == 400 * q + r;
    assert (y + 400) / 400 == q + 1;
    assert (y + 399) / 400 == if r == 0 then q else q + 1;
  }

  /** Every 400-year cycle starting at a multiple of 400 is 146097 days long. */
  lemma CycleStart(k: int)
    ensures DaysBeforeYear(400 * k) == CycleLength * k
  {
    assert (400 * k + 3) / 4 == 100 * k;
    assert (400 * k + 99) / 100 == 4 * k;
    assert (400 * k + 399) / 400 == k;
  }

  /** Later years start later: at least 365 days per year in between. */
  lemma {:induction false} DaysBeforeYearGrows(a: int, b: int)
    requires a <= b
    ensures DaysBeforeYear(a) + 365 * (b - a) <= DaysBeforeYear(b)
    decreases b - a
  {
    if a < b {
      YearStep(a);
      DaysBeforeYearGrows(a + 1, b);
    }
  }

  /** A valid date lies inside its own year's span of day numbers. */
  lemma WithinYear(c: CivilDate)
    requires IsValidDate(c)
    ensures DaysBeforeYear(c.year) <= DaysFromCivil(c) + EpochOffset < DaysBeforeYear(c.year + 1)
  {
    YearStep(c.year);
  }

  /** Two valid dates with the same day number are the same date. */
  lemma DaysFromCivilInjective(a: CivilDate, b: CivilDate)
    requires IsValidDate(a) && IsValidDate(b)
    requires DaysFromCivil(a) == DaysFromCivil(b)
    ensures a == b
  {
    WithinYear(a);
    WithinYear(b);
    YearOfDayUnique(a.year, b.year, DaysFromCivil(a) + EpochOffset);
    if a.month < b.month {
      MonthsAreOrdered(a.year, a.month, b.month);
    } else if b.month < a.month {
      MonthsAreOrdered(a.year, b.month, a.month);
    }
  }

  /** An earlier month ends no later than a later month begins. */
  lemma MonthsAreOrdered(y: int, m1: int, m2: int)
    requires 1 <= m1 < m2 <= 12
    ensures DaysBeforeMonth(y, m1) + MonthLength(y, m1) <= DaysBeforeMonth(y, m2)
  {
  }

  /** Years do not overlap: a day count lies in the span of only one year. */
  lemma YearOfDayUnique(y1: int, y2: int, z: int)
    requires DaysBeforeYear(y1) <= z < DaysBeforeYear(y1 + 1)
    requires DaysBeforeYear(y2) <= z < DaysBeforeYear(y2 + 1)
    ensures y1 == y2
  {
    if y1 < y2 {
      DaysBeforeYearGrows(y1 + 1, y2);
    } else if y2 < y1 {
      DaysBeforeYearGrows(y2 + 1, y1);
    }
  }

  /** Day numbers and valid calendar dates are in one-to-one correspondence. */
  lemma CivilRoundTrip(c: CivilDate)
    requires IsValidDate(c)
    ensures CivilFromDays(DaysFromCivil(c)) == c
  {
    DaysFromCivilInjective(CivilFromDays(DaysFromCivil(c)), c);
  }

  /**
   * The day after any day is the next day of its month, else the first of
   * the next month, else New Year's Day of the next year.
   */
  lemma NextDay(n: int)
    ensures var c := CivilFromDays(n);
      var c' := CivilFromDays(n + 1);
      if c.day < MonthLength(c.year, c.month) then c' == CivilDate(c.year, c.month, c.day + 1)
      else if c.month < 12 then c' == CivilDate(c.year, c.month + 1, 1)
      else c' == CivilDate(c.year + 1, 1, 1)
  {
    DayAfter(n);
  }

  /** Day `n + 1` falls on the date after day `n`'s. */
  lemma DayAfter(n: int)
    ensures CivilFromDays(n + 1) == NextDate(CivilFromDays(n))
  {
    var c := CivilFromDays(n);
    NextDateFollows(c);
    DateOfDay(n + 1, NextDate(c));
  }

  /** The only valid date numbered `n` is the calendar date of day `n`. */
  lemma DateOfDay(n: int, c: CivilDate)
    requires IsValidDate(c) && DaysFromCivil(c) == n
    ensures CivilFromDays(n) == c
  {
    DaysFromCivilInjective(CivilFromDays(n), c);
  }

  /** The calendar date after a valid date. */
  function NextDate(c: CivilDate): CivilDate
    requires IsValidDate(c)
  {
    if c.day < MonthLength(c.year, c.month) then CivilDate(c.year, c.month, c.day + 1)
    else if c.month < 12 then CivilDate(c.year, c.month + 1, 1)
    else CivilDate(c.year + 1, 1, 1)
  }

  /** The date after a valid date is valid and numbered one more. */
  lemma NextDateFollows(c: CivilDate)
    requires IsValidDate(c)
    ensures IsValidDate(NextDate(c)) && DaysFromCivil(NextDate(c)) == DaysFromCivil(c) + 1
  {
    MonthStep(c.year, c.month);
    if c.day == MonthLength(c.year, c.month) && c.month == 12 {
      YearStep(c.year);
    }
  }

  /** Each month starts where the one before it ends; December ends with the year. */
  lemma MonthStep(y: int, m: int)
    requires 1 <= m <= 12
    ensures DaysBeforeMonth(y, m + 1) == DaysBeforeMonth(y, m) + MonthLength(y, m)
    ensures DaysBeforeMonth(y, 13) == YearLength(y)
  {
  }

  /** First and last day numbers whose year has exactly four digits (0000-01-01 .. 9999-12-31). */
  const FirstFourDigitDay: int := -719528
  const LastFourDigitDay: int := 2932896

  predicate IsFourDigitDay(n: int) {
    FirstFourDigitDay <= n <= LastFourDigitDay
  }

  /** A valid date's day number is a four-digit-year day exactly when its year is 0..9999. */
  lemma FourDigitYearOfDate(c: CivilDate)
    requires IsValidDate(c)
    ensures IsFourDigitDay(DaysFromCivil(c)) <==> 0 <= c.year <= 9999
  {
    WithinYear(c);
    assert DaysBeforeYear(0) == 0 && DaysBeforeYear(10000) == 3652425;
    if c.year < 0 {
      DaysBeforeYearGrows(c.year + 1, 0);
    } else if c.year > 9999 {
      DaysBeforeYearGrows(10000, c.year);
    } else {
      DaysBeforeYearGrows(0, c.year);
      DaysBeforeYearGrows(c.year + 1, 10000);
    }
  }

  /** The four-digit-year days are exactly those whose calendar year is 0..9999. */
  lemma FourDigitDayYear(n: int)
    ensures IsFourDigitDay(n) <==> 0 <= CivilFromDays(n).year <= 9999
  {
    FourDigitYearOfDate(CivilFromDays(n));
  }
}
