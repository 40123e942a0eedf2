/**
  The proleptic Gregorian calendar of Python's `datetime`, at minute
  precision: years 1 to 9999, and instants counted in minutes since
  0001-01-01 00:00 (`datetime.min`).
 */
module Calendar {

  datatype DateTime = DateTime(year: int, month: int, day: int, hour: int, minute: int)

  predicate IsLeapYear(y: int) {
    y % 4 == 0 && (y % 100 != 0 || y % 400 == 0)
  }

  function DaysInYear(y: int): int {
    if IsLeapYear(y) then 366 else 365
  }

  function DaysInMonth(y: int, m: int): int
    requires 1 <= m <= 12
  {
    if m == 2 then (if IsLeapYear(y) then 29 else 28)
    else if m == 4 || m == 6 || m == 9 || m == 11 then 30
    else 31
  }

  /** Days in the months of year y before month m (m == 13: the whole year). */
  function DaysBeforeMonth(y: int, m: int): nat
    requires 1 <= m <= 13
    decreases m
  {
    if m == 1 then 0 else DaysBeforeMonth(y, m - 1) + DaysInMonth(y, m - 1)
  }

  /** The twelve months make up the year. */
  lemma MonthsMakeYear(y: int)
    ensures DaysBeforeMonth(y, 13) == DaysInYear(y)
  {
  }

  /** Days from 0001-01-01 to the first day of year y: 365 a year plus
      one for each leap year before y. */
  function DaysBeforeYear(y: int): nat
    requires y >= 1
  {
    var p := y - 1;
    365 * p + p / 4 - p / 100 + p / 400
  }

  lemma DivisibleStep(y: int)
    requires y >= 1
    ensures y / 4 - (y - 1) / 4 == if y % 4 == 0 then 1 else 0
    ensures y / 100 - (y - 1) / 100 == if y % 100 == 0 then 1 else 0
    ensures y / 400 - (y - 1) / 400 == if y % 400 == 0 then 1 else 0
  {
  }

  /** Each year adds its own length. */
  lemma DaysBeforeYearStep(y: int)
    requires y >= 1
    ensures DaysBeforeYear(y + 1) == DaysBeforeYear(y) + DaysInYear(y)
  {
    DivisibleStep(y);
  }

  /** The range `datetime` accepts. */
  predicate Valid(t: DateTime) {
    && 1 <= t.year <= 9999
    && 1 <= t.month <= 12
    && 1 <= t.day <= DaysInMonth(t.year, t.month)
    && 0 <= t.hour < 24
    && 0 <= t.minute < 60
  }

  /** The number of days from 0001-01-01 to 10000-01-01. */
  const DayCount: int := 3652059

  /** The last representable minute, 9999-12-31 23:59. */
  const MaxMinute: int := 5258964959

  lemma DayCountIsAllYears()
    ensures DaysBeforeYear(10000) == DayCount
    ensures MaxMinute == DayCount * 1440 - 1
  {
  }

  lemma DaysBeforeMonthStep(y: int, m: int)
    requires 1 <= m <= 12
    ensures DaysBeforeMonth(y, m + 1) == DaysBeforeMonth(y, m) + DaysInMonth(y, m)
  {
  }

  lemma {:induction false} DaysBeforeMonthMonotone(y: int, a: int, b: int)
    requires 1 <= a <= b <= 13
    ensures DaysBeforeMonth(y, a) <= DaysBeforeMonth(y, b)
    decreases b - a
  {
    if a < b {
      DaysBeforeMonthMonotone(y, a + 1, b);
      DaysBeforeMonthStep(y, a);
    }
  }

  lemma {:induction false} DaysBeforeYearMonotone(a: int, b: int)
    requires 1 <= a <= b
    ensures DaysBeforeYear(a) + (b - a) * 365 <= DaysBeforeYear(b)
    decreases b - a
  {
    if a < b {
      DaysBeforeYearMonotone(a, b - 1);
      DaysBeforeYearStep(b - 1);
    }
  }

  /** A valid day falls within its year. */
  lemma DayInYear(t: DateTime)
    requires Valid(t)
    ensures DaysBeforeMonth(t.year, t.month) + t.day <= DaysInYear(t.year)
  {
    DaysBeforeMonthStep(t.year, t.month);
    DaysBeforeMonthMonotone(t.year, t.month + 1, 13);
    MonthsMakeYear(t.year);
  }

  /** Every year up to 9999 ends by day DayCount. */
  lemma YearInRange(y: int)
    requires 1 <= y <= 9999
    ensures DaysBeforeYear(y) + DaysInYear(y) <= DayCount
  {
    DaysBeforeYearStep(y);
    DaysBeforeYearMonotone(y + 1, 10000);
    DayCountIsAllYears();
  }

  /** The day number of a date, counted from 0001-01-01 as day 0. */
  function DayNumber(t: DateTime): (d: int)
    requires Valid(t)
    ensures 0 <= d < DayCount
  {
    DayInYear(t);
    YearInRange(t.year);
    DaysBeforeYear(t.year) + DaysBeforeMonth(t.year, t.month) + t.day - 1
  }

  /** The minute number of a date and time. */
  function ToMinutes(t: DateTime): (n: int)
    requires Valid(t)
    ensures 0 <= n <= MaxMinute
  {
    DayNumber(t) * 1440 + t.hour * 60 + t.minute
  }

  /** The year holding day number `days` (counted from the start of year y),
      and the day's offset within that year. */
  function YearOf(days: nat, y: int): (int, nat)
    requires y >= 1
    decreases days
  {
    if days < DaysInYear(y) then (y, days)
    else YearOf(days - DaysInYear(y), y + 1)
  }

  lemma {:induction false} YearOfSpec(days: nat, y: int)
    requires y >= 1
    ensures YearOf(days, y).0 >= y && YearOf(days, y).1 < DaysInYear(YearOf(days, y).0)
    ensures DaysBeforeYear(YearOf(days, y).0) - DaysBeforeYear(y) + YearOf(days, y).1 == days
    decreases days
  {
    DaysBeforeYearStep(y);
    if days >= DaysInYear(y) {
      YearOfSpec(days - DaysInYear(y), y + 1);
    }
  }

  /** The month, from m on, that holds day `doy` of year y. */
  function MonthOf(y: int, doy: int, m: int): (r: int)
    requires 1 <= m <= 12
    ensures m <= r <= 12
    decreases 12 - m
  {
    if m == 12 || doy < DaysBeforeMonth(y, m + 1) then m
    else MonthOf(y, doy, m + 1)
  }

  lemma {:induction false} MonthOfSpec(y: int, doy: int, m: int)
    requires 1 <= m <= 12
    requires DaysBeforeMonth(y, m) <= doy < DaysInYear(y)
    ensures DaysBeforeMonth(y, MonthOf(y, doy, m)) <= doy < DaysBeforeMonth(y, MonthOf(y, doy, m) + 1)
    decreases 12 - m
  {
    if m == 12 {
      MonthsMakeYear(y);
      assert MonthOf(y, doy, m) == 12;
    } else if doy >= DaysBeforeMonth(y, m + 1) {
      MonthOfSpec(y, doy, m + 1);
      assert MonthOf(y, doy, m) == MonthOf(y, doy, m + 1);
    }
  }

  /** The date and time of a minute number: whole days since 0001-01-01
      counted off in years, then months, then the time of day. */
  function FromMinutes(n: int): DateTime
    requires 0 <= n <= MaxMinute
  {
    var days := n / 1440;
    var rest := n % 1440;
    var (y, doy) := YearOf(days, 1);
    var m := MonthOf(y, doy, 1);
    DateTime(y, m, doy - DaysBeforeMonth(y, m) + 1, rest / 60, rest % 60)
  }

  /** FromMinutes is the inverse of ToMinutes: it gives a valid date and
      time whose minute number is n. */
  lemma FromMinutesSpec(n: int)
    requires 0 <= n <= MaxMinute
    ensures Valid(FromMinutes(n)) && ToMinutes(FromMinutes(n)) == n
  {
    DayCountIsAllYears();
    var days := n / 1440;
    var rest := n % 1440;
    YearOfSpec(days, 1);
    var (y, doy) := YearOf(days, 1);
    assert y <= 9999 by {
      if y >= 10000 {
        DaysBeforeYearMonotone(10000, y);
      }
    }
    MonthOfSpec(y, doy, 1);
    var m := MonthOf(y, doy, 1);
    DaysBeforeMonthStep(y, m);
    assert FromMinutes(n) == DateTime(y, m, doy - DaysBeforeMonth(y, m) + 1, rest / 60, rest % 60);
  }

  /** Two years' day offsets that name the same day name the same year. */
  lemma YearUnique(y1: int, k1: int, y2: int, k2: int)
    requires 1 <= y1 && 0 <= k1 < DaysInYear(y1)
    requires 1 <= y2 && 0 <= k2 < DaysInYear(y2)
    requires DaysBeforeYear(y1) + k1 == DaysBeforeYear(y2) + k2
    ensures y1 == y2 && k1 == k2
  {
    if y1 < y2 {
      DaysBeforeYearStep(y1);
      DaysBeforeYearMonotone(y1 + 1, y2);
    } else if y2 < y1 {
      DaysBeforeYearStep(y2);
      DaysBeforeYearMonotone(y2 + 1, y1);
    }
  }

  lemma MonthUnique(y: int, m1: int, m2: int, doy: int)
    requires 1 <= m1 <= 12 && 1 <= m2 <= 12
    requires DaysBeforeMonth(y, m1) <= doy < DaysBeforeMonth(y, m1 + 1)
    requires DaysBeforeMonth(y, m2) <= doy < DaysBeforeMonth(y, m2 + 1)
    ensures m1 == m2
  {
    if m1 < m2 {
      DaysBeforeMonthMonotone(y, m1 + 1, m2);
    } else if m2 < m1 {
      DaysBeforeMonthMonotone(y, m2 + 1, m1);
    }
  }

  /** A whole number of days plus a time of day splits uniquely. */
  lemma DayClockUnique(d1: int, c1: int, d2: int, c2: int)
    requires 0 <= c1 < 1440 && 0 <= c2 < 1440
    requires d1 * 1440 + c1 == d2 * 1440 + c2
    ensures d1 == d2 && c1 == c2
  {
  }

  lemma HourMinuteUnique(h1: int, m1: int, h2: int, m2: int)
    requires 0 <= m1 < 60 && 0 <= m2 < 60
    requires h1 * 60 + m1 == h2 * 60 + m2
    ensures h1 == h2 && m1 == m2
  {
  }

  /** Distinct valid dates and times have distinct minute numbers. */
  lemma ToMinutesInjective(t: DateTime, u: DateTime)
    requires Valid(t) && Valid(u) && ToMinutes(t) == ToMinutes(u)
    ensures t == u
  {
    DayClockUnique(DayNumber(t), t.hour * 60 + t.minute, DayNumber(u), u.hour * 60 + u.minute);
    HourMinuteUnique(t.hour, t.minute, u.hour, u.minute);
    DayInYear(t);
    DayInYear(u);
    var dt := DaysBeforeMonth(t.year, t.month) + t.day - 1;
    var du := DaysBeforeMonth(u.year, u.month) + u.day - 1;
    YearUnique(t.year, dt, u.year, du);
    DaysBeforeMonthStep(t.year, t.month);
    DaysBeforeMonthStep(u.year, u.month);
    MonthUnique(t.year, t.month, u.month, dt);
  }

  /** Python's datetime order: by year, then month, day, hour and minute. */
  predicate Before(t: DateTime, u: DateTime) {
    || t.year < u.year
    || (t.year == u.year && t.month < u.month)
    || (t.year == u.year && t.month == u.month && t.day < u.day)
    || (t.year == u.year && t.month == u.month && t.day == u.day && t.hour < u.hour)
    || (t.year == u.year && t.month == u.month && t.day == u.day && t.hour == u.hour && t.minute < u.minute)
  }

  /** A date earlier in the calendar has a smaller day number. */
  lemma DayNumberOrder(t: DateTime, u: DateTime)
    requires Valid(t) && Valid(u)
    requires t.year < u.year || (t.year == u.year && t.month < u.month)
          || (t.year == u.year && t.month == u.month && t.day < u.day)
    ensures DayNumber(t) < DayNumber(u)
  {
    if t.year < u.year {
      LaterYear(t, u);
    } else if t.month < u.month {
      LaterMonth(t, u);
    }
  }

  lemma LaterYear(t: DateTime, u: DateTime)
    requires Valid(t) && Valid(u) && t.year < u.year
    ensures DayNumber(t) < DayNumber(u)
  {
    DayInYear(t);
    DaysBeforeYearStep(t.year);
    DaysBeforeYearMonotone(t.year + 1, u.year);
  }

  lemma LaterMonth(t: DateTime, u: DateTime)
    requires Valid(t) && Valid(u) && t.year == u.year && t.month < u.month
    ensures DayNumber(t) < DayNumber(u)
  {
    DaysBeforeMonthStep(t.year, t.month);
    DaysBeforeMonthMonotone(t.year, t.month + 1, u.month);
  }

  /** Whole days dominate the time of day. */
  lemma DayClockOrder(d1: int, c1: int, d2: int, c2: int)
    requires d1 < d2 && 0 <= c1 < 1440 && 0 <= c2 < 1440
    ensures d1 * 1440 + c1 < d2 * 1440 + c2
  {
  }

  /** Comparing minute numbers compares the dates and times: one instant is
      smaller than another exactly when its date and time come first. */
  lemma ToMinutesOrder(t: DateTime, u: DateTime)
    requires Valid(t) && Valid(u)
    ensures ToMinutes(t) < ToMinutes(u) <==> Before(t, u)
  {
    if Before(t, u) {
      ToMinutesMonotone(t, u);
    } else if t != u {
      assert Before(u, t);
      ToMinutesMonotone(u, t);
    }
  }

  lemma ToMinutesMonotone(t: DateTime, u: DateTime)
    requires Valid(t) && Valid(u) && Before(t, u)
    ensures ToMinutes(t) < ToMinutes(u)
  {
    if t.year < u.year || (t.year == u.year && t.month < u.month)
       || (t.year == u.year && t.month == u.month && t.day < u.day) {
      DayNumberOrder(t, u);
      DayClockOrder(DayNumber(t), t.hour * 60 + t.minute, DayNumber(u), u.hour * 60 + u.minute);
    }
  }

  /** Every valid date and time has exactly one minute number:
      converting to minutes and back is the identity. */
  lemma FromToMinutes(t: DateTime)
    requires Valid(t)
    ensures FromMinutes(ToMinutes(t)) == t
  {
    FromMinutesSpec(ToMinutes(t));
    ToMinutesInjective(FromMinutes(ToMinutes(t)), t);
  }
}
