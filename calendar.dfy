/**
 * The proleptic Gregorian calendar, as far as the simulation needs it: the month and day
 * of a timestamp given in whole seconds since 1970-01-01 00:00:00 (no time zone).
 */
module Calendar {

  const SecondsPerDay := 86400
  const EpochYear := 1970

  predicate IsLeap(y: int) {
    y % 4 == 0 && (y % 100 != 0 || y % 400 == 0)
  }

  function DaysInMonth(y: int, m: int): int
    requires 1 <= m <= 12
  {
    if m == 2 then (if IsLeap(y) then 29 else 28)
    else if m == 4 || m == 6 || m == 9 || m == 11 then 30
    else 31
  }

  /** The day d of month m exists in year y. */
  predicate ValidDate(y: int, m: int, d: int) {
    1 <= m <= 12 && 1 <= d <= DaysInMonth(y, m)
  }

  /** Number of days in months m..12 of year y. */
  function DaysFrom(y: int, m: int): int
    requires 1 <= m <= 12
    decreases 12 - m
  {
    if m == 12 then DaysInMonth(y, 12) else DaysInMonth(y, m) + DaysFrom(y, m + 1)
  }

  function DaysInYear(y: int): int {
    if IsLeap(y) then 366 else 365
  }

  /** The months of a year add up to its length. */
  lemma DaysFromYear(y: int)
    ensures DaysFrom(y, 1) == DaysInYear(y)
  {
    assert DaysFrom(y, 10) == 92;
    assert DaysFrom(y, 7) == 92 + 92;
    assert DaysFrom(y, 4) == 91 + 184;
  }

  /** Month and day of the day that lies doy days after the first of month m. */
  function MonthDayFrom(y: int, m: int, doy: nat): (int, int)
    requires 1 <= m <= 12
    decreases 12 - m
  {
    if doy < DaysInMonth(y, m) || m == 12 then (m, doy + 1)
    else MonthDayFrom(y, m + 1, doy - DaysInMonth(y, m))
  }

  lemma {:induction false} MonthDayFromValid(y: int, m: int, doy: nat)
    requires 1 <= m <= 12 && doy < DaysFrom(y, m)
    ensures var md := MonthDayFrom(y, m, doy); ValidDate(y, md.0, md.1)
    decreases 12 - m
  {
    if !(doy < DaysInMonth(y, m) || m == 12) {
      MonthDayFromValid(y, m + 1, doy - DaysInMonth(y, m));
    }
  }

  /** Year, month and day of the day that lies days days after January 1 of year y. */
  function DateForward(y: int, days: nat): (int, int, int)
    decreases days
  {
    if days < DaysInYear(y) then
      var md := MonthDayFrom(y, 1, days);
      (y, md.0, md.1)
    else
      DateForward(y + 1, days - DaysInYear(y))
  }

  lemma {:induction false} DateForwardValid(y: int, days: nat)
    ensures var r := DateForward(y, days); ValidDate(r.0, r.1, r.2)
    decreases days
  {
    if days < DaysInYear(y) {
      DaysFromYear(y);
      MonthDayFromValid(y, 1, days);
    } else {
      DateForwardValid(y + 1, days - DaysInYear(y));
    }
  }

  /** As DateForward, but days may be negative (a day before January 1 of year y). */
  function DateFrom(y: int, days: int): (int, int, int)
    decreases if days < 0 then -days else 0
  {
    if days >= 0 then DateForward(y, days)
    else
      DateFrom(y - 1, days + DaysInYear(y - 1))
  }

  lemma {:induction false} DateFromValid(y: int, days: int)
    ensures var r := DateFrom(y, days); ValidDate(r.0, r.1, r.2)
    decreases if days < 0 then -days else 0
  {
    if days >= 0 {
      DateForwardValid(y, days);
    } else {
      DateFromValid(y - 1, days + DaysInYear(y - 1));
    }
  }

  /** The civil date (year, month, day) of a timestamp; days are counted from the epoch
      with Euclidean division, so instants before it fall on earlier days. */
  function CivilDate(ts: int): (int, int, int) {
    DateFrom(EpochYear, ts / SecondsPerDay)
  }

  /** Every timestamp falls on an existing day. */
  lemma CivilDateValid(ts: int)
    ensures var r := CivilDate(ts); ValidDate(r.0, r.1, r.2)
  {
    DateFromValid(EpochYear, ts / SecondsPerDay);
  }

  // ---------------------------------------------------------------------------------
  // Day numbers: an independent count of the days from the epoch to a date

  /** Days from January 1 of the epoch year to January 1 of year y (negative before it). */
  function DaysBeforeYear(y: int): int
    decreases if y < EpochYear then EpochYear - y else y - EpochYear
  {
    if y == EpochYear then 0
    else if y > EpochYear then DaysBeforeYear(y - 1) + DaysInYear(y - 1)
    else DaysBeforeYear(y + 1) - DaysInYear(y)
  }

  /** Days of year y before the first of month m. */
  function DaysBeforeMonth(y: int, m: int): int
    requires 1 <= m <= 12
  {
    if m == 1 then 0 else DaysBeforeMonth(y, m - 1) + DaysInMonth(y, m - 1)
  }

  /** The number of the day (y, m, d), counting the epoch's first day as 0. */
  function DayNumber(y: int, m: int, d: int): int
    requires 1 <= m <= 12
  {
    DaysBeforeYear(y) + DaysBeforeMonth(y, m) + d - 1
  }

  lemma DaysBeforeYearStep(y: int)
    ensures DaysBeforeYear(y + 1) == DaysBeforeYear(y) + DaysInYear(y)
  {
  }

  lemma {:induction false} MonthDayFromNumber(y: int, m: int, doy: nat)
    requires 1 <= m <= 12
    ensures var md := MonthDayFrom(y, m, doy);
            1 <= md.0 <= 12 && DaysBeforeMonth(y, md.0) + md.1 - 1 == DaysBeforeMonth(y, m) + doy
    decreases 12 - m
  {
    if !(doy < DaysInMonth(y, m) || m == 12) {
      var rest := doy - DaysInMonth(y, m);
      MonthDayFromNumber(y, m + 1, rest);
      assert MonthDayFrom(y, m, doy) == MonthDayFrom(y, m + 1, rest);
      assert DaysBeforeMonth(y, m + 1) == DaysBeforeMonth(y, m) + DaysInMonth(y, m);
    }
  }

  lemma {:induction false} DateForwardNumber(y: int, days: nat)
    ensures var r := DateForward(y, days);
            1 <= r.1 <= 12 && DayNumber(r.0, r.1, r.2) == DaysBeforeYear(y) + days
    decreases days
  {
    if days < DaysInYear(y) {
      MonthDayFromNumber(y, 1, days);
    } else {
      DateForwardNumber(y + 1, days - DaysInYear(y));
      DaysBeforeYearStep(y);
    }
  }

  lemma {:induction false} DateFromNumber(y: int, days: int)
    ensures var r := DateFrom(y, days);
            1 <= r.1 <= 12 && DayNumber(r.0, r.1, r.2) == DaysBeforeYear(y) + days
    decreases if days < 0 then -days else 0
  {
    if days >= 0 {
      DateForwardNumber(y, days);
    } else {
      DateFromNumber(y - 1, days + DaysInYear(y - 1));
      DaysBeforeYearStep(y - 1);
    }
  }

  /**
   * The civil date of a timestamp is the day whose number is the count of whole days
   * since the epoch (rounded toward minus infinity), and 1970-01-01 is day 0.
   */
  lemma CivilDateNumber(ts: int)
    ensures var r := CivilDate(ts);
            1 <= r.1 <= 12 && DayNumber(r.0, r.1, r.2) == ts / SecondsPerDay
    ensures CivilDate(0) == (EpochYear, 1, 1)
  {
    DateFromNumber(EpochYear, ts / SecondsPerDay);
  }

  lemma {:induction false} DaysBeforeMonthFrom(y: int, m: int)
    requires 1 <= m <= 12
    ensures DaysBeforeMonth(y, m) + DaysFrom(y, m) == DaysInYear(y)
    decreases m
  {
    if m == 1 {
      DaysFromYear(y);
    } else {
      DaysBeforeMonthFrom(y, m - 1);
    }
  }

  /** The day of a valid date lies within its year. */
  lemma DayOfYearBounds(y: int, m: int, d: int)
    requires ValidDate(y, m, d)
    ensures 0 <= DaysBeforeMonth(y, m) + d - 1 < DaysInYear(y)
    ensures 0 <= DaysBeforeMonth(y, m)
  {
    DaysBeforeMonthFrom(y, m);
    if m < 12 {
      assert DaysFrom(y, m) == DaysInMonth(y, m) + DaysFrom(y, m + 1);
      DaysFromPositive(y, m + 1);
    }
    DaysBeforeMonthNonNegative(y, m);
  }

  lemma {:induction false} DaysFromPositive(y: int, m: int)
    requires 1 <= m <= 12
    ensures DaysFrom(y, m) > 0
    decreases 12 - m
  {
    if m < 12 {
      DaysFromPositive(y, m + 1);
    }
  }

  lemma {:induction false} DaysBeforeMonthNonNegative(y: int, m: int)
    requires 1 <= m <= 12
    ensures DaysBeforeMonth(y, m) >= 0
    decreases m
  {
    if m > 1 {
      DaysBeforeMonthNonNegative(y, m - 1);
    }
  }

  lemma {:induction false} DaysBeforeYearGrows(y: int, y': int)
    requires y < y'
    ensures DaysBeforeYear(y') >= DaysBeforeYear(y) + DaysInYear(y)
    decreases y' - y
  {
    DaysBeforeYearStep(y' - 1);
    if y < y' - 1 {
      DaysBeforeYearGrows(y, y' - 1);
    }
  }

  lemma {:induction false} DaysBeforeMonthGrows(y: int, m: int, m': int)
    requires 1 <= m < m' <= 12
    ensures DaysBeforeMonth(y, m') >= DaysBeforeMonth(y, m) + DaysInMonth(y, m)
    decreases m' - m
  {
    if m < m' - 1 {
      DaysBeforeMonthGrows(y, m, m' - 1);
    }
  }

  /** Distinct valid dates have distinct day numbers. */
  lemma DayNumberInjective(y: int, m: int, d: int, y': int, m': int, d': int)
    requires ValidDate(y, m, d) && ValidDate(y', m', d')
    requires DayNumber(y, m, d) == DayNumber(y', m', d')
    ensures (y, m, d) == (y', m', d')
  {
    DayOfYearBounds(y, m, d);
    DayOfYearBounds(y', m', d');
    if y < y' {
      DaysBeforeYearGrows(y, y');
    } else if y' < y {
      DaysBeforeYearGrows(y', y);
    } else if m < m' {
      DaysBeforeMonthGrows(y, m, m');
    } else if m' < m {
      DaysBeforeMonthGrows(y, m', m);
    }
  }

  /**
   * Round trip: every second of the day numbered DayNumber(y, m, d), for a valid date,
   * has that date as its civil date.
   */
  lemma CivilDateOfDayNumber(y: int, m: int, d: int, second: int)
    requires ValidDate(y, m, d) && 0 <= second < SecondsPerDay
    ensures CivilDate(DayNumber(y, m, d) * SecondsPerDay + second) == (y, m, d)
  {
    var ts := DayNumber(y, m, d) * SecondsPerDay + second;
    assert ts / SecondsPerDay == DayNumber(y, m, d);
    CivilDateNumber(ts);
    CivilDateValid(ts);
    var r := CivilDate(ts);
    DayNumberInjective(r.0, r.1, r.2, y, m, d);
  }
}
