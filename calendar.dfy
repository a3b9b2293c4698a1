/**
 * The proleptic Gregorian calendar that `datetime` uses, as far as
 * `strftime("%Y%m%d-%H%M%S")` needs it: an instant is turned into its year,
 * month, day, hour, minute and second.
 */
module Calendar {
  import opened Clock

  predicate IsLeap(year: int) {
    year % 4 == 0 && (year % 100 != 0 || year % 400 == 0)
  }

  function DaysInYear(year: int): int {
    if IsLeap(year) then 366 else 365
  }

  /** Days from 0001-01-01 to the first day of `year`, as CPython's `_days_before_year`. */
  function DaysBeforeYear(year: int): int
    requires year >= 1
  {
    var y := year - 1;
    y * 365 + y / 4 - y / 100 + y / 400
  }

  function DaysInMonth(year: int, month: int): int
    requires 1 <= month <= 12
  {
    if month == 2 then (if IsLeap(year) then 29 else 28)
    else if month == 4 || month == 6 || month == 9 || month == 11 then 30
    else 31
  }

  /** Days in `year` before the first day of `month`, as CPython's `_days_before_month`. */
  function DaysBeforeMonth(year: int, month: int): int
    requires 1 <= month <= 12
  {
    [0, 31, 59, 90, 120, 151, 181, 212, 243, 273, 304, 334][month - 1]
      + (if month > 2 && IsLeap(year) then 1 else 0)
  }

  lemma DaysBeforeNextYear(year: int)
    requires year >= 1
    ensures DaysBeforeYear(year + 1) == DaysBeforeYear(year) + DaysInYear(year)
  {
    var y := year - 1;
    assert (y + 1) / 4 == y / 4 + (if year % 4 == 0 then 1 else 0);
    assert (y + 1) / 100 == y / 100 + (if year % 100 == 0 then 1 else 0);
    assert (y + 1) / 400 == y / 400 + (if year % 400 == 0 then 1 else 0);
  }

  lemma DaysBeforeNextMonth(year: int, month: int)
    requires 1 <= month <= 12
    ensures month < 12 ==> DaysBeforeMonth(year, month + 1) == DaysBeforeMonth(year, month) + DaysInMonth(year, month)
    ensures month == 12 ==> DaysBeforeMonth(year, month) + DaysInMonth(year, month) == DaysInYear(year)
  {
  }

  /** A civil date and time at second resolution (microseconds are not printed). */
  datatype DateTime = DateTime(year: int, month: int, day: int, hour: int, minute: int, second: int)
  {
    predicate Valid() {
      1 <= year <= 9999 && 1 <= month <= 12 && 1 <= day <= DaysInMonth(year, month)
      && 0 <= hour < 24 && 0 <= minute < 60 && 0 <= second < 60
    }
  }

  /** Whole seconds from 0001-01-01T00:00:00 to `c`. */
  function SecondsSinceOrigin(c: DateTime): int
    requires c.Valid()
  {
    (DaysBeforeYear(c.year) + DaysBeforeMonth(c.year, c.month) + c.day - 1) * SecondsPerDay
      + c.hour * 3600 + c.minute * 60 + c.second
  }

  /** The year holding day number `days`, searched upwards from `year`. */
  function YearFrom(days: int, year: int): (y: int)
    requires 1 <= year <= 9999
    requires DaysBeforeYear(year) <= days < DaysBeforeYear(10000)
    ensures year <= y <= 9999
    ensures DaysBeforeYear(y) <= days < DaysBeforeYear(y) + DaysInYear(y)
    decreases days - DaysBeforeYear(year)
  {
    DaysBeforeNextYear(year);
    if days < DaysBeforeYear(year + 1) then year else YearFrom(days, year + 1)
  }

  /** The month holding day `dayOfYear` (0-based) of `year`, searched upwards from `month`. */
  function MonthFrom(year: int, dayOfYear: int, month: int): (m: int)
    requires 1 <= month <= 12
    requires DaysBeforeMonth(year, month) <= dayOfYear < DaysInYear(year)
    ensures month <= m <= 12
    ensures DaysBeforeMonth(year, m) <= dayOfYear < DaysBeforeMonth(year, m) + DaysInMonth(year, m)
    decreases 12 - month
  {
    DaysBeforeNextMonth(year, month);
    if month == 12 || dayOfYear < DaysBeforeMonth(year, month + 1) then month
    else MonthFrom(year, dayOfYear, month + 1)
  }

  /** The civil date and time of the `secs`-th second since the origin. */
  function FromSeconds(secs: int): (c: DateTime)
    requires 0 <= secs < DaysInRange * SecondsPerDay
    ensures c.Valid() && SecondsSinceOrigin(c) == secs
  {
    var days := secs / SecondsPerDay;
    var timeOfDay := secs % SecondsPerDay;
    var year := YearFrom(days, 1);
    var dayOfYear := days - DaysBeforeYear(year);
    var month := MonthFrom(year, dayOfYear, 1);
    DateTime(year, month, dayOfYear - DaysBeforeMonth(year, month) + 1,
             timeOfDay / 3600, timeOfDay % 3600 / 60, timeOfDay % 60)
  }

  /** What `strftime` sees of an instant: its fields, microseconds dropped. */
  function FromInstant(t: Instant): (c: DateTime)
    ensures c.Valid() && SecondsSinceOrigin(c) == t / MicrosPerSecond
  {
    FromSeconds(t / MicrosPerSecond)
  }

  lemma {:induction false} LaterYearsStartLater(a: int, b: int)
    requires 1 <= a < b
    ensures DaysBeforeYear(a) + DaysInYear(a) <= DaysBeforeYear(b)
    decreases b - a
  {
    DaysBeforeNextYear(a);
    if a + 1 < b {
      LaterYearsStartLater(a + 1, b);
      DaysBeforeNextYear(a + 1);
    }
  }

  /** Only one year can hold a given day number. */
  lemma YearIsUnique(days: int, y1: int, y2: int)
    requires 1 <= y1 && 1 <= y2
    requires DaysBeforeYear(y1) <= days < DaysBeforeYear(y1) + DaysInYear(y1)
    requires DaysBeforeYear(y2) <= days < DaysBeforeYear(y2) + DaysInYear(y2)
    ensures y1 == y2
  {
    if y1 < y2 {
      LaterYearsStartLater(y1, y2);
    } else if y2 < y1 {
      LaterYearsStartLater(y2, y1);
    }
  }

  /** Only one month can hold a given day of the year. */
  lemma MonthIsUnique(year: int, dayOfYear: int, m1: int, m2: int)
    requires 1 <= m1 <= 12 && 1 <= m2 <= 12
    requires DaysBeforeMonth(year, m1) <= dayOfYear < DaysBeforeMonth(year, m1) + DaysInMonth(year, m1)
    requires DaysBeforeMonth(year, m2) <= dayOfYear < DaysBeforeMonth(year, m2) + DaysInMonth(year, m2)
    ensures m1 == m2
  {
  }

  /** Day of the year (0-based) of a valid date. */
  lemma DayOfYearInRange(c: DateTime)
    requires c.Valid()
    ensures 0 <= DaysBeforeMonth(c.year, c.month) + c.day - 1 < DaysInYear(c.year)
  {
    DaysBeforeNextMonth(c.year, c.month);
    DaysBeforeNextMonth(c.year, 12);
  }

  /** Day number (since the origin) of a valid date, below the end of year 9999. */
  lemma DayNumberInRange(c: DateTime)
    requires c.Valid()
    ensures 0 <= DaysBeforeYear(c.year) + DaysBeforeMonth(c.year, c.month) + c.day - 1 < DaysInRange
  {
    DayOfYearInRange(c);
    DaysBeforeNextYear(9999);
    if c.year < 9999 {
      LaterYearsStartLater(c.year, 9999);
    }
  }

  lemma TimeOfDaySplits(hour: int, minute: int, second: int)
    requires 0 <= hour < 24 && 0 <= minute < 60 && 0 <= second < 60
    ensures var t := hour * 3600 + minute * 60 + second;
      0 <= t < SecondsPerDay && t / 3600 == hour && t % 3600 / 60 == minute && t % 60 == second
  {
  }

  /** Counting seconds and converting back loses nothing: the two conversions are inverse. */
  lemma FromSecondsInverse(c: DateTime)
    requires c.Valid()
    ensures 0 <= SecondsSinceOrigin(c) < DaysInRange * SecondsPerDay
    ensures FromSeconds(SecondsSinceOrigin(c)) == c
  {
    var dayOfYear := DaysBeforeMonth(c.year, c.month) + c.day - 1;
    var days := DaysBeforeYear(c.year) + dayOfYear;
    var timeOfDay := c.hour * 3600 + c.minute * 60 + c.second;
    DayOfYearInRange(c);
    DayNumberInRange(c);
    TimeOfDaySplits(c.hour, c.minute, c.second);
    var secs := SecondsSinceOrigin(c);
    SplitSeconds(secs, days, timeOfDay);
    YearIsUnique(days, YearFrom(days, 1), c.year);
    MonthIsUnique(c.year, dayOfYear, MonthFrom(c.year, dayOfYear, 1), c.month);
  }

  /** A second count splits uniquely into whole days and the time of day. */
  lemma SplitSeconds(secs: int, days: int, timeOfDay: int)
    requires 0 <= days && 0 <= timeOfDay < SecondsPerDay
    requires secs == days * SecondsPerDay + timeOfDay
    ensures secs / SecondsPerDay == days && secs % SecondsPerDay == timeOfDay
  {
  }
}
