/** System.DateTime, kept as its proleptic Gregorian calendar date and the time of day in
    ticks (units of 100 ns). .NET stores one 64-bit tick count since 0001-01-01 00:00:00;
    `Ticks` recovers it, and every comparison and equality test below goes through it,
    as DateTime's own operators do. The Kind (Local, Utc, Unspecified) is not kept:
    DateTime equality and ordering ignore it. */
module DotNetDateTime {
  import opened Wrappers

  const TicksPerDay: int := 864_000_000_000
  const MaxYear: int := 9999

  datatype DateTime = DateTime(year: int, month: int, day: int, timeOfDay: int) {

    /** The values a DateTime can hold: DateTime.MinValue up to DateTime.MaxValue. */
    predicate Valid() {
      && 1 <= year <= MaxYear
      && 1 <= month <= 12
      && 1 <= day <= DaysInMonth(year, month)
      && 0 <= timeOfDay < TicksPerDay
    }

    /** DateTime.Ticks: the ticks elapsed since 0001-01-01 00:00:00. */
    function Ticks(): (t: int)
      requires Valid()
      ensures t >= 0
    {
      DayNumber(year, month, day) * TicksPerDay + timeOfDay
    }

    /** DateTime.Date: the same calendar day at 00:00:00, the greatest midnight not after this instant. */
    function Date(): (r: DateTime)
      requires Valid()
      ensures r.Valid() && r.timeOfDay == 0
      ensures r.Ticks() <= Ticks() < r.Ticks() + TicksPerDay
    {
      DateTime(year, month, day, 0)
    }
  }

  /** default(DateTime), which is DateTime.MinValue: 0001-01-01 00:00:00. */
  const MinValue: DateTime := DateTime(1, 1, 1, 0)

  /** `d == default`: DateTime's equality compares tick counts. */
  predicate IsDefault(d: DateTime): (b: bool)
    requires d.Valid()
    ensures b <==> d == MinValue
  {
    TicksFollowCalendar(d, MinValue);
    d.Ticks() == 0
  }

  predicate IsLeapYear(year: int) {
    year % 4 == 0 && (year % 100 != 0 || year % 400 == 0)
  }

  function DaysInYear(year: int): int {
    if IsLeapYear(year) then 366 else 365
  }

  function DaysInMonth(year: int, month: int): int
    requires 1 <= month <= 12
  {
    if month == 2 then (if IsLeapYear(year) then 29 else 28)
    else if month == 4 || month == 6 || month == 9 || month == 11 then 30
    else 31
  }

  /** The cumulative month tables DateTime uses (DaysToMonth365 and DaysToMonth366):
      the days of the year that precede the first day of `month`. */
  function DaysBeforeMonth(year: int, month: int): int
    requires 1 <= month <= 13
  {
    if IsLeapYear(year) then [0, 31, 60, 91, 121, 152, 182, 213, 244, 274, 305, 335, 366][month - 1]
    else [0, 31, 59, 90, 120, 151, 181, 212, 243, 273, 304, 334, 365][month - 1]
  }

  /** The days from 0001-01-01 to the first day of `year`. */
  function DaysBeforeYear(year: int): int
    requires year >= 1
  {
    var y := year - 1;
    y * 365 + y / 4 - y / 100 + y / 400
  }

  /** The days from 0001-01-01 to the given calendar day. */
  function DayNumber(year: int, month: int, day: int): int
    requires year >= 1 && 1 <= month <= 12
  {
    DaysBeforeYear(year) + DaysBeforeMonth(year, month) + day - 1
  }

  /** Calendar order: earlier year, then earlier month, then earlier day, then earlier time. */
  predicate CalendarBefore(a: DateTime, b: DateTime) {
    || a.year < b.year
    || (a.year == b.year && a.month < b.month)
    || (a.year == b.year && a.month == b.month && a.day < b.day)
    || (a.year == b.year && a.month == b.month && a.day == b.day && a.timeOfDay < b.timeOfDay)
  }

  // ---------------------------------------------------------------------------
  // The tick count against the calendar

  /** Each year adds its own length to the days before the next one. */
  lemma {:induction false} YearStep(year: int)
    requires year >= 1
    ensures DaysBeforeYear(year + 1) == DaysBeforeYear(year) + DaysInYear(year)
  {
    QuotientStep4(year);
    QuotientStep100(year);
    QuotientStep400(year);
    if year % 100 == 0 {
      assert year == 4 * (25 * (year / 100));
    }
    if year % 400 == 0 {
      assert year == 100 * (4 * (year / 400));
    }
  }

  lemma QuotientStep4(n: int)
    requires n >= 1
    ensures n / 4 == (n - 1) / 4 + (if n % 4 == 0 then 1 else 0)
  {
    var q := (n - 1) / 4;
    assert 4 * q <= n - 1 < 4 * q + 4;
  }

  lemma QuotientStep100(n: int)
    requires n >= 1
    ensures n / 100 == (n - 1) / 100 + (if n % 100 == 0 then 1 else 0)
  {
    var q := (n - 1) / 100;
    assert 100 * q <= n - 1 < 100 * q + 100;
  }

  lemma QuotientStep400(n: int)
    requires n >= 1
    ensures n / 400 == (n - 1) / 400 + (if n % 400 == 0 then 1 else 0)
  {
    var q := (n - 1) / 400;
    assert 400 * q <= n - 1 < 400 * q + 400;
  }

  lemma MonthStep(year: int, month: int)
    requires 1 <= month <= 12
    ensures DaysBeforeMonth(year, month + 1) == DaysBeforeMonth(year, month) + DaysInMonth(year, month)
    ensures DaysBeforeMonth(year, 13) == DaysInYear(year)
  {
  }

  /** A day of `year` lies in [DaysBeforeYear(year), DaysBeforeYear(year + 1)). */
  lemma DayNumberWithinYear(year: int, month: int, day: int)
    requires 1 <= year && 1 <= month <= 12 && 1 <= day <= DaysInMonth(year, month)
    ensures DaysBeforeYear(year) <= DayNumber(year, month, day) < DaysBeforeYear(year + 1)
  {
    MonthStep(year, month);
    MonthsIncrease(year, month + 1, 13);
    YearStep(year);
  }

  lemma {:induction false} YearsIncrease(a: int, b: int)
    requires 1 <= a <= b
    ensures DaysBeforeYear(a) <= DaysBeforeYear(b)
    decreases b - a
  {
    if a < b {
      YearStep(a);
      YearsIncrease(a + 1, b);
    }
  }

  lemma MonthsIncrease(year: int, a: int, b: int)
    requires 1 <= a <= b <= 13
    ensures DaysBeforeMonth(year, a) <= DaysBeforeMonth(year, b)
  {
  }

  /** Day numbers follow calendar order: the tick count is a faithful encoding of the date. */
  lemma DayNumberOrder(a: DateTime, b: DateTime)
    requires a.Valid() && b.Valid()
    ensures DayNumber(a.year, a.month, a.day) < DayNumber(b.year, b.month, b.day) <==>
      (a.year, a.month, a.day) != (b.year, b.month, b.day) && !CalendarBefore(b, a)
  {
    if a.year < b.year {
      DayNumberWithinYear(a.year, a.month, a.day);
      DayNumberWithinYear(b.year, b.month, b.day);
      YearsIncrease(a.year + 1, b.year);
    } else if b.year < a.year {
      DayNumberWithinYear(a.year, a.month, a.day);
      DayNumberWithinYear(b.year, b.month, b.day);
      YearsIncrease(b.year + 1, a.year);
    } else if a.month < b.month {
      MonthStep(a.year, a.month);
      MonthsIncrease(a.year, a.month + 1, b.month);
    } else if b.month < a.month {
      MonthStep(a.year, b.month);
      MonthsIncrease(a.year, b.month + 1, a.month);
    }
  }

  /** DateTime's tick comparison is calendar order, and equal ticks mean the same date and time. */
  lemma TicksFollowCalendar(a: DateTime, b: DateTime)
    requires a.Valid() && b.Valid()
    ensures a.Ticks() < b.Ticks() <==> CalendarBefore(a, b)
    ensures a.Ticks() == b.Ticks() <==> a == b
  {
    DayNumberOrder(a, b);
    DayNumberOrder(b, a);
  }

  /** `d == default` holds of 0001-01-01 00:00:00 only, while `d.Date == default` holds of
      every instant of that first day. */
  lemma DefaultIsMinValue(d: DateTime)
    requires d.Valid()
    ensures IsDefault(d) <==> IsDefault(d.Date()) && d.timeOfDay == 0
    ensures IsDefault(d.Date()) <==> d.year == 1 && d.month == 1 && d.day == 1
  {
  }

  // ---------------------------------------------------------------------------
  // Arithmetic

  datatype DateTimeError = ArgumentOutOfRange

  /** DateTime.AddYears: the same month, day and time in year `year + value`; 29 February
      becomes 28 February in a common year; ArgumentOutOfRangeException when `value` is
      outside [-10000, 10000] or the resulting year is outside [1, 9999]. */
  function AddYears(d: DateTime, value: int): (r: Result<DateTime, DateTimeError>)
    requires d.Valid()
    ensures r.Ok? <==> 1 <= d.year + value <= MaxYear
    ensures r.Ok? ==> && r.value.Valid()
                      && r.value.year == d.year + value
                      && r.value.month == d.month
                      && r.value.timeOfDay == d.timeOfDay
    ensures r.Ok? ==>
      (r.value.day == d.day || (d.month == 2 && d.day == 29 && r.value.day == 28 && !IsLeapYear(d.year + value)))
  {
    if value < -10000 || value > 10000 then Err(ArgumentOutOfRange)
    else
      var y := d.year + value;
      if y < 1 || y > MaxYear then Err(ArgumentOutOfRange)
      else
        var last := DaysInMonth(y, d.month);
        Ok(DateTime(y, d.month, if d.day > last then last else d.day, d.timeOfDay))
  }

  /** DateTime.AddDays(1): one day of ticks later; ArgumentOutOfRangeException past DateTime.MaxValue. */
  function NextDay(d: DateTime): (r: Result<DateTime, DateTimeError>)
    requires d.Valid()
    ensures r.Ok? <==> !(d.year == MaxYear && d.month == 12 && d.day == 31)
    ensures r.Ok? ==> r.value.Valid() && r.value.Ticks() == d.Ticks() + TicksPerDay
  {
    if d.day < DaysInMonth(d.year, d.month) then
      Ok(DateTime(d.year, d.month, d.day + 1, d.timeOfDay))
    else if d.month < 12 then
      MonthStep(d.year, d.month);
      Ok(DateTime(d.year, d.month + 1, 1, d.timeOfDay))
    else if d.year < MaxYear then
      MonthStep(d.year, 12);
      YearStep(d.year);
      Ok(DateTime(d.year + 1, 1, 1, d.timeOfDay))
    else
      Err(ArgumentOutOfRange)
  }

  /** DateTime.AddDays(-1): one day of ticks earlier; ArgumentOutOfRangeException before DateTime.MinValue. */
  function PreviousDay(d: DateTime): (r: Result<DateTime, DateTimeError>)
    requires d.Valid()
    ensures r.Ok? <==> !(d.year == 1 && d.month == 1 && d.day == 1)
    ensures r.Ok? ==> r.value.Valid() && r.value.Ticks() == d.Ticks() - TicksPerDay
  {
    if d.day > 1 then
      Ok(DateTime(d.year, d.month, d.day - 1, d.timeOfDay))
    else if d.month > 1 then
      MonthStep(d.year, d.month - 1);
      Ok(DateTime(d.year, d.month - 1, DaysInMonth(d.year, d.month - 1), d.timeOfDay))
    else if d.year > 1 then
      MonthStep(d.year - 1, 12);
      YearStep(d.year - 1);
      Ok(DateTime(d.year - 1, 12, 31, d.timeOfDay))
    else
      Err(ArgumentOutOfRange)
  }
}
