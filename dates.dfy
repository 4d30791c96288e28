/** .NET `DateTime` values as the repository uses them: compared with `<=`/`>=`, shifted with
    `AddYears`, and taken from the clock (`DateTime.Now`, which the callers pass in). */
module Dates {
  import opened Wrappers

  /** A `DateTime` tick is 100 nanoseconds. */
  const TicksPerDay: int := 864_000_000_000

  /** A calendar date with the time of day counted in ticks since midnight. */
  datatype DateTime = DateTime(year: int, month: int, day: int, tick: int)

  /** Gregorian leap years, as `DateTime.IsLeapYear`. */
  predicate IsLeapYear(year: int) {
    year % 4 == 0 && (year % 100 != 0 || year % 400 == 0)
  }

  /** `DateTime.DaysInMonth`. */
  function DaysInMonth(year: int, month: int): (n: int)
    requires 1 <= month <= 12
    ensures 28 <= n <= 31
    ensures n == 29 <==> month == 2 && IsLeapYear(year)
  {
    if month == 2 then (if IsLeapYear(year) then 29 else 28)
    else if month == 4 || month == 6 || month == 9 || month == 11 then 30
    else 31
  }

  /** The values a `DateTime` can hold: years 1 to 9999, real calendar days. */
  predicate Valid(d: DateTime) {
    && 1 <= d.year <= 9999
    && 1 <= d.month <= 12
    && 1 <= d.day <= DaysInMonth(d.year, d.month)
    && 0 <= d.tick < TicksPerDay
  }

  /** A number that orders valid `DateTime`s as their tick counts do; `DateTime`'s comparison
      operators compare tick counts. The month and day are given room for 13 and 32 values (a year weighs 13 * 32 days of ticks, a month 32), so
      the encoding stays linear and never lets a later field outweigh an earlier one. */
  function Ordinal(d: DateTime): (r: int)
    ensures Valid(d) ==> d.year * 359_424_000_000_000 < r < (d.year + 1) * 359_424_000_000_000
  {
    d.year * 359_424_000_000_000 + d.month * 27_648_000_000_000 + d.day * 864_000_000_000 + d.tick
  }

  /** Field-by-field comparison, the independent reading of "not later than". */
  ghost predicate NotLater(a: DateTime, b: DateTime) {
    || a.year < b.year
    || (a.year == b.year && a.month < b.month)
    || (a.year == b.year && a.month == b.month && a.day < b.day)
    || (a.year == b.year && a.month == b.month && a.day == b.day && a.tick <= b.tick)
  }

  /** Comparing ordinals compares dates field by field. */
  lemma OrdinalOrder(a: DateTime, b: DateTime)
    requires Valid(a) && Valid(b)
    ensures Ordinal(a) <= Ordinal(b) <==> NotLater(a, b)
  {
  }

  /** `DateTime.AddYears`: the same month, day and time of day `years` later; February 29
      becomes February 28 in a year that is not a leap year. A count outside -10000..10000, or a
      result year outside 1..9999, throws `ArgumentOutOfRangeException`. */
  function AddYears(d: DateTime, years: int): (r: Result<DateTime>)
    requires Valid(d)
    ensures r.Ok? <==> 1 <= d.year + years <= 9999
    ensures r.Failure? ==> r.error == ArgumentOutOfRange
    ensures r.Ok? ==> Valid(r.value)
    ensures r.Ok? ==> r.value.year == d.year + years && r.value.month == d.month && r.value.tick == d.tick
    ensures r.Ok? ==> r.value.day == d.day ||
                      (d.month == 2 && d.day == 29 && !IsLeapYear(d.year + years) && r.value.day == 28)
  {
    if years < -10000 || years > 10000 then Failure(ArgumentOutOfRange)
    else
      var y := d.year + years;
      if y < 1 || y > 9999 then Failure(ArgumentOutOfRange)
      else
        var last := DaysInMonth(y, d.month);
        Ok(DateTime(y, d.month, if d.day > last then last else d.day, d.tick))
  }

  /** Moving a date forward and back by the same number of years returns it, except for
      February 29, which the first step may have turned into February 28. */
  lemma AddYearsRoundTrip(d: DateTime, years: int)
    requires Valid(d) && AddYears(d, years).Ok?
    requires !(d.month == 2 && d.day == 29)
    ensures AddYears(AddYears(d, years).value, -years) == Ok(d)
  {
  }

  /** The number of whole years someone born on `dob` has lived at `now`: the birthday in a
      year counts once its month and day have come (a February 29 birthday counts from March 1
      in other years). */
  function Age(dob: DateTime, now: DateTime): int {
    now.year - dob.year -
      (if now.month < dob.month || (now.month == dob.month && now.day < dob.day) then 1 else 0)
  }

  /** Someone born at midnight on `dob` is at least `years` old at `now` exactly when `dob` is
      not later than `now.AddYears(-years)`. */
  lemma BornByMeansAtLeast(dob: DateTime, now: DateTime, years: int)
    requires Valid(dob) && Valid(now) && dob.tick == 0
    requires AddYears(now, -years).Ok?
    ensures Ordinal(dob) <= Ordinal(AddYears(now, -years).value) <==> Age(dob, now) >= years
  {
    OrdinalOrder(dob, AddYears(now, -years).value);
  }

  /** Someone born at midnight on `dob` is younger than `years` at `now`, a moment after
      midnight, exactly when `dob` is not earlier than `now.AddYears(-years)`. */
  lemma BornSinceMeansYounger(dob: DateTime, now: DateTime, years: int)
    requires Valid(dob) && Valid(now) && dob.tick == 0 && now.tick > 0
    requires AddYears(now, -years).Ok?
    ensures Ordinal(AddYears(now, -years).value) <= Ordinal(dob) <==> Age(dob, now) < years
  {
    OrdinalOrder(AddYears(now, -years).value, dob);
  }
}
