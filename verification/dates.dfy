/**
 * Calendar dates as day numbers (days since 1970-01-01, a Thursday) and
 * wall-clock instants as minutes since 1970-01-01T00:00. This replaces the
 * JavaScript `Date` objects of content.js, read in the browser's local time.
 */
module Dates {

  const MinutesPerDay: int := 1440

  datatype Civil = Civil(year: int, month: int, day: int)

  /** `Date.prototype.getDay`: 0 is Sunday, 1 Monday, ..., 6 Saturday. */
  function Weekday(d: int): (w: nat)
    ensures w < 7
  {
    (d + 4) % 7
  }

  /** Seven days later is the same weekday. */
  lemma WeekdayWeekly(d: int, k: int)
    ensures Weekday(d + 7 * k) == Weekday(d)
  {
  }

  /**
   * content.js `nextWeekdayOnOrAfter`: the first day on or after `start`
   * whose weekday is `weekday`; it is at most six days after `start`.
   */
  function NextWeekdayOnOrAfter(start: int, weekday: nat): (r: int)
    requires weekday < 7
    ensures start <= r <= start + 6
    ensures Weekday(r) == weekday
  {
    var delta := (weekday - Weekday(start) + 7) % 7;
    WeekdayGap(start, weekday);
    start + delta
  }

  /** No day between `start` and the day found has that weekday: it is the first. */
  lemma NextWeekdayFirst(start: int, weekday: nat)
    requires weekday < 7
    ensures forall d :: start <= d < NextWeekdayOnOrAfter(start, weekday) ==> Weekday(d) != weekday
  {
    WeekdayGap(start, weekday);
  }

  /** Within a week, weekdays advance by one a day, wrapping after Saturday. */
  lemma WeekdayShift(d: int, n: nat)
    requires n < 7
    ensures Weekday(d + n) == if Weekday(d) + n < 7 then Weekday(d) + n else Weekday(d) + n - 7
  {
    var q, r := (d + 4) / 7, (d + 4) % 7;
    assert d + 4 == 7 * q + r;
    if r + n < 7 {
      assert d + n + 4 == 7 * q + (r + n);
    } else {
      assert d + n + 4 == 7 * (q + 1) + (r + n - 7);
    }
  }

  /** The days before the gap to the next `weekday` all have other weekdays, and the gap ends on it. */
  lemma WeekdayGap(start: int, weekday: nat)
    requires weekday < 7
    ensures var delta := (weekday - Weekday(start) + 7) % 7;
      && Weekday(start + delta) == weekday
      && forall d :: start <= d < start + delta ==> Weekday(d) != weekday
  {
    var w := Weekday(start);
    var delta := if weekday >= w then weekday - w else weekday - w + 7;
    assert (weekday - w + 7) % 7 == delta;
    WeekdayShift(start, delta);
    forall d | start <= d < start + delta ensures Weekday(d) != weekday {
      WeekdayShift(start, d - start);
    }
  }

  function IsLeap(y: int): (r: bool) {
    y % 4 == 0 && (y % 100 != 0 || y % 400 == 0)
  }

  /**
   * Day number of a proleptic Gregorian date with `month` in 1..12; `day`
   * may run past the month, as in `Date`'s arithmetic.
   */
  function DaysFromCivil(year: int, month: int, day: int): (r: int)
    requires 1 <= month <= 12
  {
    var y := if month <= 2 then year - 1 else year;
    var era := y / 400;
    var yoe := y - era * 400;
    var mp := (month + 9) % 12;
    var doy := (153 * mp + 2) / 5 + day - 1;
    var doe := yoe * 365 + yoe / 4 - yoe / 100 + doy;
    era * 146097 + doe - 719468
  }

  /**
   * content.js `asLocalDate(y, mo, d)`, that is `new Date(y, mo - 1, d)`:
   * years 0..99 mean 1900..1999, and a month or day outside its range
   * rolls over into the next or previous year or month.
   */
  function LocalDate(year: int, month: int, day: int): (r: int)
  {
    var y := if 0 <= year <= 99 then 1900 + year else year;
    MonthStart(y * 12 + (month - 1)) + (day - 1)
  }

  /** Day number of the first day of the month `months` months after January of year 0. */
  function MonthStart(months: int): (r: int)
  {
    DaysFromCivil(months / 12, months % 12 + 1, 1)
  }

  /**
   * A year from 0 to 99 is read as 1900 to 1999; any other year, with a
   * month in range, names the calendar date itself.
   */
  lemma LocalDateYears(year: int, month: int, day: int)
    ensures 0 <= year <= 99 ==> LocalDate(year, month, day) == LocalDate(1900 + year, month, day)
    ensures !(0 <= year <= 99) && 1 <= month <= 12 ==> LocalDate(year, month, day) == DaysFromCivil(year, month, day)
  {
    if 0 <= year <= 99 {
      var n := (1900 + year) * 12 + (month - 1);
      assert LocalDate(year, month, day) == MonthStart(n) + (day - 1);
      LocalDateMonths(1900 + year, month, day, n);
    } else if 1 <= month <= 12 {
      var n := year * 12 + (month - 1);
      LocalDateMonths(year, month, day, n);
      MonthCount(year, month - 1);
      assert MonthStart(n) == DaysFromCivil(year, month, 1);
    }
  }

  /** A count of months splits back into its year and its month of the year. */
  lemma MonthCount(y: int, r: int)
    requires 0 <= r < 12
    ensures (y * 12 + r) / 12 == y && (y * 12 + r) % 12 == r
  {
  }

  /**
   * Months out of range roll over: twelve more months is the same month of
   * the next year, unless that crosses into or out of the two-digit years.
   */
  lemma LocalDateRollover(year: int, month: int, day: int)
    ensures !(-1 <= year <= 99) ==> LocalDate(year, month + 12, day) == LocalDate(year + 1, month, day)
  {
    if !(-1 <= year <= 99) {
      var n := year * 12 + (month + 12 - 1);
      assert (year + 1) * 12 + (month - 1) == n;
      LocalDateMonths(year, month + 12, day, n);
      LocalDateMonths(year + 1, month, day, n);
    }
  }

  /** Outside the two-digit years, the date counts whole months from January of year 0. */
  lemma LocalDateMonths(year: int, month: int, day: int, n: int)
    requires !(0 <= year <= 99) && n == year * 12 + (month - 1)
    ensures LocalDate(year, month, day) == MonthStart(n) + (day - 1)
  {
  }

  /** One more day is the next day, also across a month's or a year's end. */
  lemma LocalDateNextDay(year: int, month: int, day: int)
    ensures LocalDate(year, month, day + 1) == LocalDate(year, month, day) + 1
  {
  }

  /** "1/2/0050" is 2 January 1950, and month 13 of year 99 is January 2000. */
  lemma TwoDigitYearExamples()
    ensures LocalDate(50, 1, 2) == LocalDate(1950, 1, 2)
    ensures LocalDate(99, 13, 1) == LocalDate(2000, 1, 1)
  {
    LocalDateYears(50, 1, 2);
    LocalDateYears(99, 13, 1);
    LocalDateRollover(1999, 1, 1);
  }

  /** 30 February 2024 is the day after the leap day, 1 March. */
  lemma LeapDayRollsOver()
    ensures LocalDate(2024, 2, 30) == LocalDate(2024, 3, 1)
  {
    LocalDateMonths(2024, 2, 30, 24289);
    LocalDateMonths(2024, 3, 1, 24290);
    assert MonthStart(24289) == DaysFromCivil(2024, 2, 1) == 19754;
    assert MonthStart(24290) == DaysFromCivil(2024, 3, 1) == 19783;
  }

  /** Length of the year that starts on 1 March of year `yoe` of a 400-year era. */
  function MarchYearLength(yoe: int): (r: nat) {
    if IsLeap(yoe + 1) then 366 else 365
  }

  /** Splits a day of a 400-year era into its year and the day of that year (from 1 March). */
  function YearOfEra(doe: nat, yoe: nat): (r: (nat, nat))
    ensures r.1 < MarchYearLength(r.0)
    decreases doe
  {
    if doe < MarchYearLength(yoe) then (yoe, doe)
    else YearOfEra(doe - MarchYearLength(yoe), yoe + 1)
  }

  /**
   * `getFullYear`, `getMonth() + 1` and `getDate()` of a day number; the
   * month is in 1..12 and the day of the month in 1..31.
   */
  function CivilFromDays(z: int): (c: Civil)
    ensures 1 <= c.month <= 12 && 1 <= c.day <= 31
  {
    var z0 := z + 719468;
    var era := z0 / 146097;
    var doe := z0 % 146097;
    var (yoe, doy) := YearOfEra(doe, 0);
    var mp := (5 * doy + 2) / 153;
    var d := doy - (153 * mp + 2) / 5 + 1;
    var m := if mp < 10 then mp + 3 else mp - 9;
    Civil(era * 400 + yoe + (if m <= 2 then 1 else 0), m, d)
  }
}
