/**
 * content.js `expandOccurrences`: a meeting pattern becomes one dated
 * occurrence per meeting day in its date range. `Date` objects are wall-clock
 * instants in minutes; the clock read `new Date()` is the parameter `now`.
 */
module Occurrences {
  import opened Wrappers
  import opened Tokens
  import opened Days
  import opened Dates
  import opened Meeting

  /** The default range: 7 * 16 days. */
  const DefaultSpanDays: int := 112

  /** Minutes added to an end that is not after its start. */
  const FallbackMinutes: int := 50

  const MinutesPerWeek: int := 7 * MinutesPerDay

  /** The object `expandOccurrences` pushes; `start` and `end` are instants in minutes. */
  datatype Occurrence = Occurrence(title: string, location: string, start: int, end: int)

  /**
   * `nextWeekdayOnOrAfter` on a `Date` instant: moved forward by whole days
   * to the first day with that weekday, keeping the time of day.
   */
  function NextOnOrAfter(instant: int, weekday: nat): (r: int)
    requires weekday < 7
    ensures r % MinutesPerDay == instant % MinutesPerDay
    ensures r / MinutesPerDay == NextWeekdayOnOrAfter(instant / MinutesPerDay, weekday)
    ensures instant <= r
  {
    var day := instant / MinutesPerDay;
    var k := NextWeekdayOnOrAfter(day, weekday) - day;
    DayShift(instant, k);
    instant + k * MinutesPerDay
  }

  /** Moving an instant by `k` whole days keeps its time of day and moves its day by `k`. */
  lemma DayShift(instant: int, k: int)
    ensures (instant + k * MinutesPerDay) % MinutesPerDay == instant % MinutesPerDay
    ensures (instant + k * MinutesPerDay) / MinutesPerDay == instant / MinutesPerDay + k
  {
    var q, r := instant / MinutesPerDay, instant % MinutesPerDay;
    assert instant + k * MinutesPerDay == (q + k) * MinutesPerDay + r;
  }

  /**
   * The start of the range: the pattern's start date at midnight, else the
   * first Monday on or after `now`, at now's time of day.
   */
  function RangeStart(mp: MeetingPattern, now: int): (r: int)
    ensures mp.startDate.Some? ==> r == mp.startDate.value * MinutesPerDay
    ensures mp.startDate.None? ==>
      && r / MinutesPerDay == NextWeekdayOnOrAfter(now / MinutesPerDay, 1)
      && Weekday(r / MinutesPerDay) == 1
      && now <= r < now + 7 * MinutesPerDay
  {
    if mp.startDate.Some? then mp.startDate.value * MinutesPerDay else NextOnOrAfter(now, 1)
  }

  /**
   * The end of the range: midnight of the pattern's end date; without one,
   * the same weekday and time of day 16 weeks after the start, which for a
   * pattern without any dates is a Monday 112 to 118 days after `now`.
   */
  function RangeEnd(mp: MeetingPattern, now: int): (r: int)
    ensures mp.endDate.Some? ==> r % MinutesPerDay == 0 && r / MinutesPerDay == mp.endDate.value
    ensures mp.endDate.None? ==>
      var start := RangeStart(mp, now);
      && r % MinutesPerDay == start % MinutesPerDay
      && r / MinutesPerDay == start / MinutesPerDay + DefaultSpanDays
      && Weekday(r / MinutesPerDay) == Weekday(start / MinutesPerDay)
    ensures mp.startDate.None? && mp.endDate.None? ==>
      Weekday(r / MinutesPerDay) == 1 && now + DefaultSpanDays * MinutesPerDay <= r < now + (DefaultSpanDays + 7) * MinutesPerDay
  {
    if mp.endDate.Some? then
      DayShift(0, mp.endDate.value);
      mp.endDate.value * MinutesPerDay
    else
      var start := RangeStart(mp, now);
      DayShift(start, DefaultSpanDays);
      WeekdayWeekly(start / MinutesPerDay, 16);
      start + DefaultSpanDays * MinutesPerDay
  }

  /** `new Date(y, mo, d, h, m, 0, 0)` on day `day`: hours and minutes past their range roll over. */
  function At(day: int, t: Time): (r: int) {
    day * MinutesPerDay + t.h * 60 + t.m
  }

  predicate HasTimes(mp: MeetingPattern) {
    mp.startTime.Some? && mp.endTime.Some?
  }

  /** The occurrence the loop pushes for the meeting on `day`. */
  function OccurrenceOn(mp: MeetingPattern, title: string, day: int): (o: Occurrence)
    requires HasTimes(mp)
  {
    var st := At(day, mp.startTime.value);
    var en := At(day, mp.endTime.value);
    Occurrence(title, mp.location, st, if en <= st then en + FallbackMinutes else en)
  }

  /** The occurrences of one weekday: from the instant `cur` while it is not after `end`, a week apart. */
  function Weekly(mp: MeetingPattern, title: string, cur: int, end: int): (r: seq<Occurrence>)
    requires HasTimes(mp)
    decreases end - cur
  {
    if cur > end then [] else [OccurrenceOn(mp, title, cur / MinutesPerDay)] + Weekly(mp, title, cur + MinutesPerWeek, end)
  }

  /** The occurrences of `days`, weekday after weekday in their order. */
  function PerDays(mp: MeetingPattern, title: string, days: seq<DayCode>, start: int, end: int): (r: seq<Occurrence>)
    requires HasTimes(mp)
  {
    if days == [] then []
    else PerDays(mp, title, days[..|days| - 1], start, end)
         + Weekly(mp, title, NextOnOrAfter(start, WeekdayNumber(days[|days| - 1])), end)
  }

  /** What `expandOccurrences(mp, title)` returns when the clock reads `now`. */
  function Expansion(mp: MeetingPattern, title: string, now: int): (r: seq<Occurrence>) {
    if mp.days == [] || !HasTimes(mp) then []
    else PerDays(mp, title, mp.days, RangeStart(mp, now), RangeEnd(mp, now))
  }

  /** content.js `expandOccurrences`. */
  method ExpandOccurrences(mp: MeetingPattern, courseTitle: string, now: int) returns (out: seq<Occurrence>)
    ensures out == Expansion(mp, courseTitle, now)
  {
    out := [];
    if mp.days == [] || mp.startTime.None? || mp.endTime.None? {
      return;
    }
    var startDate := RangeStart(mp, now);
    var endDate := RangeEnd(mp, now);
    var i := 0;
    while i < |mp.days|
      invariant 0 <= i <= |mp.days|
      invariant out == PerDays(mp, courseTitle, mp.days[..i], startDate, endDate)
    {
      var weekday0Sun := WeekdayNumber(mp.days[i]);
      var cur := NextOnOrAfter(startDate, weekday0Sun);
      ghost var first, before := cur, out;
      while cur <= endDate
        invariant out + Weekly(mp, courseTitle, cur, endDate) == before + Weekly(mp, courseTitle, first, endDate)
        decreases endDate - cur
      {
        var st := At(cur / MinutesPerDay, mp.startTime.value);
        var en := At(cur / MinutesPerDay, mp.endTime.value);
        if en <= st {
          en := en + FallbackMinutes;
        }
        WeeklyStep(mp, courseTitle, cur, endDate, out);
        assert Occurrence(courseTitle, mp.location, st, en) == OccurrenceOn(mp, courseTitle, cur / MinutesPerDay);
        out := out + [Occurrence(courseTitle, mp.location, st, en)];
        cur := cur + MinutesPerWeek;
      }
      assert out == before + Weekly(mp, courseTitle, first, endDate);
      PerDaysSnoc(mp, courseTitle, mp.days, i, startDate, endDate);
      i := i + 1;
    }
    assert mp.days[..i] == mp.days;
  }

  /** One turn of the inner loop: the occurrence at `cur`, then the rest a week later. */
  lemma WeeklyStep(mp: MeetingPattern, title: string, cur: int, end: int, out: seq<Occurrence>)
    requires HasTimes(mp) && cur <= end
    ensures out + Weekly(mp, title, cur, end) == (out + [OccurrenceOn(mp, title, cur / MinutesPerDay)]) + Weekly(mp, title, cur + MinutesPerWeek, end)
  {
  }

  /** One turn of the outer loop: the weekday at `i` adds its occurrences after those before it. */
  lemma PerDaysSnoc(mp: MeetingPattern, title: string, days: seq<DayCode>, i: nat, start: int, end: int)
    requires HasTimes(mp) && i < |days|
    ensures PerDays(mp, title, days[..i + 1], start, end)
         == PerDays(mp, title, days[..i], start, end) + Weekly(mp, title, NextOnOrAfter(start, WeekdayNumber(days[i])), end)
  {
    assert days[..i + 1][..i] == days[..i];
  }

  // ----- properties -----

  /**
   * Each weekday's occurrences in closed form: the `k`-th falls `k` weeks
   * after the first meeting day, a week after the one before, and there are
   * as many as there are instants `cur + k` weeks not after `end`.
   */
  lemma {:induction false} WeeklyClosedForm(mp: MeetingPattern, title: string, cur: int, end: int)
    requires HasTimes(mp)
    ensures var w := Weekly(mp, title, cur, end);
      && |w| == (if cur > end then 0 else (end - cur) / MinutesPerWeek + 1)
      && forall k :: 0 <= k < |w| ==> w[k] == OccurrenceOn(mp, title, cur / MinutesPerDay + 7 * k)
    decreases end - cur
  {
    if cur <= end {
      var next := cur + MinutesPerWeek;
      WeeklyClosedForm(mp, title, next, end);
      assert next / MinutesPerDay == cur / MinutesPerDay + 7;
      var w, w' := Weekly(mp, title, cur, end), Weekly(mp, title, next, end);
      forall k | 1 <= k < |w| ensures w[k] == OccurrenceOn(mp, title, cur / MinutesPerDay + 7 * k) {
        assert w[k] == w'[k - 1];
      }
      if next > end {
        assert (end - cur) / MinutesPerWeek == 0;
      } else {
        assert (end - next) / MinutesPerWeek + 1 == (end - cur) / MinutesPerWeek;
      }
    }
  }

  /** An occurrence starts at the start time on its day and lasts as long as the times say, or 50 minutes more when that is not positive. */
  lemma OccurrenceDuration(mp: MeetingPattern, title: string, day: int)
    requires HasTimes(mp)
    ensures var o, st, et := OccurrenceOn(mp, title, day), mp.startTime.value, mp.endTime.value;
      var d := (et.h * 60 + et.m) - (st.h * 60 + st.m);
      && o.title == title && o.location == mp.location
      && o.start == day * MinutesPerDay + st.h * 60 + st.m
      && o.end - o.start == (if d > 0 then d else d + FallbackMinutes)
      && (o.end > o.start <==> d > -FallbackMinutes)
  {
  }

  /** The meeting days of the pattern: a day whose weekday one of its codes names. */
  predicate MeetsOn(mp: MeetingPattern, day: int) {
    exists i :: 0 <= i < |mp.days| && WeekdayNumber(mp.days[i]) == Weekday(day)
  }

  /**
   * `day` lies in the range: not before the day the range starts, and the
   * instant at the range's starting time of day on `day` is not after its end.
   */
  predicate InRange(mp: MeetingPattern, now: int, day: int) {
    var start := RangeStart(mp, now);
    start / MinutesPerDay <= day && day * MinutesPerDay + start % MinutesPerDay <= RangeEnd(mp, now)
  }

  lemma WeeklyInRange(mp: MeetingPattern, title: string, start: int, end: int, weekday: nat)
    requires HasTimes(mp) && weekday < 7
    ensures var first := NextOnOrAfter(start, weekday);
      forall o :: o in Weekly(mp, title, first, end) ==>
        exists day :: && Weekday(day) == weekday
                      && start / MinutesPerDay <= day
                      && day * MinutesPerDay + start % MinutesPerDay <= end
                      && o == OccurrenceOn(mp, title, day)
  {
    var first := NextOnOrAfter(start, weekday);
    var w := Weekly(mp, title, first, end);
    WeeklyClosedForm(mp, title, first, end);
    forall o | o in w
      ensures exists day :: && Weekday(day) == weekday
                            && start / MinutesPerDay <= day
                            && day * MinutesPerDay + start % MinutesPerDay <= end
                            && o == OccurrenceOn(mp, title, day)
    {
      var k :| 0 <= k < |w| && w[k] == o;
      var day := first / MinutesPerDay + 7 * k;
      WeekdayWeekly(first / MinutesPerDay, k);
      WeekInstant(first, end, k);
    }
  }

  /** The `k`-th weekly instant from `first`, when `k` is within the count of `WeeklyClosedForm`. */
  lemma WeekInstant(first: int, end: int, k: nat)
    requires first <= end && k <= (end - first) / MinutesPerWeek
    ensures (first / MinutesPerDay + 7 * k) * MinutesPerDay + first % MinutesPerDay == first + k * MinutesPerWeek <= end
  {
  }

  /** A day on the weekday of `first` and not before it lies a whole number of weeks after it. */
  lemma WeekIndex(first: int, day: int, end: int) returns (k: nat)
    requires first / MinutesPerDay <= day && Weekday(first / MinutesPerDay) == Weekday(day)
    requires day * MinutesPerDay + first % MinutesPerDay <= end
    ensures day == first / MinutesPerDay + 7 * k && k <= (end - first) / MinutesPerWeek && first <= end
  {
    var f := first / MinutesPerDay;
    assert (f + 4) % 7 == (day + 4) % 7;
    k := (day - f) / 7;
    assert day == f + 7 * k;
    assert first + k * MinutesPerWeek == day * MinutesPerDay + first % MinutesPerDay;
  }

  lemma WeeklyComplete(mp: MeetingPattern, title: string, start: int, end: int, day: int)
    requires HasTimes(mp)
    requires start / MinutesPerDay <= day && day * MinutesPerDay + start % MinutesPerDay <= end
    ensures OccurrenceOn(mp, title, day) in Weekly(mp, title, NextOnOrAfter(start, Weekday(day)), end)
  {
    var first := NextOnOrAfter(start, Weekday(day));
    NextWeekdayFirst(start / MinutesPerDay, Weekday(day));
    assert first / MinutesPerDay <= day;
    var k := WeekIndex(first, day, end);
    WeeklyAt(mp, title, first, end, k);
  }

  /** The `k`-th meeting of a weekly run, when `k` is within its count. */
  lemma WeeklyAt(mp: MeetingPattern, title: string, first: int, end: int, k: nat)
    requires HasTimes(mp) && first <= end && k <= (end - first) / MinutesPerWeek
    ensures OccurrenceOn(mp, title, first / MinutesPerDay + 7 * k) in Weekly(mp, title, first, end)
  {
    WeeklyClosedForm(mp, title, first, end);
    assert Weekly(mp, title, first, end)[k] == OccurrenceOn(mp, title, first / MinutesPerDay + 7 * k);
  }

  lemma {:induction false} PerDaysSound(mp: MeetingPattern, title: string, days: seq<DayCode>, now: int)
    requires HasTimes(mp) && forall i :: 0 <= i < |days| ==> days[i] in mp.days
    ensures forall o :: o in PerDays(mp, title, days, RangeStart(mp, now), RangeEnd(mp, now)) ==>
      exists day :: MeetsOn(mp, day) && InRange(mp, now, day) && o == OccurrenceOn(mp, title, day)
  {
    if days != [] {
      var start, end := RangeStart(mp, now), RangeEnd(mp, now);
      var c := days[|days| - 1];
      PerDaysSound(mp, title, days[..|days| - 1], now);
      WeeklyInRange(mp, title, start, end, WeekdayNumber(c));
      var j :| 0 <= j < |mp.days| && mp.days[j] == c;
      forall o | o in Weekly(mp, title, NextOnOrAfter(start, WeekdayNumber(c)), end)
        ensures exists day :: MeetsOn(mp, day) && InRange(mp, now, day) && o == OccurrenceOn(mp, title, day)
      {
        var day :| && Weekday(day) == WeekdayNumber(c)
                   && start / MinutesPerDay <= day
                   && day * MinutesPerDay + start % MinutesPerDay <= end
                   && o == OccurrenceOn(mp, title, day);
        assert MeetsOn(mp, day) by { assert WeekdayNumber(mp.days[j]) == Weekday(day); }
      }
    }
  }

  lemma {:induction false} PerDaysComplete(mp: MeetingPattern, title: string, days: seq<DayCode>, now: int, i: nat, day: int)
    requires HasTimes(mp) && i < |days|
    requires WeekdayNumber(days[i]) == Weekday(day) && InRange(mp, now, day)
    ensures OccurrenceOn(mp, title, day) in PerDays(mp, title, days, RangeStart(mp, now), RangeEnd(mp, now))
  {
    var start, end := RangeStart(mp, now), RangeEnd(mp, now);
    if i == |days| - 1 {
      WeeklyComplete(mp, title, start, end, day);
    } else {
      PerDaysComplete(mp, title, days[..|days| - 1], now, i, day);
    }
  }

  /**
   * The occurrences are exactly one per meeting day in the range: every
   * occurrence is the meeting on a day whose weekday the pattern names and
   * that lies in the range, and every such day has its occurrence. Without
   * days or without both times there are none.
   */
  lemma ExpansionExact(mp: MeetingPattern, title: string, now: int)
    ensures Expansion(mp, title, now) != [] ==> mp.days != [] && HasTimes(mp)
    ensures forall o :: o in Expansion(mp, title, now) ==>
      exists day :: MeetsOn(mp, day) && InRange(mp, now, day) && o == OccurrenceOn(mp, title, day)
    ensures HasTimes(mp) ==> forall day :: MeetsOn(mp, day) && InRange(mp, now, day) ==>
      OccurrenceOn(mp, title, day) in Expansion(mp, title, now)
  {
    if mp.days != [] && HasTimes(mp) {
      PerDaysSound(mp, title, mp.days, now);
      forall day | MeetsOn(mp, day) && InRange(mp, now, day)
        ensures OccurrenceOn(mp, title, day) in Expansion(mp, title, now)
      {
        var i :| 0 <= i < |mp.days| && WeekdayNumber(mp.days[i]) == Weekday(day);
        PerDaysComplete(mp, title, mp.days, now, i, day);
      }
    }
  }

  lemma {:induction false} PerDaysAppend(mp: MeetingPattern, title: string, a: seq<DayCode>, b: seq<DayCode>, start: int, end: int)
    requires HasTimes(mp)
    ensures PerDays(mp, title, a + b, start, end) == PerDays(mp, title, a, start, end) + PerDays(mp, title, b, start, end)
    decreases |b|
  {
    if b == [] {
      assert a + b == a;
    } else {
      assert (a + b)[..|a + b| - 1] == a + b[..|b| - 1];
      PerDaysAppend(mp, title, a, b[..|b| - 1], start, end);
    }
  }

  /** Codes are not deduplicated: listing the days twice lists every occurrence twice. */
  lemma DuplicateDays(mp: MeetingPattern, title: string, now: int)
    ensures Expansion(mp.(days := mp.days + mp.days), title, now)
         == Expansion(mp, title, now) + Expansion(mp, title, now)
  {
    var mp2 := mp.(days := mp.days + mp.days);
    assert RangeStart(mp2, now) == RangeStart(mp, now) && RangeEnd(mp2, now) == RangeEnd(mp, now);
    if mp.days != [] && HasTimes(mp) {
      PerDaysAppend(mp, title, mp.days, mp.days, RangeStart(mp, now), RangeEnd(mp, now));
      assert OccurrenceOn(mp2, title, 0) == OccurrenceOn(mp, title, 0);
      PerDaysSameSlot(mp, mp2, title, mp.days + mp.days, RangeStart(mp, now), RangeEnd(mp, now));
    }
  }

  /**
   * The occurrences come grouped by day code, in the order of the codes:
   * those of the codes before `i`, then the weekly run of code `i`, then
   * those of the codes after it.
   */
  lemma ExpansionBlocks(mp: MeetingPattern, title: string, now: int, i: nat)
    requires HasTimes(mp) && i < |mp.days|
    ensures var start, end := RangeStart(mp, now), RangeEnd(mp, now);
      Expansion(mp, title, now)
        == PerDays(mp, title, mp.days[..i], start, end)
           + Weekly(mp, title, NextOnOrAfter(start, WeekdayNumber(mp.days[i])), end)
           + PerDays(mp, title, mp.days[i + 1..], start, end)
  {
    var start, end := RangeStart(mp, now), RangeEnd(mp, now);
    assert mp.days == mp.days[..i + 1] + mp.days[i + 1..];
    PerDaysAppend(mp, title, mp.days[..i + 1], mp.days[i + 1..], start, end);
    PerDaysSnoc(mp, title, mp.days, i, start, end);
  }

  /**
   * Within the block of code `i`, which starts after the occurrences of the
   * codes before it, the `k`-th occurrence is the meeting `k` weeks after
   * the first day with that weekday in the range, for every `k` below the
   * number of such weeks: dates ascend a week apart.
   */
  lemma ExpansionOrder(mp: MeetingPattern, title: string, now: int, i: nat, k: nat)
    requires HasTimes(mp) && i < |mp.days|
    ensures var start, end := RangeStart(mp, now), RangeEnd(mp, now);
      var first := NextOnOrAfter(start, WeekdayNumber(mp.days[i]));
      var offset := |PerDays(mp, title, mp.days[..i], start, end)|;
      var count := if first > end then 0 else (end - first) / MinutesPerWeek + 1;
      k < count ==>
        && offset + k < |Expansion(mp, title, now)|
        && Expansion(mp, title, now)[offset + k] == OccurrenceOn(mp, title, first / MinutesPerDay + 7 * k)
  {
    var start, end := RangeStart(mp, now), RangeEnd(mp, now);
    var first := NextOnOrAfter(start, WeekdayNumber(mp.days[i]));
    var before := PerDays(mp, title, mp.days[..i], start, end);
    var run := Weekly(mp, title, first, end);
    ExpansionBlocks(mp, title, now, i);
    WeeklyClosedForm(mp, title, first, end);
    if k < |run| {
      var after := PerDays(mp, title, mp.days[i + 1..], start, end);
      assert (before + run + after)[|before| + k] == run[k];
    }
  }

  /** Only the times and the location of a pattern shape its occurrences on given days. */
  lemma {:induction false} PerDaysSameSlot(mp: MeetingPattern, mp2: MeetingPattern, title: string, days: seq<DayCode>, start: int, end: int)
    requires HasTimes(mp) && mp2.startTime == mp.startTime && mp2.endTime == mp.endTime && mp2.location == mp.location
    ensures PerDays(mp2, title, days, start, end) == PerDays(mp, title, days, start, end)
  {
    if days != [] {
      PerDaysSameSlot(mp, mp2, title, days[..|days| - 1], start, end);
      WeeklySameSlot(mp, mp2, title, NextOnOrAfter(start, WeekdayNumber(days[|days| - 1])), end);
    }
  }

  lemma {:induction false} WeeklySameSlot(mp: MeetingPattern, mp2: MeetingPattern, title: string, cur: int, end: int)
    requires HasTimes(mp) && mp2.startTime == mp.startTime && mp2.endTime == mp.endTime && mp2.location == mp.location
    ensures Weekly(mp2, title, cur, end) == Weekly(mp, title, cur, end)
    decreases end - cur
  {
    if cur <= end { WeeklySameSlot(mp, mp2, title, cur + MinutesPerWeek, end); }
  }

  lemma WeeklyTwice(mp: MeetingPattern, title: string, cur: int, end: int)
    requires HasTimes(mp) && cur + MinutesPerWeek <= end < cur + 2 * MinutesPerWeek
    ensures Weekly(mp, title, cur, end)
         == [OccurrenceOn(mp, title, cur / MinutesPerDay), OccurrenceOn(mp, title, cur / MinutesPerDay + 7)]
  {
    WeeklyClosedForm(mp, title, cur, end);
    assert (end - cur) / MinutesPerWeek == 1;
  }

  /**
   * Mondays and Wednesdays over an explicit two-week range from a Monday
   * `d` to the Sunday `d + 13`: the two Mondays, then the two Wednesdays.
   */
  lemma TwoWeeksOrder(mp: MeetingPattern, title: string, now: int, d: int)
    requires HasTimes(mp) && mp.days == [MO, WE]
    requires Weekday(d) == 1 && mp.startDate == Some(d) && mp.endDate == Some(d + 13)
    ensures Expansion(mp, title, now)
         == [OccurrenceOn(mp, title, d), OccurrenceOn(mp, title, d + 7),
             OccurrenceOn(mp, title, d + 2), OccurrenceOn(mp, title, d + 9)]
  {
    var start, end := d * MinutesPerDay, (d + 13) * MinutesPerDay;
    var wed := (d + 2) * MinutesPerDay;
    assert RangeStart(mp, now) == start && RangeEnd(mp, now) == end;
    MondayWednesday(d);
    var mon, wen := Weekly(mp, title, start, end), Weekly(mp, title, wed, end);
    MondayWednesdayRuns(mp, title, start, wed, end);
    WeeklyTwice(mp, title, start, end);
    WeeklyTwice(mp, title, wed, end);
    assert start / MinutesPerDay == d && wed / MinutesPerDay == d + 2;
  }

  /** From midnight of a Monday `d`, the first Monday is `d` itself and the first Wednesday `d + 2`. */
  lemma MondayWednesday(d: int)
    requires Weekday(d) == 1
    ensures NextOnOrAfter(d * MinutesPerDay, 1) == d * MinutesPerDay
    ensures NextOnOrAfter(d * MinutesPerDay, 3) == (d + 2) * MinutesPerDay
  {
    assert (d * MinutesPerDay) / MinutesPerDay == d;
    assert Weekday(d + 1) == 2 && Weekday(d + 2) == 3;
    assert NextWeekdayOnOrAfter(d, 1) == d;
    assert NextWeekdayOnOrAfter(d, 3) == d + 2;
  }

  /** `[MO, WE]` gives the Monday run, then the Wednesday run. */
  lemma MondayWednesdayRuns(mp: MeetingPattern, title: string, start: int, wed: int, end: int)
    requires HasTimes(mp) && NextOnOrAfter(start, 1) == start && NextOnOrAfter(start, 3) == wed
    ensures PerDays(mp, title, [MO, WE], start, end) == Weekly(mp, title, start, end) + Weekly(mp, title, wed, end)
  {
    assert PerDays(mp, title, [MO], start, end) == Weekly(mp, title, start, end) by {
      assert [MO][..0] == [];
    }
    assert [MO, WE][..1] == [MO];
  }

  /**
   * The worked example: Mondays and Wednesdays 9:00-9:50 from Monday
   * 5 January 1970 (day 4) to Sunday 18 January (day 17) give four
   * occurrences, each 50 minutes long.
   */
  lemma TwoWeeksExample(title: string, now: int)
    ensures var mp := MeetingPattern([MO, WE], Some(Time(9, 0)), Some(Time(9, 50)), "Room", Some(4), Some(17));
      var x := Expansion(mp, title, now);
      && |x| == 4
      && x[0].start == At(4, Time(9, 0)) && x[1].start == At(11, Time(9, 0))
      && x[2].start == At(6, Time(9, 0)) && x[3].start == At(13, Time(9, 0))
      && forall k :: 0 <= k < 4 ==> x[k].end - x[k].start == 50
  {
    var mp := MeetingPattern([MO, WE], Some(Time(9, 0)), Some(Time(9, 50)), "Room", Some(4), Some(17));
    TwoWeeksOrder(mp, title, now, 4);
  }

  /**
   * The fallback only adds 50 minutes to the end: with a start of 11:00 and
   * an end of 10:00 every occurrence still ends before it starts, ten
   * minutes earlier.
   */
  lemma EndBeforeStart(mp: MeetingPattern, title: string, now: int)
    requires mp.startTime == Some(Time(11, 0)) && mp.endTime == Some(Time(10, 0))
    ensures forall o :: o in Expansion(mp, title, now) ==> o.end == o.start - 10
  {
    ExpansionExact(mp, title, now);
    forall o | o in Expansion(mp, title, now) ensures o.end == o.start - 10 {
      var day :| MeetsOn(mp, day) && InRange(mp, now, day) && o == OccurrenceOn(mp, title, day);
      OccurrenceDuration(mp, title, day);
    }
  }

  /**
   * Without dates the range runs from a Monday to the Monday 16 weeks
   * later, both included: a pattern meeting one weekday gets 17 occurrences
   * on Mondays and 16 on any other day.
   */
  lemma DefaultRangeCount(mp: MeetingPattern, title: string, now: int, c: DayCode)
    requires HasTimes(mp) && mp.days == [c] && mp.startDate.None? && mp.endDate.None?
    ensures |Expansion(mp, title, now)| == if c == MO then 17 else 16
  {
    var start, end := RangeStart(mp, now), RangeEnd(mp, now);
    var first := NextOnOrAfter(start, WeekdayNumber(c));
    var delta := first / MinutesPerDay - start / MinutesPerDay;
    assert first == start + delta * MinutesPerDay;
    assert 0 <= delta <= 6;
    assert delta == 0 <==> c == MO by {
      assert Weekday(start / MinutesPerDay) == 1;
    }
    assert Expansion(mp, title, now) == Weekly(mp, title, first, end) by {
      assert [c][..0] == [];
      assert PerDays(mp, title, [c], start, end) == PerDays(mp, title, [], start, end) + Weekly(mp, title, first, end);
    }
    WeeklyClosedForm(mp, title, first, end);
    assert end - first == (DefaultSpanDays - delta) * MinutesPerDay;
    if delta == 0 {
      assert (end - first) / MinutesPerWeek == 16;
    } else {
      assert (end - first) / MinutesPerWeek == 15;
    }
  }
}
