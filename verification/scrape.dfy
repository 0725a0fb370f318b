/**
 * The string-level part of content.js `scrapeCourses` and of
 * `getStartEndDatesFromRow`: for each enrollment row, rebuild one
 * "days time • location" candidate from the meeting-pattern text, parse it,
 * fill the dates the pattern lacks from the row's own date cells, and expand
 * it into occurrences. The DOM reads that produce a row's strings are not
 * modelled; a row is given as the strings they return.
 */
module Scrape {
  import opened Wrappers
  import opened Text
  import opened Tokens
  import opened Dates
  import opened Meeting
  import opened Occurrences

  /**
   * One table row as the DOM helpers read it: the course title, the
   * meeting-pattern string (empty when none was found), the texts of the
   * start- and end-date cells, and the texts of the row's other elements.
   */
  datatype Row = Row(title: string, meeting: string, startCell: string, endCell: string, texts: seq<string>)

  // ----- row-level dates -----

  /** The texts that hold an `M/D/YYYY` date, in their order (`texts.filter(t => MDY_RX.test(t))`). */
  function Dated(texts: seq<string>): (r: seq<string>)
    ensures |r| <= |texts|
    ensures forall t :: t in r ==> t in texts && HasMdy(t)
  {
    if texts == [] then []
    else Dated(texts[..|texts| - 1]) + (if HasMdy(texts[|texts| - 1]) then [texts[|texts| - 1]] else [])
  }

  /** The day a text holding a date names: its first `M/D/YYYY`, through `asLocalDate`. */
  function DateOf(t: string): (r: int)
    requires HasMdy(t)
  {
    DayOf(ParseMDY(t).value)
  }

  /**
   * content.js `getStartEndDatesFromRow` on the strings it reads: each cell's
   * own date first; a missing start falls back to the first dated text of
   * the row and a missing end to the last one.
   */
  function RowDates(startCell: string, endCell: string, texts: seq<string>): (r: (Option<int>, Option<int>))
    ensures HasMdy(Normalize(startCell)) ==> r.0 == Some(DateOf(Normalize(startCell)))
    ensures HasMdy(Normalize(endCell)) ==> r.1 == Some(DateOf(Normalize(endCell)))
    ensures r.0.None? <==> !HasMdy(Normalize(startCell)) && Dated(MapNormalize(texts)) == []
    ensures r.1.None? <==> !HasMdy(Normalize(endCell)) && Dated(MapNormalize(texts)) == []
  {
    var sTxt := Normalize(startCell);
    var eTxt := Normalize(endCell);
    var start := if HasMdy(sTxt) then Some(DateOf(sTxt)) else None;
    var end := if HasMdy(eTxt) then Some(DateOf(eTxt)) else None;
    if start.Some? && end.Some? then (start, end)
    else
      var mdy := Dated(MapNormalize(texts));
      (if start.None? && mdy != [] then Some(DateOf(mdy[0])) else start,
       if end.None? && mdy != [] then Some(DateOf(mdy[|mdy| - 1])) else end)
  }

  /** The first dated text is the first element of the filtered list. */
  lemma {:induction false} DatedFirst(texts: seq<string>, i: nat)
    requires i < |texts| && HasMdy(texts[i])
    requires forall j :: 0 <= j < i ==> !HasMdy(texts[j])
    ensures Dated(texts) != [] && Dated(texts)[0] == texts[i]
  {
    var n := |texts| - 1;
    if i < n {
      DatedFirst(texts[..n], i);
    } else {
      assert Dated(texts[..n]) == [] by { DatedNone(texts[..n]); }
    }
  }

  lemma {:induction false} DatedNone(texts: seq<string>)
    requires forall j :: 0 <= j < |texts| ==> !HasMdy(texts[j])
    ensures Dated(texts) == []
  {
    if texts != [] {
      DatedNone(texts[..|texts| - 1]);
    }
  }

  /** After the last dated text nothing more is kept: the filtered list ends with it. */
  lemma {:induction false} DatedLast(texts: seq<string>, i: nat)
    requires i < |texts| && HasMdy(texts[i])
    requires forall j :: i < j < |texts| ==> !HasMdy(texts[j])
    ensures Dated(texts) == Dated(texts[..i]) + [texts[i]]
  {
    var n := |texts| - 1;
    var init := texts[..n];
    if i < n {
      assert !HasMdy(texts[n]);
      assert Dated(texts) == Dated(init);
      assert forall j :: i < j < n ==> init[j] == texts[j];
      DatedLast(init, i);
      assert init[..i] == texts[..i];
    } else {
      assert init == texts[..i];
    }
  }

  /** Without a date in its cell, the start is the date of the first dated text of the row. */
  lemma RowStartFallback(startCell: string, endCell: string, texts: seq<string>, i: nat)
    requires i < |texts| && HasMdy(Normalize(texts[i]))
    requires forall j :: 0 <= j < i ==> !HasMdy(Normalize(texts[j]))
    ensures !HasMdy(Normalize(startCell)) ==> RowDates(startCell, endCell, texts).0 == Some(DateOf(Normalize(texts[i])))
  {
    var normal := MapNormalize(texts);
    assert forall j :: 0 <= j < i ==> !HasMdy(normal[j]);
    DatedFirst(normal, i);
    assert Dated(normal)[0] == Normalize(texts[i]);
  }

  /** Without a date in its cell, the end is the date of the last dated text of the row. */
  lemma RowEndFallback(startCell: string, endCell: string, texts: seq<string>, k: nat)
    requires k < |texts| && HasMdy(Normalize(texts[k]))
    requires forall j :: k < j < |texts| ==> !HasMdy(Normalize(texts[j]))
    ensures !HasMdy(Normalize(endCell)) ==> RowDates(startCell, endCell, texts).1 == Some(DateOf(Normalize(texts[k])))
  {
    var normal := MapNormalize(texts);
    assert forall j :: k < j < |normal| ==> !HasMdy(normal[j]);
    DatedLast(normal, k);
    var mdy := Dated(normal);
    assert mdy[|mdy| - 1] == normal[k];
  }

  // ----- the candidate string -----

  /**
   * The candidate `scrapeCourses` hands to `parseMeetingPattern`: with a
   * time chunk, the chunk before it (or nothing), a space and the time
   * chunk, then ` • ` and the remaining chunks joined by spaces when there
   * are any; without one, the meeting string itself.
   */
  function Candidate(meeting: string): (r: string) {
    var parts := SplitChunks(meeting);
    CandidateAt(meeting, parts, FindTimeRange(parts, 0))
  }

  /** The candidate once the time chunk of `parts` (if any) is known. */
  function CandidateAt(meeting: string, parts: seq<string>, found: Option<nat>): (r: string)
    requires found.Some? ==> found.value < |parts|
  {
    match found
    case None => meeting
    case Some(ti) => WithLocation(CandidateHead(parts, ti), JoinSpace(parts[ti + 1..]))
  }

  /** The days chunk (or nothing), a space and the time chunk. */
  function CandidateHead(parts: seq<string>, ti: nat): (r: string)
    requires ti < |parts|
  {
    (if ti >= 1 then parts[ti - 1] else "") + " " + parts[ti]
  }

  /** `${head}${loc ? ` • ${loc}` : ''}` */
  function WithLocation(head: string, loc: string): (r: string) {
    if loc != "" then head + " " + [Bullet] + " " + loc else head
  }

  predicate NoSeparator(t: string) {
    forall c :: SplitsOn(ChunkSplitter, c) ==> c !in t
  }

  lemma NoSeparatorJoin(a: string, b: string, c: string)
    requires NoSeparator(a) && NoSeparator(c) && b == " "
    ensures NoSeparator(a + b + c)
  {
  }

  lemma ChunkClean(meeting: string, i: nat)
    requires i < |SplitChunks(meeting)|
    ensures NoSeparator(SplitChunks(meeting)[i])
  {
    SplitChunksClean(meeting);
  }

  /**
   * Around a time chunk `ti`, the head (days chunk and time chunk) and the
   * location hold no separator, and the location is normalised.
   */
  lemma CandidateParts(meeting: string, ti: nat)
    requires ti < |SplitChunks(meeting)|
    ensures NoSeparator(CandidateHead(SplitChunks(meeting), ti))
    ensures NoSeparator(JoinSpace(SplitChunks(meeting)[ti + 1..]))
    ensures IsNormalized(JoinSpace(SplitChunks(meeting)[ti + 1..]))
  {
    SplitChunksClean(meeting);
    PartsClean(SplitChunks(meeting), ti);
  }

  lemma PartsClean(parts: seq<string>, ti: nat)
    requires ti < |parts|
    requires forall i :: 0 <= i < |parts| ==> parts[i] != [] && IsNormalized(parts[i]) && NoSeparator(parts[i])
    ensures NoSeparator(CandidateHead(parts, ti))
    ensures NoSeparator(JoinSpace(parts[ti + 1..])) && IsNormalized(JoinSpace(parts[ti + 1..]))
  {
    NoSeparatorJoin(if ti >= 1 then parts[ti - 1] else "", " ", parts[ti]);
    var rest := parts[ti + 1..];
    assert forall i :: 0 <= i < |rest| ==> rest[i] == parts[ti + 1 + i];
    JoinClean(rest);
  }

  /** Clean chunks joined by spaces: normalised, and still without separators. */
  lemma JoinClean(xs: seq<string>)
    requires forall i :: 0 <= i < |xs| ==> xs[i] != [] && IsNormalized(xs[i]) && NoSeparator(xs[i])
    ensures NoSeparator(JoinSpace(xs)) && IsNormalized(JoinSpace(xs))
  {
    JoinNormalized(xs);
    forall c | SplitsOn(ChunkSplitter, c) ensures c !in JoinSpace(xs) {
      JoinAvoids(xs, c);
    }
  }

  /**
   * Joining a separator-free head and location with ` • ` keeps both
   * intact and leaves the bullet as the only separator.
   */
  lemma OnlyBullet(head: string, loc: string)
    requires NoSeparator(head) && NoSeparator(loc)
    ensures var cand := WithLocation(head, loc);
      && |head| <= |cand| && cand[..|head|] == head
      && (loc == "" ==> cand == head)
      && (loc != "" ==> |cand| == |head| + 3 + |loc| && cand[|head|..|head| + 3] == [' ', Bullet, ' '] && cand[|head| + 3..] == loc)
      && forall p :: 0 <= p < |cand| && SplitsOn(ChunkSplitter, cand[p]) ==> loc != "" && p == |head| + 1
  {
    var cand := WithLocation(head, loc);
    forall p | 0 <= p < |cand| && p != |head| + 1
      ensures !SplitsOn(ChunkSplitter, cand[p])
    {
      if p < |head| {
        assert cand[p] == head[p] && head[p] in head;
      } else if p >= |head| + 3 {
        assert cand[p] == loc[p - |head| - 3] && loc[p - |head| - 3] in loc;
      }
    }
    assert cand[..|head|] == head;
  }

  /**
   * With a time chunk at `ti`, the candidate starts with the days-and-time
   * head; when chunks follow the time chunk, ` • ` and those chunks joined
   * by spaces (normalised) come next. Neither the head nor the location
   * holds a separator, so the bullet is the candidate's only one.
   */
  lemma CandidateShape(meeting: string, ti: nat)
    requires FindTimeRange(SplitChunks(meeting), 0) == Some(ti)
    ensures var parts := SplitChunks(meeting);
      var head, loc, cand := CandidateHead(parts, ti), JoinSpace(parts[ti + 1..]), Candidate(meeting);
      && NoSeparator(head) && NoSeparator(loc) && IsNormalized(loc)
      && |head| <= |cand| && cand[..|head|] == head
      && (loc == "" ==> cand == head)
      && (loc != "" ==> |cand| == |head| + 3 + |loc| && cand[|head|..|head| + 3] == [' ', Bullet, ' '] && cand[|head| + 3..] == loc)
      && forall p :: 0 <= p < |cand| && SplitsOn(ChunkSplitter, cand[p]) ==> loc != "" && p == |head| + 1
  {
    var parts := SplitChunks(meeting);
    CandidateFound(meeting, ti);
    CandidateAtSome(meeting, parts, ti);
    CandidateParts(meeting, ti);
    OnlyBullet(CandidateHead(parts, ti), JoinSpace(parts[ti + 1..]));
  }

  lemma CandidateFound(meeting: string, ti: nat)
    requires FindTimeRange(SplitChunks(meeting), 0) == Some(ti)
    ensures ti < |SplitChunks(meeting)| && Candidate(meeting) == CandidateAt(meeting, SplitChunks(meeting), Some(ti))
  {
  }

  lemma CandidateAtSome(meeting: string, parts: seq<string>, ti: nat)
    requires ti < |parts|
    ensures CandidateAt(meeting, parts, Some(ti)) == WithLocation(CandidateHead(parts, ti), JoinSpace(parts[ti + 1..]))
  {
  }


  // ----- dates and the whole row -----

  /**
   * The assignments `scrapeCourses` makes to `mp.startDate` and
   * `mp.endDate`: a row-level date fills a field only when the pattern
   * has none; nothing else of the pattern changes.
   */
  function FillDates(mp: MeetingPattern, rowStart: Option<int>, rowEnd: Option<int>): (r: MeetingPattern)
    ensures r.days == mp.days && r.startTime == mp.startTime && r.endTime == mp.endTime && r.location == mp.location
    ensures r.startDate == (if mp.startDate.Some? then mp.startDate else rowStart)
    ensures r.endDate == (if mp.endDate.Some? then mp.endDate else rowEnd)
  {
    var mp1 := if mp.startDate.None? && rowStart.Some? then mp.(startDate := rowStart) else mp;
    if mp1.endDate.None? && rowEnd.Some? then mp1.(endDate := rowEnd) else mp1
  }

  /**
   * The range the occurrences are drawn from: the pattern's own dates win,
   * then the row's, then the default of the Monday on or after `now` and
   * 112 days after that.
   */
  lemma FillDatesRange(mp: MeetingPattern, rowStart: Option<int>, rowEnd: Option<int>, now: int)
    ensures var filled := FillDates(mp, rowStart, rowEnd);
      && RangeStart(filled, now) == (if mp.startDate.Some? then mp.startDate.value * MinutesPerDay
                                     else if rowStart.Some? then rowStart.value * MinutesPerDay
                                     else NextOnOrAfter(now, 1))
      && RangeEnd(filled, now) == (if mp.endDate.Some? then mp.endDate.value * MinutesPerDay
                                   else if rowEnd.Some? then rowEnd.value * MinutesPerDay
                                   else RangeStart(filled, now) + DefaultSpanDays * MinutesPerDay)
  {
  }

  /** Filling twice with the same row dates changes nothing more. */
  lemma FillDatesIdempotent(mp: MeetingPattern, rowStart: Option<int>, rowEnd: Option<int>)
    ensures FillDates(FillDates(mp, rowStart, rowEnd), rowStart, rowEnd) == FillDates(mp, rowStart, rowEnd)
  {
  }

  /** The occurrences one row contributes. */
  function RowEvents(row: Row, now: int): (r: seq<Occurrence>) {
    if row.meeting == [] then []
    else
      var dates := RowDates(row.startCell, row.endCell, row.texts);
      var mp := ParseMeetingPattern(Candidate(row.meeting));
      if mp.days == [] || !HasTimes(mp) then []
      else Expansion(FillDates(mp, dates.0, dates.1), row.title, now)
  }

  /** The occurrences of all rows, row after row. */
  function AllEvents(rows: seq<Row>, now: int): (r: seq<Occurrence>) {
    ConcatMap(rows, row => RowEvents(row, now))
  }

  /** `f` of every row, concatenated in row order. */
  function ConcatMap(rows: seq<Row>, f: Row -> seq<Occurrence>): (r: seq<Occurrence>) {
    if rows == [] then [] else ConcatMap(rows[..|rows| - 1], f) + f(rows[|rows| - 1])
  }

  lemma AllEventsPrefix(rows: seq<Row>, k: nat, now: int)
    requires k < |rows|
    ensures AllEvents(rows[..k + 1], now) == AllEvents(rows[..k], now) + RowEvents(rows[k], now)
  {
    assert rows[..k + 1][..k] == rows[..k];
  }

  /**
   * content.js `scrapeCourses` over rows already read from the table, the
   * clock reading `now` for every row.
   */
  method ScrapeCourses(rows: seq<Row>, now: int) returns (events: seq<Occurrence>)
    ensures events == AllEvents(rows, now)
  {
    events := [];
    for k := 0 to |rows|
      invariant events == AllEvents(rows[..k], now)
    {
      AllEventsPrefix(rows, k, now);
      var row := rows[k];
      if row.meeting == [] {
        continue;
      }
      var dates := RowDates(row.startCell, row.endCell, row.texts);
      var mp := ParseMeetingPattern(Candidate(row.meeting));
      if mp.days == [] || mp.startTime.None? || mp.endTime.None? {
        continue;
      }
      if mp.startDate.None? && dates.0.Some? {
        mp := mp.(startDate := dates.0);
      }
      if mp.endDate.None? && dates.1.Some? {
        mp := mp.(endDate := dates.1);
      }
      assert mp == FillDates(ParseMeetingPattern(Candidate(row.meeting)), dates.0, dates.1);
      var evs := ExpandOccurrences(mp, row.title, now);
      events := events + evs;
    }
    assert rows[..|rows|] == rows;
  }

  // ----- what a scrape promises -----

  /** The events of consecutive groups of rows are the events of each group, in row order. */
  lemma {:induction false} ConcatMapAppend(a: seq<Row>, b: seq<Row>, f: Row -> seq<Occurrence>)
    ensures ConcatMap(a + b, f) == ConcatMap(a, f) + ConcatMap(b, f)
    decreases |b|
  {
    if b == [] {
      assert a + b == a;
    } else {
      var n := |b| - 1;
      assert (a + b)[..|a + b| - 1] == a + b[..n];
      ConcatMapAppend(a, b[..n], f);
    }
  }

  /** Scraping two tables one after the other gives the events of the first, then those of the second. */
  lemma AllEventsAppend(a: seq<Row>, b: seq<Row>, now: int)
    ensures AllEvents(a + b, now) == AllEvents(a, now) + AllEvents(b, now)
  {
    ConcatMapAppend(a, b, row => RowEvents(row, now));
  }

  /**
   * Every event of a row carries the row's title and the pattern's
   * location, on a day the pattern meets within its range; a row without
   * a meeting string contributes nothing.
   */
  lemma RowEventsMeaning(row: Row, now: int)
    ensures row.meeting == [] ==> RowEvents(row, now) == []
    ensures forall o :: o in RowEvents(row, now) ==>
      var dates := RowDates(row.startCell, row.endCell, row.texts);
      var mp := FillDates(ParseMeetingPattern(Candidate(row.meeting)), dates.0, dates.1);
      && o.title == row.title && o.location == mp.location
      && exists day :: MeetsOn(mp, day) && InRange(mp, now, day) && o == OccurrenceOn(mp, row.title, day)
  {
    if row.meeting != [] {
      var dates := RowDates(row.startCell, row.endCell, row.texts);
      var mp := FillDates(ParseMeetingPattern(Candidate(row.meeting)), dates.0, dates.1);
      ExpansionExact(mp, row.title, now);
    }
  }

  /** Every scraped event comes from some row, and carries that row's title. */
  lemma AllEventsFromRows(rows: seq<Row>, now: int)
    ensures forall o :: o in AllEvents(rows, now) ==> exists k :: 0 <= k < |rows| && o in RowEvents(rows[k], now)
  {
    ConcatMapFrom(rows, row => RowEvents(row, now));
  }

  /** Every element of `ConcatMap(rows, f)` comes from `f` of some row. */
  lemma {:induction false} ConcatMapFrom(rows: seq<Row>, f: Row -> seq<Occurrence>)
    ensures forall o :: o in ConcatMap(rows, f) ==> exists k :: 0 <= k < |rows| && o in f(rows[k])
  {
    if rows != [] {
      var n := |rows| - 1;
      ConcatMapFrom(rows[..n], f);
      forall o | o in ConcatMap(rows, f)
        ensures exists k :: 0 <= k < |rows| && o in f(rows[k])
      {
        if o in ConcatMap(rows[..n], f) {
          var k :| 0 <= k < n && o in f(rows[..n][k]);
          assert rows[..n][k] == rows[k];
        } else {
          assert o in f(rows[n]);
        }
      }
    }
  }
}
