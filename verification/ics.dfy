/**
 * The iCalendar text content.js builds (`toICS`, with `yyyymmdd`, `hhmmss`
 * and `dtstampNowUTC`): a VCALENDAR of one VEVENT per occurrence, lines
 * joined by CRLF, local times tagged with the America/Chicago zone.
 */
module Ics {
  import opened Text
  import opened Dates
  import opened Tokens
  import opened Occurrences

  /** The `TZ` constant. */
  const Tz: string := "America/Chicago"

  const SecondsPerDay: int := 86400

  /** The four lines before the first event. */
  const Header: seq<string> := ["BEGIN:VCALENDAR", "VERSION:2.0", "CALSCALE:GREGORIAN", "PRODID:-//ISU Workday Export//EN"]

  const Footer: string := "END:VCALENDAR"

  // ----- date and time rendering -----

  /** The year unpadded, then month and day padded to two digits. */
  function DateDigits(year: int, month: nat, day: nat): (r: string) {
    IntToString(year) + Pad2(month) + Pad2(day)
  }

  /** content.js `yyyymmdd` of the local instant `t` (minutes). */
  function Yyyymmdd(t: int): (r: string) {
    var c := CivilFromDays(t / MinutesPerDay);
    DateDigits(c.year, c.month, c.day)
  }

  /** content.js `hhmmss` of the local instant `t`; the seconds are always `00`. */
  function Hhmmss(t: int): (r: string) {
    var m := t % MinutesPerDay;
    Pad2(m / 60) + Pad2(m % 60) + "00"
  }

  /** The value after `DTSTART;TZID=...:` or `DTEND;TZID=...:`. */
  function LocalStamp(t: int): (r: string) {
    Yyyymmdd(t) + "T" + Hhmmss(t)
  }

  /** content.js `dtstampNowUTC` when the UTC clock reads `utcSeconds` seconds since the epoch. */
  function DtStamp(utcSeconds: int): (r: string) {
    var c := CivilFromDays(utcSeconds / SecondsPerDay);
    DateDigits(c.year, c.month, c.day) + "T" + UtcClock(utcSeconds % SecondsPerDay) + "Z"
  }

  /** `getUTCHours`, `getUTCMinutes` and `getUTCSeconds` of second `s` of the day, each padded to two digits. */
  function UtcClock(s: nat): (r: string) {
    Pad2(s / 3600) + Pad2(s / 60 % 60) + Pad2(s % 60)
  }

  lemma AllDigitsConcat(a: string, b: string)
    requires AllDigits(a) && AllDigits(b)
    ensures AllDigits(a + b)
  {
    assert forall i :: 0 <= i < |a + b| ==> (a + b)[i] == if i < |a| then a[i] else b[i - |a|];
  }

  /**
   * For a four-digit year the date part is eight digits that read back as
   * the year, the month and the day.
   */
  lemma DateDigitsShape(year: int, month: nat, day: nat)
    requires 1000 <= year <= 9999 && month < 100 && day < 100
    ensures var v := DateDigits(year, month, day);
      && |v| == 8 && AllDigits(v)
      && DigitsValue(v[..4]) == year && DigitsValue(v[4..6]) == month && DigitsValue(v[6..]) == day
  {
    var y := NatToString(year);
    NatToStringLength(year);
    NatToStringRoundTrip(year);
    Pad2Digits(month);
    Pad2Digits(day);
    var v := DateDigits(year, month, day);
    assert v == y + Pad2(month) + Pad2(day);
    AllDigitsConcat(y, Pad2(month));
    AllDigitsConcat(y + Pad2(month), Pad2(day));
    assert v[..4] == y;
    assert v[4..6] == Pad2(month);
    assert v[6..] == Pad2(day);
  }

  /** The time part is six digits: the hour (below 24), the minute, then `00`. */
  lemma HhmmssShape(t: int)
    ensures var v := Hhmmss(t);
      && |v| == 6 && AllDigits(v) && v[4..] == "00"
      && DigitsValue(v[..2]) == (t % MinutesPerDay) / 60 < 24
      && DigitsValue(v[2..4]) == (t % MinutesPerDay) % 60
  {
    var m := t % MinutesPerDay;
    Pad2Digits(m / 60);
    Pad2Digits(m % 60);
    var v := Hhmmss(t);
    AllDigitsConcat(Pad2(m / 60), Pad2(m % 60));
    AllDigitsConcat(Pad2(m / 60) + Pad2(m % 60), "00");
    assert v[..2] == Pad2(m / 60);
    assert v[2..4] == Pad2(m % 60);
  }

  /**
   * The DTSTART/DTEND value is 8 digits, `T` and 6 digits ending in `00`
   * whenever the year has four digits: the date part, then the time part.
   */
  lemma LocalStampShape(t: int)
    requires 1000 <= CivilFromDays(t / MinutesPerDay).year <= 9999
    ensures var v := LocalStamp(t);
      && |v| == 15 && AllDigits(v[..8]) && v[8] == 'T' && AllDigits(v[9..]) && v[13..] == "00"
      && v[..8] == Yyyymmdd(t) && v[9..] == Hhmmss(t)
  {
    var c := CivilFromDays(t / MinutesPerDay);
    DateDigitsShape(c.year, c.month, c.day);
    HhmmssShape(t);
    LocalPieces(Yyyymmdd(t), Hhmmss(t));
  }

  lemma LocalPieces(d: string, h: string)
    requires |d| == 8 && AllDigits(d) && |h| == 6 && AllDigits(h) && h[4..] == "00"
    ensures var v := d + "T" + h;
      && |v| == 15 && AllDigits(v[..8]) && v[8] == 'T' && AllDigits(v[9..]) && v[13..] == "00"
      && v[..8] == d && v[9..] == h
  {
    var v := d + "T" + h;
    assert v[..8] == d;
    assert v[9..] == h;
    assert v[13..] == h[4..];
  }

  /**
   * An occurrence that starts at `t` on `day` (the hour below 24) is
   * rendered on that day at that hour and minute: the calendar shows the
   * wall-clock time of the meeting pattern.
   */
  lemma LocalStampAt(day: int, t: Time)
    requires 0 <= t.h < 24 && 0 <= t.m < 60
    ensures Yyyymmdd(At(day, t)) == Yyyymmdd(day * MinutesPerDay)
    ensures Hhmmss(At(day, t)) == Pad2(t.h) + Pad2(t.m) + "00"
  {
    AtSplits(day, t);
    SameDayDate(At(day, t), day * MinutesPerDay);
    ClockOfDay(At(day, t), t.h, t.m);
  }

  lemma SameDayDate(a: int, b: int)
    requires a / MinutesPerDay == b / MinutesPerDay
    ensures Yyyymmdd(a) == Yyyymmdd(b)
  {
  }

  lemma ClockOfDay(a: int, h: nat, m: nat)
    requires m < 60 && a % MinutesPerDay == h * 60 + m
    ensures Hhmmss(a) == Pad2(h) + Pad2(m) + "00"
  {
    assert (h * 60 + m) / 60 == h && (h * 60 + m) % 60 == m;
  }

  /** The day and the minute of the day of `At(day, t)`. */
  lemma AtSplits(day: int, t: Time)
    requires 0 <= t.h < 24 && 0 <= t.m < 60
    ensures At(day, t) / MinutesPerDay == day == (day * MinutesPerDay) / MinutesPerDay
    ensures At(day, t) % MinutesPerDay == t.h * 60 + t.m
  {
    var i := At(day, t);
    assert i == day * MinutesPerDay + (t.h * 60 + t.m);
  }

  /** The UTC clock of a second of the day is six digits, the hour (below 24) first. */
  lemma UtcClockShape(s: nat)
    requires 0 <= s < SecondsPerDay
    ensures var k := UtcClock(s);
      |k| == 6 && AllDigits(k) && DigitsValue(k[..2]) == s / 3600 < 24
  {
    Pad2Digits(s / 3600);
    Pad2Digits(s / 60 % 60);
    Pad2Digits(s % 60);
    AllDigitsConcat(Pad2(s / 3600), Pad2(s / 60 % 60));
    AllDigitsConcat(Pad2(s / 3600) + Pad2(s / 60 % 60), Pad2(s % 60));
    assert UtcClock(s)[..2] == Pad2(s / 3600);
  }

  /** The DTSTAMP value is 8 digits, `T`, 6 digits and `Z` for a four-digit UTC year. */
  lemma DtStampShape(utcSeconds: int)
    requires 1000 <= CivilFromDays(utcSeconds / SecondsPerDay).year <= 9999
    ensures var v := DtStamp(utcSeconds);
      && |v| == 16 && AllDigits(v[..8]) && v[8] == 'T' && AllDigits(v[9..15]) && v[15] == 'Z'
      && DigitsValue(v[9..11]) == (utcSeconds % SecondsPerDay) / 3600 < 24
  {
    var c := CivilFromDays(utcSeconds / SecondsPerDay);
    DateDigitsShape(c.year, c.month, c.day);
    UtcClockShape(utcSeconds % SecondsPerDay);
    StampPieces(DateDigits(c.year, c.month, c.day), UtcClock(utcSeconds % SecondsPerDay));
  }

  /** Where the date and the clock sit in a DTSTAMP value. */
  lemma StampPieces(d: string, k: string)
    requires |d| == 8 && |k| == 6
    ensures var v := d + "T" + k + "Z";
      |v| == 16 && v[..8] == d && v[8] == 'T' && v[9..15] == k && v[9..11] == k[..2] && v[15] == 'Z'
  {
    var v := d + "T" + k + "Z";
    assert v[..8] == d;
    assert v[9..15] == k;
  }

  // ----- the calendar lines -----

  /** The UID of event number `i`: the index, then the start instant as a key. */
  function Uid(i: nat, o: Occurrence): (r: string) {
    "isu-workday-" + NatToString(i) + "-" + IntToString(o.start) + "@isu"
  }

  /** The values `toICS` writes for event number `i`, before the property names. */
  datatype Fields = Fields(uid: string, stamp: string, summary: string, location: string, start: string, end: string)

  function EventFields(o: Occurrence, i: nat, stamp: string): (r: Fields) {
    Fields(Uid(i, o), stamp, IcsEscape(o.title), IcsEscape(o.location), LocalStamp(o.start), LocalStamp(o.end))
  }

  /** The eight lines `toICS` pushes for one event. */
  function EventLines(f: Fields): (r: seq<string>)
    ensures |r| == 8
  {
    [ "BEGIN:VEVENT",
      "UID:" + f.uid,
      "DTSTAMP:" + f.stamp,
      "SUMMARY:" + f.summary,
      "LOCATION:" + f.location,
      "DTSTART;TZID=" + Tz + ":" + f.start,
      "DTEND;TZID=" + Tz + ":" + f.end,
      "END:VEVENT" ]
  }

  /** The fields of every event, numbered from 0 in their order. */
  function Rendered(events: seq<Occurrence>, stamp: string): (r: seq<Fields>)
    ensures |r| == |events|
  {
    seq(|events|, j requires 0 <= j < |events| => EventFields(events[j], j, stamp))
  }

  /** The event lines, event after event. */
  function EventsLines(fs: seq<Fields>): (r: seq<string>)
    ensures |r| == 8 * |fs|
  {
    if fs == [] then [] else EventsLines(fs[..|fs| - 1]) + EventLines(fs[|fs| - 1])
  }

  /** Every line of the calendar, before joining. */
  function CalendarLines(events: seq<Occurrence>, stamp: string): (r: seq<string>) {
    Header + EventsLines(Rendered(events, stamp)) + [Footer]
  }

  /** `lines.join('\r\n')`. */
  function JoinCrlf(lines: seq<string>): (r: string) {
    if |lines| == 0 then ""
    else if |lines| == 1 then lines[0]
    else lines[0] + "\r\n" + JoinCrlf(lines[1..])
  }

  lemma AppendAssoc<X>(a: seq<X>, b: seq<X>, c: seq<X>)
    ensures a + b + c == a + (b + c)
  {
  }

  lemma EventsLinesPrefix(fs: seq<Fields>, i: nat)
    requires i < |fs|
    ensures EventsLines(fs[..i + 1]) == EventsLines(fs[..i]) + EventLines(fs[i])
  {
    assert fs[..i + 1][..i] == fs[..i];
  }

  /** Rendering event `i` extends the lines of the events before it. */
  lemma RenderStep(events: seq<Occurrence>, stamp: string, i: nat, lines: seq<string>)
    requires i < |events| && lines == Header + EventsLines(Rendered(events, stamp)[..i])
    ensures lines + EventLines(EventFields(events[i], i, stamp)) == Header + EventsLines(Rendered(events, stamp)[..i + 1])
  {
    var fs := Rendered(events, stamp);
    assert fs[i] == EventFields(events[i], i, stamp);
    EventsLinesPrefix(fs, i);
    AppendAssoc(Header, EventsLines(fs[..i]), EventLines(fs[i]));
  }

  /** content.js `toICS`, the UTC clock reading `nowUtcSeconds`. */
  method ToIcs(events: seq<Occurrence>, nowUtcSeconds: int) returns (text: string)
    ensures text == JoinCrlf(CalendarLines(events, DtStamp(nowUtcSeconds)))
  {
    var lines := Header;
    var stamp := DtStamp(nowUtcSeconds);
    ghost var fs := Rendered(events, stamp);
    for i := 0 to |events|
      invariant lines == Header + EventsLines(fs[..i])
    {
      var f := EventFields(events[i], i, stamp);
      RenderStep(events, stamp, i, lines);
      lines := lines + EventLines(f);
    }
    assert fs[..|events|] == fs;
    lines := lines + [Footer];
    text := JoinCrlf(lines);
  }

  // ----- what the calendar promises -----

  /** Line `k` of event `i` sits at `8 * i + k` among the event lines. */
  lemma {:induction false} EventsLinesAt(fs: seq<Fields>, i: nat, k: nat)
    requires i < |fs| && k < 8
    ensures EventsLines(fs)[8 * i + k] == EventLines(fs[i])[k]
  {
    var n := |fs| - 1;
    if i < n {
      EventsLinesAt(fs[..n], i, k);
      assert fs[..n][i] == fs[i];
    }
  }

  /** The calendar has 5 + 8n lines: the four header lines first and `END:VCALENDAR` last. */
  lemma CalendarFrame(events: seq<Occurrence>, stamp: string)
    ensures var lines := CalendarLines(events, stamp);
      && |lines| == 5 + 8 * |events|
      && lines[..4] == Header
      && lines[|lines| - 1] == Footer
  {
  }

  /** Between them, event `i` occupies lines `4 + 8 * i` to `11 + 8 * i`, rendered with index `i`. */
  lemma CalendarLine(events: seq<Occurrence>, stamp: string, i: nat, k: nat)
    requires i < |events| && k < 8
    ensures CalendarLines(events, stamp)[4 + 8 * i + k] == EventLines(EventFields(events[i], i, stamp))[k]
  {
    var fs := Rendered(events, stamp);
    assert CalendarLines(events, stamp)[4 + 8 * i + k] == EventsLines(fs)[8 * i + k];
    EventsLinesAt(fs, i, k);
    assert fs[i] == EventFields(events[i], i, stamp);
  }

  /** The length of the run of digits starting at `p`. */
  function DigitsAt(s: string, p: nat): (n: nat)
    requires p <= |s|
    ensures p + n <= |s| && AllDigits(s[p..p + n])
    ensures p + n < |s| ==> !IsDigit(s[p + n])
    decreases |s| - p
  {
    if p < |s| && IsDigit(s[p]) then
      var n := DigitsAt(s, p + 1);
      assert s[p..p + 1 + n] == [s[p]] + s[p + 1..p + 1 + n];
      1 + n
    else 0
  }

  /** The event index a UID carries: the digits after `isu-workday-`. */
  function UidIndex(u: string): (r: nat) {
    if |u| < 12 then 0 else DigitsValue(u[12..12 + DigitsAt(u, 12)])
  }

  /** A run of digits followed by a non-digit is exactly that run. */
  lemma {:induction false} DigitsAtRun(s: string, p: nat, x: string)
    requires p + |x| < |s| && s[p..p + |x|] == x && AllDigits(x) && !IsDigit(s[p + |x|])
    ensures DigitsAt(s, p) == |x|
    decreases |x|
  {
    if x != [] {
      assert s[p] == x[0];
      assert s[p + 1..p + 1 + |x[1..]|] == x[1..];
      DigitsAtRun(s, p + 1, x[1..]);
    }
  }

  /** The UID of event `i` gives `i` back, whatever the start instant. */
  lemma UidIndexRoundTrip(i: nat, o: Occurrence)
    ensures UidIndex(Uid(i, o)) == i
  {
    var u := Uid(i, o);
    var x := NatToString(i);
    assert u == "isu-workday-" + x + ("-" + IntToString(o.start) + "@isu");
    assert u[12..12 + |x|] == x;
    assert u[12 + |x|] == '-';
    DigitsAtRun(u, 12, x);
    NatToStringRoundTrip(i);
  }

  /** Different indices give different UIDs. */
  lemma UidsDistinct(i: nat, j: nat, a: Occurrence, b: Occurrence)
    requires i != j
    ensures Uid(i, a) != Uid(j, b)
  {
    UidIndexRoundTrip(i, a);
    UidIndexRoundTrip(j, b);
  }

  lemma PrefixCancel(p: string, a: string, b: string)
    requires p + a == p + b
    ensures a == b
  {
    assert a == (p + a)[|p|..];
    assert b == (p + b)[|p|..];
  }

  /** Line 1 of event `i` is its UID line. */
  lemma CalendarUid(events: seq<Occurrence>, stamp: string, i: nat)
    requires i < |events|
    ensures CalendarLines(events, stamp)[4 + 8 * i + 1] == "UID:" + Uid(i, events[i])
  {
    CalendarLine(events, stamp, i, 1);
    EventLinesAre(EventFields(events[i], i, stamp));
  }

  /** The eight lines of an event, one property each. */
  lemma EventLinesAre(f: Fields)
    ensures var lines := EventLines(f);
      && lines[1] == "UID:" + f.uid
      && lines[2] == "DTSTAMP:" + f.stamp
      && lines[3] == "SUMMARY:" + f.summary
      && lines[4] == "LOCATION:" + f.location
      && lines[5] == "DTSTART;TZID=" + Tz + ":" + f.start
      && lines[6] == "DTEND;TZID=" + Tz + ":" + f.end
  {
  }

  /** The UID lines of two different events differ. */
  lemma CalendarUidsDistinct(events: seq<Occurrence>, stamp: string, i: nat, j: nat)
    requires i < |events| && j < |events| && i != j
    ensures var lines := CalendarLines(events, stamp);
      lines[4 + 8 * i + 1] != lines[4 + 8 * j + 1]
  {
    CalendarUid(events, stamp, i);
    CalendarUid(events, stamp, j);
    UidsDistinct(i, j, events[i], events[j]);
    if CalendarLines(events, stamp)[4 + 8 * i + 1] == CalendarLines(events, stamp)[4 + 8 * j + 1] {
      PrefixCancel("UID:", Uid(i, events[i]), Uid(j, events[j]));
    }
  }

  /** Every event carries the one DTSTAMP of the file. */
  lemma CalendarStamp(events: seq<Occurrence>, stamp: string, i: nat)
    requires i < |events|
    ensures CalendarLines(events, stamp)[4 + 8 * i + 2] == "DTSTAMP:" + stamp
  {
    CalendarLine(events, stamp, i, 2);
    EventLinesAre(EventFields(events[i], i, stamp));
  }

  /** The summary and location lines hold the escaped title and location, which unescape to their normalised text. */
  lemma CalendarText(events: seq<Occurrence>, stamp: string, i: nat)
    requires i < |events|
    ensures var lines := CalendarLines(events, stamp);
      && lines[4 + 8 * i + 3] == "SUMMARY:" + IcsEscape(events[i].title)
      && Unescape(IcsEscape(events[i].title)) == Normalize(events[i].title)
      && lines[4 + 8 * i + 4] == "LOCATION:" + IcsEscape(events[i].location)
      && Unescape(IcsEscape(events[i].location)) == Normalize(events[i].location)
  {
    CalendarLine(events, stamp, i, 3);
    CalendarLine(events, stamp, i, 4);
    EventLinesAre(EventFields(events[i], i, stamp));
    IcsEscapeMeaning(events[i].title);
    IcsEscapeMeaning(events[i].location);
  }

  /** DTSTART and DTEND carry the zone and the local stamps of the start and end instants. */
  lemma CalendarTimes(events: seq<Occurrence>, stamp: string, i: nat)
    requires i < |events|
    ensures var lines := CalendarLines(events, stamp);
      && lines[4 + 8 * i + 5] == "DTSTART;TZID=" + Tz + ":" + LocalStamp(events[i].start)
      && lines[4 + 8 * i + 6] == "DTEND;TZID=" + Tz + ":" + LocalStamp(events[i].end)
  {
    CalendarLine(events, stamp, i, 5);
    CalendarLine(events, stamp, i, 6);
    EventLinesAre(EventFields(events[i], i, stamp));
  }

  // ----- reading the joined text back -----

  /** The first CRLF at or after `p`, or `|t|`. */
  function CrlfFrom(t: string, p: nat): (q: nat)
    requires p <= |t|
    ensures p <= q <= |t|
    ensures q < |t| ==> q + 1 < |t| && t[q] == '\r' && t[q + 1] == '\n'
    ensures forall j :: p <= j < q ==> !(t[j] == '\r' && j + 1 < |t| && t[j + 1] == '\n')
    decreases |t| - p
  {
    if p + 1 >= |t| then |t|
    else if t[p] == '\r' && t[p + 1] == '\n' then p
    else CrlfFrom(t, p + 1)
  }

  /** The lines of a text whose lines end in CRLF: an independent reader of the file. */
  function SplitCrlf(t: string): (r: seq<string>)
    ensures |r| >= 1
    decreases |t|
  {
    var q := CrlfFrom(t, 0);
    if q == |t| then [t] else [t[..q]] + SplitCrlf(t[q + 2..])
  }

  /** Past a line without CR the first CRLF is the one that ends it. */
  lemma {:induction false} CrlfAfterLine(a: string, rest: string, p: nat)
    requires '\r' !in a && p <= |a|
    ensures rest == [] ==> CrlfFrom(a, p) == |a|
    ensures |rest| >= 2 && rest[..2] == "\r\n" ==> CrlfFrom(a + rest, p) == |a|
    decreases |a| - p
  {
    var t := a + rest;
    if p < |a| {
      assert t[p] == a[p] && a[p] in a;
      if p + 1 < |t| {
        CrlfAfterLine(a, rest, p + 1);
      }
    } else {
      assert t[p..] == rest;
      if |rest| >= 2 && rest[..2] == "\r\n" {
        assert t[p] == '\r' && t[p + 1] == '\n';
      }
    }
  }

  /** A first line without CR is split off at the CRLF that follows it. */
  lemma SplitStep(a: string, rest: string)
    requires '\r' !in a
    ensures SplitCrlf(a + "\r\n" + rest) == [a] + SplitCrlf(rest)
  {
    var t := a + ("\r\n" + rest);
    assert a + "\r\n" + rest == t;
    CrlfAfterLine(a, "\r\n" + rest, 0);
    assert t[..|a|] == a;
    assert t[|a| + 2..] == rest;
  }

  /** Splitting the joined lines gives the lines back when none contains CR. */
  lemma {:induction false} SplitJoin(lines: seq<string>)
    requires |lines| >= 1
    requires forall i :: 0 <= i < |lines| ==> '\r' !in lines[i]
    ensures SplitCrlf(JoinCrlf(lines)) == lines
  {
    if |lines| == 1 {
      CrlfAfterLine(lines[0], "", 0);
      assert lines[0] + "" == lines[0];
    } else {
      SplitStep(lines[0], JoinCrlf(lines[1..]));
      SplitJoin(lines[1..]);
      assert [lines[0]] + lines[1..] == lines;
    }
  }

  lemma DigitsNoCr(s: string)
    requires AllDigits(s)
    ensures '\r' !in s
  {
  }

  lemma RenderedNoCr(i: int, n: nat)
    ensures '\r' !in IntToString(i) && '\r' !in Pad2(n)
  {
    DigitsNoCr(NatToString(if i < 0 then -i else i));
    DigitsNoCr(NatToString(n));
    assert forall k :: 0 <= k < |Pad2(n)| ==> Pad2(n)[k] != '\r';
  }

  lemma LocalStampNoCr(t: int)
    ensures '\r' !in LocalStamp(t)
  {
    var c := CivilFromDays(t / MinutesPerDay);
    var m := t % MinutesPerDay;
    RenderedNoCr(c.year, c.month);
    RenderedNoCr(0, c.day);
    RenderedNoCr(0, m / 60);
    RenderedNoCr(0, m % 60);
  }

  predicate FieldsNoCr(f: Fields) {
    '\r' !in f.uid && '\r' !in f.stamp && '\r' !in f.summary && '\r' !in f.location && '\r' !in f.start && '\r' !in f.end
  }

  lemma EventLinesNoCr(f: Fields, k: nat)
    requires FieldsNoCr(f) && k < 8
    ensures '\r' !in EventLines(f)[k]
  {
  }

  lemma UidNoCr(o: Occurrence, i: nat)
    ensures '\r' !in Uid(i, o)
  {
    RenderedNoCr(i, 0);
    RenderedNoCr(o.start, 0);
  }

  lemma IcsEscapeNoCr(t: string)
    ensures '\r' !in IcsEscape(t)
  {
    IcsEscapeMeaning(t);
  }

  lemma EventFieldsNoCr(o: Occurrence, i: nat, stamp: string)
    requires '\r' !in stamp
    ensures FieldsNoCr(EventFields(o, i, stamp))
  {
    UidNoCr(o, i);
    IcsEscapeNoCr(o.title);
    IcsEscapeNoCr(o.location);
    LocalStampNoCr(o.start);
    LocalStampNoCr(o.end);
  }

  lemma DtStampNoCr(utcSeconds: int)
    ensures '\r' !in DtStamp(utcSeconds)
  {
    var c := CivilFromDays(utcSeconds / SecondsPerDay);
    var s := utcSeconds % SecondsPerDay;
    RenderedNoCr(c.year, c.month);
    RenderedNoCr(0, c.day);
    RenderedNoCr(0, s / 3600);
    RenderedNoCr(0, s / 60 % 60);
    RenderedNoCr(0, s % 60);
  }

  lemma FrameNoCr()
    ensures forall j :: 0 <= j < 4 ==> '\r' !in Header[j]
    ensures '\r' !in Footer
  {
  }

  lemma EventLineNoCr(events: seq<Occurrence>, stamp: string, i: nat, k: nat)
    requires '\r' !in stamp && i < |events| && k < 8
    ensures '\r' !in CalendarLines(events, stamp)[4 + 8 * i + k]
  {
    CalendarLine(events, stamp, i, k);
    EventFieldsNoCr(events[i], i, stamp);
    EventLinesNoCr(EventFields(events[i], i, stamp), k);
  }

  /** No line of the calendar contains CR. */
  lemma CalendarLineNoCr(events: seq<Occurrence>, stamp: string, j: nat)
    requires '\r' !in stamp && j < 5 + 8 * |events|
    ensures j < |CalendarLines(events, stamp)| && '\r' !in CalendarLines(events, stamp)[j]
  {
    CalendarFrame(events, stamp);
    FrameNoCr();
    var lines := CalendarLines(events, stamp);
    if j < 4 {
      assert lines[j] == lines[..4][j];
    } else if j < |lines| - 1 {
      var i, k := (j - 4) / 8, (j - 4) % 8;
      assert j == 4 + 8 * i + k;
      EventLineNoCr(events, stamp, i, k);
    }
  }

  /**
   * The text `toICS` returns splits at CRLF into exactly its 5 + 8n lines:
   * no field can break a line, and there is no CRLF after `END:VCALENDAR`.
   */
  lemma IcsLines(events: seq<Occurrence>, nowUtcSeconds: int)
    ensures var lines := CalendarLines(events, DtStamp(nowUtcSeconds));
      && SplitCrlf(JoinCrlf(lines)) == lines
      && |lines| == 5 + 8 * |events|
      && lines[|lines| - 1] == Footer
  {
    var stamp := DtStamp(nowUtcSeconds);
    var lines := CalendarLines(events, stamp);
    DtStampNoCr(nowUtcSeconds);
    CalendarFrame(events, stamp);
    forall j | 0 <= j < |lines|
      ensures '\r' !in lines[j]
    {
      CalendarLineNoCr(events, stamp, j);
    }
    SplitJoin(lines);
  }
}
