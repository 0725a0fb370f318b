# Workday schedule to iCalendar, in Dafny

This project models the core of `content.js`, the content script of a
browser extension. The script reads a student's registered courses from
Workday's "View My Courses" grid. For each row it takes the "Meeting
Patterns" cell, for example `MWF | 12:05 PM - 12:55 PM | Howe Hall 1244`,
and reads out the meeting days, the start and end times, the location and
an optional `M/D/YYYY - M/D/YYYY` date range. It then expands the pattern
into one dated occurrence per meeting day and writes all occurrences as an
iCalendar (RFC 5545) file.

Modules, one per part of the script:

- `Text`: the whitespace normaliser `s` and `icsEscape`. It also holds
  decimal rendering (`String(n)`, `padStart(2, '0')`).
- `Dates`: calendar arithmetic. A date is a day number counting from
  1970-01-01, with `getDay`, `nextWeekdayOnOrAfter` and
  `new Date(y, m - 1, d)` as civil-date conversion.
- `Tokens`: the regular expressions `TIME_RX` and `MDY_RX` and the
  captures of `parseMeetingPattern`, written as deterministic recognisers.
  It also holds `parseTime12h` and `parseMDY`.
- `Days`: `DAY_MAP` and `parseDaysToken`. The tokenizer loop is an
  imperative method proved against a function.
- `Meeting`: `splitChunks` and `parseMeetingPattern`.
- `Occurrences`: `expandOccurrences`. The nested loops are a method proved
  against a function. The function is then characterised exactly: one
  occurrence per meeting day in the range.
- `Ics`: `yyyymmdd`, `hhmmss`, `dtstampNowUTC` and `toICS`. The line
  builder is a method proved against a function. Lemmas give the layout of
  the calendar and show that splitting the text at CRLF gives back its
  lines.
- `Scrape`: what `scrapeCourses` does with the strings of one row. This is
  the candidate string built from the chunks, and the row-level date
  fallback of `getStartEndDatesFromRow`. It also covers filling missing
  dates into the pattern and the loop that gathers every row's
  occurrences.
- `Wrappers`: `Option`, which stands for the script's `null` results.

Time values are the script's `Date` objects read in local wall-clock time.
A day is a day number. An instant is a count of minutes since
1970-01-01T00:00. The clock reads `new Date()` become parameters: `now`
(minutes, local) and `nowUtcSeconds` (seconds, UTC).

When an event's end is not after its start, the script adds 50 minutes
to the end, not to the start. An end more than 50 minutes before the
start therefore stays before it, as `Occurrences.EndBeforeStart` shows.

## Model

| member | source | states |
|---|---|---|
| Text.NormalizeShape | content.js:15-20 | `s` yields text without leading or trailing whitespace, and every whitespace run in it is one plain space |
| Text.NormalizeIdempotent | content.js:15-20 | applying `s` twice is the same as once |
| Text.NormalizeJoin | content.js:15-20 | a whitespace run between two normalised words becomes exactly one space: it neither vanishes nor is kept |
| Text.NormalizedNoBreaks | content.js:15-20 | normalised text holds no line feed, carriage return or no-break space |
| Text.NormalizeKeepsOut | content.js:15-20 | `s` introduces no character except the space |
| Text.RemoveSpacesNormalize | content.js:15-20 | `s` keeps the non-space characters, in order |
| Text.IcsEscapeMeaning | content.js:21-23 | `icsEscape` is the character-wise escape of `s(t)`; unescaping gives `s(t)` back; the result holds no CR or LF; every `;` and `,` is preceded by a backslash |
| Text.UnescapeEscape | content.js:22 | unescaping undoes the backslash escape of `\`, `;`, `,` and line feed on every text |
| Text.EscapePassesAreEscapeText | content.js:22 | the four successive `replace` passes equal one character-wise escape |
| Text.EscapedSeparators | content.js:22 | in escaped text every `;` and `,` follows a backslash |
| Text.NatToStringRoundTrip | content.js:26-27 | reading back the decimal rendering of a number gives the number |
| Text.NatToStringInjective | content.js:26-27 | different numbers render differently |
| Text.Pad2Digits | content.js:26-27 | `padStart(2, '0')` of a number below 100 gives two digits that read back as the number |
| Ics.LocalStampShape | content.js:24-32 | the DTSTART/DTEND value is 8 date digits, `T`, then 6 clock digits ending in `00`, for a four-digit year |
| Ics.LocalStampAt | content.js:24-32 | an instant on a day at a time renders that day's date and that hour and minute |
| Ics.DtStampShape | content.js:33-36 | the DTSTAMP value is 8 digits, `T`, 6 digits and `Z`; its hour is the UTC hour of the clock reading, below 24 |
| Tokens.ParseTime12h | content.js:38-47 | gives a time exactly when the whole text matches `^\d{1,2}:\d{2}\s*[AP]M$` (case-insensitive) |
| Tokens.ParseTime12hConverts | content.js:38-47 | a 12-hour time with hour 1..12, any whitespace gap and any-case meridiem reads as the 24-hour time: 12 AM is 0, PM adds 12 except at 12 |
| Tokens.Hour24Clock | content.js:44-45 | on hours 1..12 the script's two `if`s equal the reference rule "hour mod 12, plus 12 after noon" and land in 0..23 |
| Tokens.ParseFormat12h | content.js:38-47 | every valid 24-hour time, written in 12-hour form, parses back to itself |
| Tokens.ParseTime12hUnchecked | content.js:38-47 | hours are not range-checked: `13:00 PM` reads as hour 25 |
| Tokens.CaptureParses | content.js:133-136 | a time captured by the range pattern parses, and upper-casing and whitespace-collapsing it first does not change the reading |
| Tokens.FirstRange | content.js:133 | the leftmost match of the time-range pattern: no earlier position matches |
| Tokens.TimeRxGivesRange | content.js:5 | a text that passes `TIME_RX.test` has a match of the capturing range pattern |
| Tokens.ParseMDYReads | content.js:48-52 | `parseMDY` reads back a date written as M/D/YYYY with its month, day and year |
| Tokens.ParseMDYPieces | content.js:48-52 | one or two digits, `/`, one or two digits, `/`, four digits parse to the values of the three runs |
| Tokens.DateCaptureParses | content.js:175-178 | a date captured by the date-range pattern is read back by `parseMDY` with the same fields |
| Tokens.FirstMdy | content.js:49 | without a result, no position from the start on holds an `MDY_RX` match |
| Tokens.FirstMdyFirst | content.js:49 | a result is the `MDY_RX` match at some position, and no earlier position matches: the leftmost match |
| Dates.NextWeekdayOnOrAfter | content.js:56-61 | the day found has the requested weekday and lies 0 to 6 days after the start |
| Dates.NextWeekdayFirst | content.js:56-61 | no day between the start and the day found has that weekday |
| Dates.LocalDateYears | content.js:53-55 | a year from 0 to 99 is read as 1900 to 1999; any other year with a month from 1 to 12 gives that calendar date, the day allowed to run past the month |
| Dates.LocalDateRollover | content.js:53-55 | twelve more months is the same month of the next year, outside the two-digit years |
| Dates.LocalDateNextDay | content.js:53-55 | one more day is the next day, also across a month's or a year's end |
| Dates.TwoDigitYearExamples | content.js:53-55 | example: "1/2/0050" is 2 January 1950, and month 13 of year 99 is January 2000 |
| Dates.LeapDayRollsOver | content.js:53-55 | example: 30 February 2024 is 1 March 2024 |
| Dates.WeekdayWeekly | content.js:213 | a day seven days later has the same weekday |
| Dates.CivilFromDays | content.js:24-27 | `getMonth() + 1` is in 1..12 and `getDate()` in 1..31 |
| Days.ParseDaysToken | content.js:77-107 | the tokenizer loop returns the codes of the greedy tokens, unmapped tokens dropped |
| Days.DayCodesLength | content.js:77-107 | there are never more codes than non-space characters |
| Days.DayCodesIgnoreSpaces | content.js:78 | whitespace anywhere in the input, and `s`, change nothing |
| Days.SingleLetterDays | content.js:103-106 | without `T`, `S` or `s` every character is its own token; M, W, R and F map, and everything else is dropped |
| Days.LowercaseDays | content.js:93-106 | lower-case letters yield only SA or SU, through the case-insensitive `sat`/`sun` |
| Days.DayCodesExamples | content.js:77-107 | MWF, TuTh, `T Th`, SAT and sun map as expected; a lone S and `Sa` yield nothing |
| Meeting.SplitChunksClean | content.js:110-115 | every chunk is non-empty, normalised, and holds no line feed, semicolon, bullet, middle dot or vertical bar |
| Meeting.SplitChunksNoSeparator | content.js:110-115 | text holding no separator is a single chunk, its normal form, or no chunk when that form is empty |
| Meeting.SplitChunksJoin | content.js:110-115 | at a separator match that nothing before it reads past, the chunks are those of the text before it followed by those of the text after it, in order |
| Meeting.SplitChunksAtChar | content.js:112 | a line feed, `;`, `•` or `·` splits the chunks there (for a line feed, when the text before it does not end in whitespace or a vertical bar) |
| Meeting.SplitChunksAtBar | content.js:112 | a vertical bar with whitespace on either side splits the chunks there, the whitespace taken by the separator |
| Meeting.SplitAvoids | content.js:111-113 | no piece of a split holds a character the pattern splits at |
| Meeting.NonEmpty | content.js:114 | `filter(Boolean)` keeps every non-empty string and nothing else |
| Meeting.FindIndex | content.js:128 | the index found passes the test and every earlier one fails it; without one, none passes |
| Meeting.FindTimeRangeFirst | content.js:128 | the chunk found is the first holding `TIME_RX`; without one, no chunk holds it |
| Meeting.CapturedTimes | content.js:133-137 | both times or neither, each read from the captured text as it stands |
| Meeting.LeadingLetters | content.js:164-165 | a result is the whole run of 1 to 12 ASCII letters that opens the text |
| Meeting.LeadingLettersMatch | content.js:164 | there is a result exactly when 1 to 12 letters open the text followed by whitespace, one or two digits and `:`; the result is those letters |
| Meeting.DateRange | content.js:175-181 | both dates or neither, each the date the leftmost range match spells |
| Meeting.ParseMeetingPattern | content.js:118-184 | both times or neither; both dates or neither; the location is normalised |
| Meeting.TimeChunkTimes | content.js:130-137 | with a time chunk, both times are set, from the leftmost range of the first time chunk |
| Meeting.TimeChunkDays | content.js:140-153 | the days come from the chunk before the time chunk; when that names none, they come from the text before the first time |
| Meeting.TimeChunkLocation | content.js:156 | the location is the chunks after the time chunk joined by spaces, and holds no separator |
| Meeting.FreeFormPattern | content.js:158-169 | without a time chunk, both times are set exactly when the text holds a range, and they are the readings of its leftmost range's captures; the days are those of the leading letters, or none; the location is the free-form piece and holds no bullet |
| Meeting.JoinNormalized | content.js:156 | non-empty normalised strings joined by single spaces stay normalised |
| Occurrences.NextOnOrAfter | content.js:207 | moving an instant to the weekday keeps its time of day and is never earlier |
| Occurrences.RangeStart | content.js:190-195 | the range starts at the start date at midnight, else at the first Monday on or after `now` |
| Occurrences.RangeEnd | content.js:196-202 | the range ends at midnight of the end date; without one, 112 days after the start, on the start's weekday and time of day; without any dates, on a Monday 112 to 118 days after `now` |
| Occurrences.ExpandOccurrences | content.js:186-217 | the nested loops return the expansion of the pattern |
| Occurrences.ExpansionExact | content.js:186-217 | the occurrences are exactly the meetings on days whose weekday the pattern names, within the range; there are none without days or without both times |
| Occurrences.OccurrenceDuration | content.js:209-212 | each occurrence starts at the start time on its day and lasts end minus start, or 50 minutes more when that is not positive |
| Occurrences.EndBeforeStart | content.js:211 | the 50-minute fallback can leave the end before the start |
| Occurrences.WeeklyInRange | content.js:207-214 | each occurrence of a weekday's run falls on that weekday within the range |
| Occurrences.WeeklyComplete | content.js:207-214 | every in-range day with that weekday has its occurrence in the run |
| Occurrences.DuplicateDays | content.js:204-215 | codes are not deduplicated: repeated days repeat the occurrences |
| Occurrences.ExpansionBlocks | content.js:204-215 | occurrences come grouped by day code, in the order of the codes |
| Occurrences.ExpansionOrder | content.js:207-214 | within a code's block, the k-th occurrence is the meeting k weeks after the first day with that weekday in the range |
| Occurrences.WeeklyClosedForm | content.js:207-214 | one weekday's run has one occurrence per week from the first day while not past the end, a week apart |
| Occurrences.TwoWeeksOrder | content.js:204-215 | example: for Mondays and Wednesdays over two weeks from a Monday, the two Mondays come first, then the two Wednesdays |
| Occurrences.TwoWeeksExample | content.js:186-217 | Monday/Wednesday 9:00-9:50 over two weeks gives four 50-minute occurrences in that order |
| Occurrences.DefaultRangeCount | content.js:190-202 | without dates, one weekday meets 17 times if it is Monday and 16 times otherwise |
| Ics.ToIcs | content.js:307-325 | the builder loop returns the calendar lines joined by CRLF |
| Ics.CalendarFrame | content.js:308-323 | 5 + 8n lines: the four header lines first, `END:VCALENDAR` last |
| Ics.CalendarLine | content.js:310-322 | event `i` occupies lines 4 + 8i to 11 + 8i, in order |
| Ics.UidIndexRoundTrip | content.js:311 | the event index can be read back from its UID |
| Ics.CalendarUidsDistinct | content.js:311-314 | two different events have different UID lines |
| Ics.CalendarStamp | content.js:309-315 | every event carries the file's one DTSTAMP |
| Ics.CalendarText | content.js:316-317 | SUMMARY and LOCATION hold the escaped title and location, which unescape to their normalised text |
| Ics.CalendarTimes | content.js:318-319 | DTSTART and DTEND carry the time zone and the local stamps of the start and end |
| Ics.SplitJoin | content.js:324 | joining lines without CR at CRLF and splitting again gives the lines back |
| Ics.IcsLines | content.js:307-325 | the file splits at CRLF into exactly its 5 + 8n lines and ends with `END:VCALENDAR`, with no trailing CRLF |
| Scrape.RowDates | content.js:272-303 | each cell's own date wins; a date is missing only when neither the cell nor any text of the row has one |
| Scrape.RowStartFallback | content.js:293-301 | without its own date, the start is the date of the row's first dated text |
| Scrape.RowEndFallback | content.js:293-301 | without its own date, the end is the date of the row's last dated text |
| Scrape.DatedFirst | content.js:293-294 | the first dated text heads the filtered list |
| Scrape.DatedLast | content.js:293-298 | the filtered list ends with the last dated text |
| Scrape.CandidateShape | content.js:356-366 | with a time chunk, the candidate is the days-and-time head, followed by ` • ` and the remaining chunks (normalised) when there are any; neither part holds a separator, so the bullet is the candidate's only one |
| Scrape.CandidateParts | content.js:356-363 | the head and the location hold no separator, and the location is normalised |
| Scrape.OnlyBullet | content.js:363 | the candidate keeps head and location intact, and the bullet is its only separator |
| Scrape.FillDates | content.js:373-374 | a row date fills a pattern date only where the pattern has none; nothing else changes |
| Scrape.FillDatesRange | content.js:373-377 | the range comes from the pattern's dates, then the row's, then the default |
| Scrape.FillDatesIdempotent | content.js:373-374 | filling twice with the same row dates is filling once |
| Scrape.ScrapeCourses | content.js:341-382 | the row loop returns every row's occurrences, in row order |
| Scrape.RowEventsMeaning | content.js:350-377 | a row's events carry its title and the pattern's location, on meeting days within the range; a row without a meeting string gives none |
| Scrape.AllEventsAppend | content.js:341-382 | scraping two tables in turn gives the first's events, then the second's |
| Scrape.AllEventsFromRows | content.js:341-382 | every event comes from some row |

## Left out

- The DOM: locating the grid, its header and cells, reading their text, and
  the `getStartEndDatesFromRow` cell lookup. A row is given as its title,
  meeting string, start and end cells and the texts of its other elements.
  Only the choice among those strings is modelled.
- `popup.js`, `downloadICS`, `runExport` and the message listener: they are
  browser I/O.
- Clock reads are parameters: `now` for `expandOccurrences` and
  `nowUtcSeconds` for `dtstampNowUTC`. Every row is expanded with the same
  `now`; the script reads the clock at most once per row, and only when
  the row's pattern has no start date once its dates are filled in.
- Time zones and daylight saving are not modelled. Instants are
  wall-clock minutes, so a day is always 1440 minutes. The `TZID` is the
  constant `America/Chicago`, as in the script.
- Ics.Uid: the numeric part of the UID is the start instant in minutes, a
  stand-in for `Date.getTime()` in milliseconds. Only its use as a key is
  modelled, and the proofs that UIDs differ use the index alone.
- Dates.CivilFromDays: its inverse relation to `DaysFromCivil` is not
  proved. Only the ranges of month and day are stated.
- Scrape.CandidateShape: the proof does not show that reparsing the
  candidate gives the same days and times as the original string.
- `toUpperCase`, `toLowerCase` and `\s` are modelled on the characters
  that matter to the patterns (ASCII letters, and the whitespace set of
  `Text.IsSpace`). A `char` is a Unicode scalar value, so a character
  outside the Basic Multilingual Plane is one `char` in the model but two
  UTF-16 code units in the script. No pattern of the script matches such a
  character or either of its halves; the model does not capture the
  difference in string lengths.
- Regular expressions are replaced by recognisers for the patterns the
  script uses, not by a general regex engine. A quantifier can match runs
  of several lengths from a given start: `\s+` in `s` and the trailing
  `\s*` of the chunk separator `\s*\|\s*` do, so "| x" matches both "|"
  and "| " at the bar. The recognisers take the longest run, which is the
  greedy choice a backtracking engine tries first. Where nothing follows
  the quantifier, as in those two, the engine keeps that first choice.
  Where something follows (a `|`, a `:`, a `/`, `AM`/`PM`, a digit after
  spaces), a shorter run would leave a character of the run in front of
  it, which it never accepts, so backtracking cannot find another match.
  Either way the recogniser gives the match the script gets.
- The pattern object that `scrapeCourses` mutates (`mp.startDate = ...`)
  is modelled as a value that `Scrape.FillDates` returns updated.
- The `if (weekday0Sun == null) continue;` of `expandOccurrences` is not
  modelled. It drops only a code missing from the weekday map, and every
  day code of the model is in that map; Sunday, whose number is 0, is kept.
- Occurrences.RangeStart: the default range keeps `now`'s time of day, as
  the script's `new Date()` does. It is not rounded to midnight.
