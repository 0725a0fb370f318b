/**
 * The regular expressions of content.js as hand-written recognisers, and the
 * token readers `parseTime12h` and `parseMDY`. Each regex used here has at
 * most one way to match from a given start position (every `\s*` is followed
 * by a non-space and `\d{1,2}` by a separator), so a recogniser is a function
 * from a start position to the end of the match; a search is the leftmost
 * start that matches.
 */
module Tokens {
  import opened Wrappers
  import opened Text

  /** A 24-hour wall-clock time of day as the source's `{h, m}`. */
  datatype Time = Time(h: int, m: int)

  /** `\w` (no `u` flag). */
  predicate IsWordChar(c: char) {
    'a' <= c <= 'z' || 'A' <= c <= 'Z' || IsDigit(c) || c == '_'
  }

  /** `\b` before position `p` when `s[p]` is a word character. */
  predicate BoundaryBefore(s: string, p: nat)
    requires p <= |s|
  {
    p == 0 || !IsWordChar(s[p - 1])
  }

  /** `\b` at position `e` when `s[e - 1]` is a word character. */
  predicate BoundaryAfter(s: string, e: nat)
    requires e <= |s|
  {
    e == |s| || !IsWordChar(s[e])
  }

  predicate IsMeridiemLetter(c: char) { c == 'A' || c == 'a' || c == 'P' || c == 'p' }

  predicate IsM(c: char) { c == 'M' || c == 'm' }

  /** `[-–]`: hyphen or en dash. */
  predicate IsDash(c: char) { c == '-' || c == '\U{2013}' }

  /** First index at or after `p` that is not whitespace (`\s*`). */
  function SkipSpaces(s: string, p: nat): (q: nat)
    requires p <= |s|
    ensures p <= q <= |s|
    ensures forall k :: p <= k < q ==> IsSpace(s[k])
    ensures q < |s| ==> !IsSpace(s[q])
    decreases |s| - p
  {
    if p < |s| && IsSpace(s[p]) then SkipSpaces(s, p + 1) else p
  }

  /**
   * How many digits `\d{1,2}` takes at `p` when a separator must follow:
   * two if the next character is a digit (one digit would then be followed
   * by a digit, not the separator), otherwise one.
   */
  function DigitRun12(s: string, p: nat): (n: nat)
    requires p < |s|
    ensures n == 1 || n == 2
  {
    if p + 1 < |s| && IsDigit(s[p + 1]) then 2 else 1
  }

  // ----- times -----

  /** End of a match of `\d{1,2}:\d{2}\s*[AP]M` (case-insensitive) that starts at `p`. */
  function TimeTokenEnd(s: string, p: nat): (r: Option<nat>)
    requires p <= |s|
    ensures r.Some? ==> p + 6 <= r.value <= |s|
  {
    if p < |s| && IsDigit(s[p]) then
      var c := p + DigitRun12(s, p);
      if c + 2 < |s| && s[c] == ':' && IsDigit(s[c + 1]) && IsDigit(s[c + 2]) then
        var w := SkipSpaces(s, c + 3);
        if w + 1 < |s| && IsMeridiemLetter(s[w]) && IsM(s[w + 1]) then Some(w + 2) else None
      else None
    else None
  }

  /** Start and end of the two captured times of one time-range match. */
  datatype RangeMatch = RangeMatch(start: nat, end1: nat, start2: nat, end: nat)

  /** `(\d{1,2}:\d{2}\s*[AP]M)\s*[-–]\s*(\d{1,2}:\d{2}\s*[AP]M)` (case-insensitive) at `p`. */
  function RangeAt(s: string, p: nat): (r: Option<RangeMatch>)
    requires p <= |s|
    ensures r.Some? ==> r.value.start == p < r.value.end1 < r.value.start2 < r.value.end <= |s|
    ensures r.Some? ==> TimeTokenEnd(s, p) == Some(r.value.end1) && TimeTokenEnd(s, r.value.start2) == Some(r.value.end)
  {
    match TimeTokenEnd(s, p)
    case None => None
    case Some(e1) =>
      var w := SkipSpaces(s, e1);
      if w < |s| && IsDash(s[w]) then
        var p2 := SkipSpaces(s, w + 1);
        match TimeTokenEnd(s, p2)
        case None => None
        case Some(e2) => Some(RangeMatch(p, e1, p2, e2))
      else None
  }

  /** TIME_RX at `p`: the time range with `\b` at both ends. */
  predicate TimeRxAt(s: string, p: nat)
    requires p <= |s|
  {
    RangeAt(s, p).Some? && BoundaryBefore(s, p) && BoundaryAfter(s, RangeAt(s, p).value.end)
  }

  /** `TIME_RX.test(s)`. */
  predicate HasTimeRange(s: string) {
    exists p :: 0 <= p <= |s| && TimeRxAt(s, p)
  }

  /** Leftmost match of the time-range pattern (without `\b`) at or after `p`: `s.match(...)`. */
  function FirstRange(s: string, p: nat): (r: Option<RangeMatch>)
    requires p <= |s|
    ensures r.Some? ==> p <= r.value.start <= |s| && RangeAt(s, r.value.start) == r
    ensures r.None? ==> forall q :: p <= q <= |s| ==> RangeAt(s, q).None?
    decreases |s| - p
  {
    var here := RangeAt(s, p);
    if here.Some? then here
    else if p == |s| then None
    else FirstRange(s, p + 1)
  }

  /** A TIME_RX match guarantees a match of the range pattern without `\b`, no later than it. */
  lemma TimeRxGivesRange(s: string)
    requires HasTimeRange(s)
    ensures FirstRange(s, 0).Some?
  {
    var p :| 0 <= p <= |s| && TimeRxAt(s, p);
  }

  /** Start of the leftmost `\d{1,2}:\d{2}\s*[AP]M` at or after `p`, or `|s|` if there is none. */
  function FirstTimeToken(s: string, p: nat): (q: nat)
    requires p <= |s|
    ensures p <= q <= |s|
    ensures forall k :: p <= k < q ==> TimeTokenEnd(s, k).None?
    ensures q < |s| ==> TimeTokenEnd(s, q).Some?
    decreases |s| - p
  {
    if p == |s| || TimeTokenEnd(s, p).Some? then p else FirstTimeToken(s, p + 1)
  }

  /** `toUpperCase` on the characters a time capture holds (digits, `:`, whitespace, `a`, `p`, `m`). */
  function AsciiUpper(x: string): (r: string)
    ensures |r| == |x|
    ensures forall i :: 0 <= i < |x| ==> r[i] == if 'a' <= x[i] <= 'z' then (x[i] as int - 32) as char else x[i]
  {
    seq(|x|, i requires 0 <= i < |x| => if 'a' <= x[i] <= 'z' then (x[i] as int - 32) as char else x[i])
  }

  /** A time match read on its own: the recogniser only looks inside the match. */
  lemma TimeTokenLocal(s: string, p: nat, e: nat)
    requires p <= |s| && TimeTokenEnd(s, p) == Some(e)
    ensures TimeTokenEnd(s[p..e], 0) == Some(e - p)
  {
    var x := s[p..e];
    assert forall k :: 0 <= k < |x| ==> x[k] == s[p + k];
    var c := p + DigitRun12(s, p);
    var w := SkipSpaces(s, c + 3);
    assert DigitRun12(x, 0) == c - p;
    AllSpacesSkipped(x, c - p + 3, w - p);
  }

  /** Collapsing a string split into a space-free head, a whitespace gap and a space-free tail. */
  lemma CollapseThree(head: string, gap: string, tail: string)
    requires head != [] && forall i :: 0 <= i < |head| ==> !IsSpace(head[i])
    requires forall i :: 0 <= i < |gap| ==> IsSpace(gap[i])
    requires |tail| == 2 && !IsSpace(tail[0]) && !IsSpace(tail[1])
    ensures CollapseSpaces(head + gap + tail) == head + (if gap == [] then [] else [' ']) + tail
  {
    forall i | 0 <= i < |tail| ensures !IsSpace(tail[i]) {
      if i == 1 { assert tail[i] == tail[1]; }
    }
    assert head + gap + tail == head + (gap + tail);
    CollapseAppend(head, gap + tail);
    CollapseNoSpace(head);
    CollapseNoSpace(tail);
    if gap == [] {
      assert gap + tail == tail;
    } else {
      CollapseRun(gap, tail);
    }
  }

  /**
   * The shape of a whole-string time token whose hour field has `c` digits:
   * digits, `:`, two digits, a whitespace gap, a meridiem letter and `M`.
   */
  predicate TimeShape(x: string, c: nat) {
    && (c == 1 || c == 2) && c + 5 <= |x|
    && (forall k :: 0 <= k < c ==> IsDigit(x[k]))
    && x[c] == ':' && IsDigit(x[c + 1]) && IsDigit(x[c + 2])
    && (forall k :: c + 3 <= k < |x| - 2 ==> IsSpace(x[k]))
    && IsMeridiemLetter(x[|x| - 2]) && IsM(x[|x| - 1])
  }

  /** A string of the time shape is one time token whose hour field has `c` digits. */
  lemma TimeTokenWhole(x: string, c: nat)
    requires TimeShape(x, c)
    ensures DigitRun12(x, 0) == c && TimeTokenEnd(x, 0) == Some(|x|)
  {
    AllSpacesSkipped(x, c + 3, |x| - 2);
  }

  /** Conversely, a whole-string time token has the time shape. */
  lemma TimeTokenShape(x: string)
    requires TimeTokenEnd(x, 0) == Some(|x|)
    ensures TimeShape(x, DigitRun12(x, 0))
  {
  }

  /** What `parseTime12h` reads from a string of the time shape. */
  lemma ParseTime12hShape(x: string, c: nat)
    requires TimeShape(x, c)
    ensures ParseTime12h(x) == Some(Time(Hour24(DigitsValue(x[..c]), IsPm(x[|x| - 2])), DigitsValue(x[c + 1..c + 3])))
  {
    TimeTokenWhole(x, c);
  }

  /** An upper-cased time token is digits and `:`, then a whitespace gap, then `AM` or `PM`. */
  lemma CaptureParts(x: string, c: nat) returns (head: string, gap: string, tail: string)
    requires TimeShape(x, c)
    ensures AsciiUpper(x) == head + gap + tail
    ensures head == x[..c + 3]
    ensures forall i :: 0 <= i < |head| ==> !IsSpace(head[i])
    ensures forall i :: 0 <= i < |gap| ==> IsSpace(gap[i])
    ensures |tail| == 2 && !IsSpace(tail[0]) && !IsSpace(tail[1])
  {
    var w := |x| - 2;
    var u := AsciiUpper(x);
    DigitsColonNoLetter(x, c);
    forall i | c + 3 <= i < w ensures !('a' <= x[i] <= 'z') {
      SpaceNotLower(x[i]);
    }
    UpperSame(x, 0, w);
    head, gap, tail := x[..c + 3], x[c + 3..w], u[w..];
    assert u == u[..w] + tail;
    assert u[..w] == head + gap;
    assert tail[0] == u[w] && tail[1] == u[w + 1];
  }

  lemma DigitsColonNoLetter(x: string, c: nat)
    requires TimeShape(x, c)
    ensures forall i :: 0 <= i < c + 3 ==> !('a' <= x[i] <= 'z') && !IsSpace(x[i])
  {
    forall i | 0 <= i < c + 3 ensures !('a' <= x[i] <= 'z') && !IsSpace(x[i]) {
      assert IsDigit(x[i]) || x[i] == ':';
    }
  }

  /** Upper-casing leaves a stretch without lower-case letters alone. */
  lemma UpperSame(x: string, lo: nat, hi: nat)
    requires lo <= hi <= |x|
    requires forall i :: lo <= i < hi ==> !('a' <= x[i] <= 'z')
    ensures AsciiUpper(x)[lo..hi] == x[lo..hi]
  {
  }

  lemma SpaceNotLower(ch: char)
    requires IsSpace(ch)
    ensures !('a' <= ch <= 'z')
  {
  }

  /** Upper-casing and collapsing a time token keeps its digits and `:` and leaves at most one space before the meridiem. */
  lemma CaptureShape(x: string)
    requires TimeTokenEnd(x, 0) == Some(|x|)
    ensures var y, c := CollapseSpaces(AsciiUpper(x)), DigitRun12(x, 0);
      && (|y| == c + 5 || (|y| == c + 6 && y[c + 3] == ' '))
      && y[..c + 3] == x[..c + 3]
      && y[|y| - 2] == AsciiUpper(x)[|x| - 2] && y[|y| - 1] == AsciiUpper(x)[|x| - 1]
  {
    TimeTokenShape(x);
    var head, gap, tail := CaptureParts(x, DigitRun12(x, 0));
    CollapseThree(head, gap, tail);
  }

  /** Two strings of that shape with the same digits and the same meridiem read as the same time. */
  lemma SameTimeFields(x: string, y: string)
    requires TimeTokenEnd(x, 0) == Some(|x|)
    requires var c := DigitRun12(x, 0);
      && (|y| == c + 5 || (|y| == c + 6 && y[c + 3] == ' '))
      && y[..c + 3] == x[..c + 3]
      && y[|y| - 2] == AsciiUpper(x)[|x| - 2] && y[|y| - 1] == AsciiUpper(x)[|x| - 1]
    ensures ParseTime12h(y) == ParseTime12h(x)
  {
    var c := DigitRun12(x, 0);
    TimeTokenShape(x);
    UpperMeridiem(x, c);
    SameShapeSameTime(x, y, c);
  }

  /** Upper-casing keeps the meridiem letters and whether the time is after noon. */
  lemma UpperMeridiem(x: string, c: nat)
    requires TimeShape(x, c)
    ensures var u := AsciiUpper(x);
      IsMeridiemLetter(u[|x| - 2]) && IsM(u[|x| - 1]) && IsPm(u[|x| - 2]) == IsPm(x[|x| - 2])
  {
  }

  lemma SameShapeSameTime(x: string, y: string, c: nat)
    requires TimeShape(x, c)
    requires |y| == c + 5 || (|y| == c + 6 && y[c + 3] == ' ')
    requires y[..c + 3] == x[..c + 3]
    requires IsMeridiemLetter(y[|y| - 2]) && IsM(y[|y| - 1]) && IsPm(y[|y| - 2]) == IsPm(x[|x| - 2])
    ensures ParseTime12h(y) == ParseTime12h(x)
  {
    assert forall k :: 0 <= k < c + 3 ==> y[k] == x[k];
    assert TimeShape(y, c);
    ParseTime12hShape(x, c);
    ParseTime12hShape(y, c);
    assert y[..c] == x[..c] && y[c + 1..c + 3] == x[c + 1..c + 3];
  }

  /**
   * What the source does to a captured time before parsing it
   * (`.toUpperCase().replace(/\s+/g, ' ')`) does not change what
   * `parseTime12h` reads from it.
   */
  lemma CaptureNormalForm(x: string)
    requires TimeTokenEnd(x, 0) == Some(|x|)
    ensures ParseTime12h(CollapseSpaces(AsciiUpper(x))) == ParseTime12h(x)
  {
    CaptureShape(x);
    SameTimeFields(x, CollapseSpaces(AsciiUpper(x)));
  }

  /** Every time captured by a match is read by `parseTime12h` as a time. */
  lemma CaptureParses(s: string, p: nat, e: nat)
    requires p <= |s| && TimeTokenEnd(s, p) == Some(e)
    ensures ParseTime12h(CollapseSpaces(AsciiUpper(s[p..e]))) == ParseTime12h(s[p..e])
    ensures ParseTime12h(s[p..e]).Some?
  {
    TimeTokenLocal(s, p, e);
    CaptureNormalForm(s[p..e]);
  }

  /** The 12-hour to 24-hour rule as a reference: the hour modulo 12, plus 12 after noon. */
  function Clock24(hour12: int, pm: bool): (r: int) {
    hour12 % 12 + (if pm then 12 else 0)
  }

  /** content.js `parseTime12h`: `^(\d{1,2}):(\d{2})\s*([AP]M)$` (case-insensitive), then 12 to 24 hours. */
  function ParseTime12h(x: string): (r: Option<Time>)
    ensures r.Some? <==> TimeTokenEnd(x, 0) == Some(|x|)
    ensures r.Some? ==> 0 <= r.value.m < 100 && 0 <= r.value.h < 112
  {
    if TimeTokenEnd(x, 0) == Some(|x|) then
      var n := DigitRun12(x, 0);
      DigitsValueBound(x[..n]);
      DigitsValueBound(x[n + 1..n + 3]);
      var h := DigitsValue(x[..n]);
      var min := DigitsValue(x[n + 1..n + 3]);
      Some(Time(Hour24(h, IsPm(x[|x| - 2])), min))
    else None
  }

  predicate IsPm(c: char) { c == 'P' || c == 'p' }

  /** The hour `parseTime12h` computes: 12 is added after noon unless the hour is 12, and 12 AM becomes 0. */
  function Hour24(h: int, pm: bool): (r: int) {
    var h1 := if pm && h != 12 then h + 12 else h;
    if !pm && h1 == 12 then 0 else h1
  }

  /** On the hours 1 to 12 the source's rule is the reference rule and lands in 0..23. */
  lemma Hour24Clock(h: int, pm: bool)
    requires 1 <= h <= 12
    ensures Hour24(h, pm) == Clock24(h, pm) && 0 <= Clock24(h, pm) <= 23
  {
  }

  lemma {:induction false} DigitsValueBound(s: string)
    requires AllDigits(s)
    ensures |s| <= 1 ==> DigitsValue(s) < 10
    ensures |s| <= 2 ==> DigitsValue(s) < 100
    ensures |s| <= 3 ==> DigitsValue(s) < 1000
    ensures |s| <= 4 ==> DigitsValue(s) < 10000
  {
    if s != [] { DigitsValueBound(s[..|s| - 1]); }
  }

  lemma DigitsValueOne(c: char)
    requires IsDigit(c)
    ensures DigitsValue([c]) == DigitValue(c)
  {
    assert [c][..0] == [];
  }

  lemma DigitsValueTwo(c0: char, c1: char)
    requires IsDigit(c0) && IsDigit(c1)
    ensures DigitsValue([c0, c1]) == 10 * DigitValue(c0) + DigitValue(c1)
  {
    assert [c0, c1][..1] == [c0];
    DigitsValueOne(c0);
  }

  lemma AllSpacesSkipped(s: string, p: nat, q: nat)
    requires p <= q <= |s|
    requires forall k :: p <= k < q ==> IsSpace(s[k])
    requires q < |s| ==> !IsSpace(s[q])
    ensures SkipSpaces(s, p) == q
    decreases q - p
  {
    if p < q { AllSpacesSkipped(s, p + 1, q); }
  }

  /**
   * For a standard 12-hour time (hour 1 to 12 without padding, two-digit
   * minute, any whitespace, `AM`/`PM` in any case), `parseTime12h` gives the
   * hour by the 12-to-24 rule (12 AM is 0, 12 PM is 12, other PM hours add 12),
   * in 0..23, and the minute unchanged.
   */
  lemma ParseTime12hConverts(hour: nat, minute: nat, gap: string, mer: string)
    requires 1 <= hour <= 12 && minute < 60
    requires forall i :: 0 <= i < |gap| ==> IsSpace(gap[i])
    requires |mer| == 2 && IsMeridiemLetter(mer[0]) && IsM(mer[1])
    ensures var pm := mer[0] == 'P' || mer[0] == 'p';
      ParseTime12h(NatToString(hour) + ":" + Pad2(minute) + gap + mer) == Some(Time(Clock24(hour, pm), minute))
      && 0 <= Clock24(hour, pm) <= 23
  {
    var d, mm := NatToString(hour), Pad2(minute);
    var x := d + ":" + mm + gap + mer;
    NatToStringLength(hour);
    Pad2Digits(minute);
    NatToStringRoundTrip(hour);
    var c := |d|;
    TimeTextPieces(d, mm, gap, mer);
    ParseTime12hShape(x, c);
    Hour24Clock(hour, IsPm(mer[0]));
  }

  /** Where the pieces of a time written out sit in the text. */
  lemma TimeTextPieces(d: string, mm: string, gap: string, mer: string)
    requires |d| == 1 || |d| == 2
    requires AllDigits(d) && |mm| == 2 && AllDigits(mm)
    requires forall i :: 0 <= i < |gap| ==> IsSpace(gap[i])
    requires |mer| == 2 && IsMeridiemLetter(mer[0]) && IsM(mer[1])
    ensures var x, c := d + ":" + mm + gap + mer, |d|;
      && TimeShape(x, c)
      && x[|x| - 2] == mer[0] && x[..c] == d && x[c + 1..c + 3] == mm
  {
    var x, c := d + ":" + mm + gap + mer, |d|;
    assert forall k :: c + 3 <= k < |x| - 2 ==> x[k] == gap[k - c - 3];
    assert x[..c] == d;
    assert x[c + 1..c + 3] == mm;
  }

  /** A time of day written back in the 12-hour form the portal shows. */
  function Format12h(t: Time): (r: string)
    requires 0 <= t.h < 24 && 0 <= t.m < 60
  {
    var h12 := if t.h % 12 == 0 then 12 else t.h % 12;
    NatToString(h12) + ":" + Pad2(t.m) + " " + (if t.h < 12 then "AM" else "PM")
  }

  /** Every valid 24-hour time survives formatting in 12-hour form and parsing back. */
  lemma ParseFormat12h(t: Time)
    requires 0 <= t.h < 24 && 0 <= t.m < 60
    ensures ParseTime12h(Format12h(t)) == Some(t)
  {
    var h12, mer := Format12hParts(t);
    ParseTime12hConverts(h12, t.m, " ", mer);
  }

  /** The hour on the 12-hour clock and the meridiem that `Format12h` writes. */
  lemma Format12hParts(t: Time) returns (h12: nat, mer: string)
    requires 0 <= t.h < 24 && 0 <= t.m < 60
    ensures 1 <= h12 <= 12 && |mer| == 2 && IsMeridiemLetter(mer[0]) && IsM(mer[1])
    ensures Clock24(h12, mer[0] == 'P' || mer[0] == 'p') == t.h
    ensures Format12h(t) == NatToString(h12) + ":" + Pad2(t.m) + " " + mer
  {
    h12 := if t.h % 12 == 0 then 12 else t.h % 12;
    mer := if t.h < 12 then "AM" else "PM";
  }

  /** The source does not range-check hours: "13:00 PM" is read as hour 25. */
  lemma ParseTime12hUnchecked()
    ensures ParseTime12h("13:00 PM") == Some(Time(25, 0))
  {
    var x := "13:00 PM";
    assert SkipSpaces(x, 5) == 6;
    assert TimeTokenEnd(x, 0) == Some(8);
    assert x[..2] == ['1', '3'];
    DigitsValueTwo('1', '3');
    assert x[3..5] == ['0', '0'];
    DigitsValueTwo('0', '0');
  }

  // ----- dates -----

  datatype MonthDayYear = MonthDayYear(month: nat, day: nat, year: nat)

  /** `(\d{1,2})\/(\d{1,2})\/(\d{4})` at `p`: the three fields and the end of the match. */
  function DateAt(s: string, p: nat): (r: Option<(MonthDayYear, nat)>)
    requires p <= |s|
    ensures r.Some? ==> p + 8 <= r.value.1 <= |s|
    ensures r.Some? ==> r.value.0.month < 100 && r.value.0.day < 100 && r.value.0.year < 10000
  {
    if p < |s| && IsDigit(s[p]) then
      var a := p + DigitRun12(s, p);
      if a + 1 < |s| && s[a] == '/' && IsDigit(s[a + 1]) then
        var b := a + 1 + DigitRun12(s, a + 1);
        if b + 4 < |s| && s[b] == '/' && AllDigits(s[b + 1..b + 5]) then
          DigitsValueBound(s[p..a]);
          DigitsValueBound(s[a + 1..b]);
          DigitsValueBound(s[b + 1..b + 5]);
          Some((MonthDayYear(DigitsValue(s[p..a]), DigitsValue(s[a + 1..b]), DigitsValue(s[b + 1..b + 5])), b + 5))
        else None
      else None
    else None
  }

  /** MDY_RX at `p`: the date with `\b` at both ends. */
  function MdyRxAt(s: string, p: nat): (r: Option<MonthDayYear>)
    requires p <= |s|
  {
    match DateAt(s, p)
    case Some((f, e)) => if BoundaryBefore(s, p) && BoundaryAfter(s, e) then Some(f) else None
    case None => None
  }

  /** Leftmost MDY_RX match at or after `p`. */
  function FirstMdy(s: string, p: nat): (r: Option<MonthDayYear>)
    requires p <= |s|
    ensures r.None? ==> forall q :: p <= q <= |s| ==> MdyRxAt(s, q).None?
    decreases |s| - p
  {
    if MdyRxAt(s, p).Some? then MdyRxAt(s, p)
    else if p == |s| then None
    else FirstMdy(s, p + 1)
  }

  /** A date found is the `MDY_RX` match at some position `q`, and no earlier position matches. */
  lemma {:induction false} FirstMdyFirst(s: string, p: nat) returns (q: nat)
    requires p <= |s|
    ensures FirstMdy(s, p).Some? ==>
      && p <= q <= |s| && MdyRxAt(s, q) == FirstMdy(s, p)
      && forall q' :: p <= q' < q ==> MdyRxAt(s, q').None?
    decreases |s| - p
  {
    q := p;
    if MdyRxAt(s, p).None? && p < |s| {
      q := FirstMdyFirst(s, p + 1);
    }
  }

  /** content.js `parseMDY`: the fields of the first M/D/YYYY date in `s`. */
  function ParseMDY(s: string): (r: Option<MonthDayYear>) {
    FirstMdy(s, 0)
  }

  /** `MDY_RX.test(s)`. */
  predicate HasMdy(s: string) {
    ParseMDY(s).Some?
  }

  /**
   * The shape of an M/D/YYYY date at `p` whose month field ends at `a` and
   * whose day field ends at `b`.
   */
  predicate DateShapeAt(s: string, p: nat, a: nat, b: nat) {
    && p < a <= p + 2 && a + 1 < b <= a + 3 && b + 5 <= |s|
    && (forall k :: p <= k < a ==> IsDigit(s[k]))
    && s[a] == '/'
    && (forall k :: a < k < b ==> IsDigit(s[k]))
    && s[b] == '/'
    && (forall k :: b < k < b + 5 ==> IsDigit(s[k]))
  }

  /** A date of that shape is matched at `p`, with its three fields. */
  lemma DateAtWhole(s: string, p: nat, a: nat, b: nat)
    requires DateShapeAt(s, p, a, b)
    ensures AllDigits(s[p..a]) && AllDigits(s[a + 1..b]) && AllDigits(s[b + 1..b + 5])
    ensures DateAt(s, p) == Some((MonthDayYear(DigitsValue(s[p..a]), DigitsValue(s[a + 1..b]), DigitsValue(s[b + 1..b + 5])), b + 5))
  {
    assert DigitRun12(s, p) == a - p;
    assert DigitRun12(s, a + 1) == b - a - 1;
  }

  /** Conversely, a date match has that shape. */
  lemma DateAtShape(s: string, p: nat) returns (a: nat, b: nat)
    requires p <= |s| && DateAt(s, p).Some?
    ensures DateShapeAt(s, p, a, b) && DateAt(s, p).value.1 == b + 5
  {
    a := p + DigitRun12(s, p);
    b := a + 1 + DigitRun12(s, a + 1);
    assert forall k :: b < k < b + 5 ==> s[k] == s[b + 1..b + 5][k - b - 1];
  }

  /** The shape only looks at the characters of the match. */
  lemma DateShapeSlice(s: string, p: nat, a: nat, b: nat)
    requires DateShapeAt(s, p, a, b)
    ensures DateShapeAt(s[p..b + 5], 0, a - p, b - p)
    ensures s[p..b + 5][..a - p] == s[p..a]
    ensures s[p..b + 5][a - p + 1..b - p] == s[a + 1..b]
    ensures s[p..b + 5][b - p + 1..b - p + 5] == s[b + 1..b + 5]
  {
    var x := s[p..b + 5];
    assert forall k :: 0 <= k < |x| ==> x[k] == s[p + k];
  }

  /** A string that is one whole date is read by `parseMDY` as that date. */
  lemma ParseMDYWhole(x: string, a: nat, b: nat)
    requires DateShapeAt(x, 0, a, b) && |x| == b + 5
    ensures ParseMDY(x) == Some(DateAt(x, 0).value.0)
  {
    DateAtWhole(x, 0, a, b);
  }

  /** A date captured by the date-range pattern is read back by `parseMDY` with the same fields. */
  lemma DateCaptureParses(s: string, p: nat)
    requires p <= |s| && DateAt(s, p).Some?
    ensures ParseMDY(s[p..DateAt(s, p).value.1]) == Some(DateAt(s, p).value.0)
  {
    var a, b := DateAtShape(s, p);
    DateShapeSlice(s, p, a, b);
    var x := s[p..b + 5];
    DateAtWhole(s, p, a, b);
    DateAtWhole(x, 0, a - p, b - p);
    ParseMDYWhole(x, a - p, b - p);
  }

  /** `parseMDY` reads back a date written as M/D/YYYY (month and day unpadded, below 100). */
  lemma ParseMDYReads(month: nat, day: nat, year: nat)
    requires month < 100 && day < 100 && 1000 <= year < 10000
    ensures ParseMDY(NatToString(month) + "/" + NatToString(day) + "/" + NatToString(year))
         == Some(MonthDayYear(month, day, year))
  {
    var m, d, y := NatToString(month), NatToString(day), NatToString(year);
    NatToStringLength(month);
    NatToStringLength(day);
    NatToStringLength(year);
    NatToStringRoundTrip(month);
    NatToStringRoundTrip(day);
    NatToStringRoundTrip(year);
    ParseMDYPieces(m, d, y);
  }

  /** A date written as digits, `/`, digits, `/`, four digits parses to the values of the three runs. */
  lemma ParseMDYPieces(m: string, d: string, y: string)
    requires 1 <= |m| <= 2 && 1 <= |d| <= 2 && |y| == 4
    requires AllDigits(m) && AllDigits(d) && AllDigits(y)
    ensures ParseMDY(m + "/" + d + "/" + y) == Some(MonthDayYear(DigitsValue(m), DigitsValue(d), DigitsValue(y)))
  {
    DatePieces(m, d, y);
    ParseMDYSlices(m + "/" + d + "/" + y, |m|, |m| + 1 + |d|);
  }

  lemma ParseMDYSlices(x: string, a: nat, b: nat)
    requires DateShapeAt(x, 0, a, b) && |x| == b + 5
    ensures ParseMDY(x) == Some(MonthDayYear(DigitsValue(x[..a]), DigitsValue(x[a + 1..b]), DigitsValue(x[b + 1..b + 5])))
  {
    ParseMDYWhole(x, a, b);
    DateAtWhole(x, 0, a, b);
    assert x[0..a] == x[..a];
  }

  /** Where the fields of a date written out sit in the text. */
  lemma DatePieces(m: string, d: string, y: string)
    requires 1 <= |m| <= 2 && 1 <= |d| <= 2 && |y| == 4
    requires AllDigits(m) && AllDigits(d) && AllDigits(y)
    ensures var x, a, b := m + "/" + d + "/" + y, |m|, |m| + 1 + |d|;
      && DateShapeAt(x, 0, a, b) && |x| == b + 5
      && x[..a] == m && x[a + 1..b] == d && x[b + 1..b + 5] == y
  {
    var x, a, b := m + "/" + d + "/" + y, |m|, |m| + 1 + |d|;
    assert x[..a] == m;
    assert x[a + 1..b] == d;
    assert x[b + 1..b + 5] == y;
  }

  /** Start and end of the two captured dates of one date-range match. */
  datatype DateRangeMatch = DateRangeMatch(start: nat, end1: nat, start2: nat, end: nat)

  /** `(\d{1,2}\/\d{1,2}\/\d{4})\s*[-–]\s*(\d{1,2}\/\d{1,2}\/\d{4})` at `p`. */
  function DateRangeAt(s: string, p: nat): (r: Option<DateRangeMatch>)
    requires p <= |s|
    ensures r.Some? ==> r.value.start == p < r.value.end1 < r.value.start2 < r.value.end <= |s|
    ensures r.Some? ==> DateAt(s, p).Some? && DateAt(s, p).value.1 == r.value.end1
    ensures r.Some? ==> DateAt(s, r.value.start2).Some? && DateAt(s, r.value.start2).value.1 == r.value.end
  {
    match DateAt(s, p)
    case None => None
    case Some((_, e1)) =>
      var w := SkipSpaces(s, e1);
      if w < |s| && IsDash(s[w]) then
        var p2 := SkipSpaces(s, w + 1);
        match DateAt(s, p2)
        case None => None
        case Some((_, e2)) => Some(DateRangeMatch(p, e1, p2, e2))
      else None
  }

  /** Leftmost date-range match at or after `p`. */
  function FirstDateRange(s: string, p: nat): (r: Option<DateRangeMatch>)
    requires p <= |s|
    ensures r.Some? ==> p <= r.value.start <= |s| && DateRangeAt(s, r.value.start) == r
    ensures r.None? ==> forall q :: p <= q <= |s| ==> DateRangeAt(s, q).None?
    decreases |s| - p
  {
    if DateRangeAt(s, p).Some? then DateRangeAt(s, p)
    else if p == |s| then None
    else FirstDateRange(s, p + 1)
  }
}
