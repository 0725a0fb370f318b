/**
 * content.js `splitChunks` and `parseMeetingPattern`: a Workday "Meeting
 * Patterns" cell such as "MWF | 12:05 PM - 12:55 PM | Howe Hall 1244" read
 * into its days, start and end time, location and optional date range.
 */
module Meeting {
  import opened Wrappers
  import opened Text
  import opened Tokens
  import opened Days
  import opened Dates

  const Bullet: char := '\U{2022}'
  const MiddleDot: char := '\U{00B7}'

  /** The two separator patterns the source splits on. */
  datatype Splitter =
    | ChunkSplitter   // `/\n|;|•|·|\s*\|\s*/g` of `splitChunks`
    | BulletSplitter  // `/•|•|·|\s\|\s/` of the free-form location

  /**
   * End of the separator match that starts at `p`, if one does. The
   * alternatives are tried in order, so a line feed is a separator on its
   * own; `\s*\|\s*` takes a whole whitespace run, and only when a `|` ends it.
   */
  function SeparatorAt(k: Splitter, t: string, p: nat): (r: Option<nat>)
    requires p < |t|
    ensures r.Some? ==> p < r.value <= |t|
  {
    match k
    case ChunkSplitter =>
      if t[p] == '\n' || t[p] == ';' || t[p] == Bullet || t[p] == MiddleDot then Some(p + 1)
      else
        var w := SkipSpaces(t, p);
        if w < |t| && t[w] == '|' then Some(SkipSpaces(t, w + 1)) else None
    case BulletSplitter =>
      if t[p] == Bullet || t[p] == MiddleDot then Some(p + 1)
      else if p + 2 < |t| && IsSpace(t[p]) && t[p + 1] == '|' && IsSpace(t[p + 2]) then Some(p + 3)
      else None
  }

  /** `String.prototype.split` by a pattern: the piece that began at `start`, scanned up to `q`, and the rest. */
  function Pieces(k: Splitter, t: string, start: nat, q: nat): (r: seq<string>)
    requires start <= q <= |t|
    ensures |r| >= 1
    decreases |t| - q
  {
    if q == |t| then [t[start..]]
    else match SeparatorAt(k, t, q)
      case Some(e) => [t[start..q]] + Pieces(k, t, e, e)
      case None => Pieces(k, t, start, q + 1)
  }

  function Split(k: Splitter, t: string): (r: seq<string>)
    ensures |r| >= 1
  {
    Pieces(k, t, 0, 0)
  }

  /** `.map(s)` */
  function MapNormalize(xs: seq<string>): (r: seq<string>)
    ensures |r| == |xs| && forall i :: 0 <= i < |xs| ==> r[i] == Normalize(xs[i])
  {
    seq(|xs|, i requires 0 <= i < |xs| => Normalize(xs[i]))
  }

  /** `.filter(Boolean)` on strings: the non-empty ones, in order. */
  function NonEmpty(xs: seq<string>): (r: seq<string>)
    ensures |r| <= |xs|
    ensures forall i :: 0 <= i < |r| ==> r[i] != [] && r[i] in xs
    ensures forall x :: x in xs && x != [] ==> x in r
  {
    if xs == [] then [] else (if xs[0] == [] then [] else [xs[0]]) + NonEmpty(xs[1..])
  }

  /** content.js `splitChunks`. */
  function SplitChunks(text: string): (r: seq<string>) {
    NonEmpty(MapNormalize(Split(ChunkSplitter, text)))
  }

  /** The characters at every occurrence of which `k` splits. */
  predicate SplitsOn(k: Splitter, c: char) {
    c == Bullet || c == MiddleDot || (k == ChunkSplitter && (c == '\n' || c == ';' || c == '|'))
  }

  lemma SeparatorCharSplits(k: Splitter, t: string, p: nat)
    requires p < |t| && SplitsOn(k, t[p])
    ensures SeparatorAt(k, t, p).Some?
  {
    if k == ChunkSplitter && t[p] == '|' {
      assert SkipSpaces(t, p) == p;
    }
  }

  lemma {:induction false} PiecesAvoid(k: Splitter, t: string, start: nat, q: nat, c: char)
    requires start <= q <= |t| && SplitsOn(k, c)
    requires forall j :: start <= j < q ==> t[j] != c
    ensures forall i :: 0 <= i < |Pieces(k, t, start, q)| ==> c !in Pieces(k, t, start, q)[i]
    decreases |t| - q
  {
    if q == |t| {
      assert forall j :: 0 <= j < |t[start..]| ==> t[start..][j] == t[start + j];
    } else {
      match SeparatorAt(k, t, q)
      case Some(e) =>
        PiecesAvoid(k, t, e, e, c);
        assert forall j :: 0 <= j < |t[start..q]| ==> t[start..q][j] == t[start + j];
      case None =>
        if t[q] == c { SeparatorCharSplits(k, t, q); }
        PiecesAvoid(k, t, start, q + 1, c);
    }
  }

  /** No piece of a split holds a character the pattern splits at. */
  lemma SplitAvoids(k: Splitter, t: string, c: char)
    requires SplitsOn(k, c)
    ensures forall i :: 0 <= i < |Split(k, t)| ==> c !in Split(k, t)[i]
  {
    PiecesAvoid(k, t, 0, 0, c);
  }

  /**
   * Every chunk is non-empty, in the normal form of `s`, and holds none of
   * the separators (line feed, `;`, `•`, `·`, `|`).
   */
  lemma SplitChunksClean(text: string)
    ensures forall i :: 0 <= i < |SplitChunks(text)| ==>
      && SplitChunks(text)[i] != []
      && IsNormalized(SplitChunks(text)[i])
      && forall c :: SplitsOn(ChunkSplitter, c) ==> c !in SplitChunks(text)[i]
  {
    var pieces := Split(ChunkSplitter, text);
    var normal := MapNormalize(pieces);
    forall i | 0 <= i < |SplitChunks(text)|
      ensures IsNormalized(SplitChunks(text)[i])
      ensures forall c :: SplitsOn(ChunkSplitter, c) ==> c !in SplitChunks(text)[i]
    {
      var x := SplitChunks(text)[i];
      var j :| 0 <= j < |normal| && normal[j] == x;
      NormalizeShape(pieces[j]);
      forall c | SplitsOn(ChunkSplitter, c) ensures c !in x {
        SplitAvoids(ChunkSplitter, text, c);
        NormalizeKeepsOut(pieces[j], c);
      }
    }
  }

  // ----- the chunks are the text's segments between separators -----

  /** `a` ends in a character that can neither start nor extend a `\s*\|\s*` separator. */
  predicate EndsClean(a: string) {
    a != [] ==> !IsSpace(a[|a| - 1]) && a[|a| - 1] != '|'
  }

  /** No separator match in `a` can read on into `x`. */
  predicate JoinClean(a: string, x: string) {
    EndsClean(a) || (x != [] && !IsSpace(x[0]) && x[0] != '|')
  }

  /**
   * Text without separators is one chunk, its normal form, unless that is
   * empty.
   */
  lemma SplitChunksNoSeparator(text: string)
    requires forall i :: 0 <= i < |text| ==> !SplitsOn(ChunkSplitter, text[i])
    ensures SplitChunks(text) == if Normalize(text) == [] then [] else [Normalize(text)]
  {
    PiecesWhole(text, 0);
    assert text[0..] == text;
  }

  lemma {:induction false} PiecesWhole(t: string, q: nat)
    requires q <= |t|
    requires forall i :: 0 <= i < |t| ==> !SplitsOn(ChunkSplitter, t[i])
    ensures Pieces(ChunkSplitter, t, 0, q) == [t[0..]]
    decreases |t| - q
  {
    if q < |t| {
      var w := SkipSpaces(t, q);
      assert w < |t| ==> t[w] != '|';
      PiecesWhole(t, q + 1);
    }
  }

  /**
   * Splitting at a separator: when `sep` is exactly the separator match at
   * the start of `sep + b`, and no match in `a` reads past its end, the
   * chunks of `a + sep + b` are the chunks of `a` followed by those of `b`.
   */
  lemma SplitChunksJoin(a: string, sep: string, b: string)
    requires sep != [] && SeparatorAt(ChunkSplitter, sep + b, 0) == Some(|sep|)
    requires JoinClean(a, sep + b)
    ensures SplitChunks(a + sep + b) == SplitChunks(a) + SplitChunks(b)
  {
    assert a + sep + b == a + (sep + b);
    PiecesPrefix(a, sep, b);
    MapNormalizeAppend(Split(ChunkSplitter, a), Split(ChunkSplitter, b));
    NonEmptyAppend(MapNormalize(Split(ChunkSplitter, a)), MapNormalize(Split(ChunkSplitter, b)));
  }

  /** A line feed, `;`, `•` or `·` separates the chunks before it from those after it. */
  lemma SplitChunksAtChar(a: string, c: char, b: string)
    requires c == '\n' || c == ';' || c == Bullet || c == MiddleDot
    requires c == '\n' ==> EndsClean(a)
    ensures SplitChunks(a + [c] + b) == SplitChunks(a) + SplitChunks(b)
  {
    assert ([c] + b)[0] == c;
    SplitChunksJoin(a, [c], b);
  }

  /** A `|` with whitespace around it separates the chunks before it from those after it. */
  lemma SplitChunksAtBar(a: string, w1: string, w2: string, b: string)
    requires EndsClean(a)
    requires forall i :: 0 <= i < |w1| ==> IsSpace(w1[i]) && w1[i] != '\n'
    requires forall i :: 0 <= i < |w2| ==> IsSpace(w2[i])
    requires b != [] ==> !IsSpace(b[0])
    ensures SplitChunks(a + w1 + "|" + w2 + b) == SplitChunks(a) + SplitChunks(b)
  {
    var sep := w1 + "|" + w2;
    BarSeparator(w1, w2, b);
    assert a + w1 + "|" + w2 + b == a + sep + b;
    SplitChunksJoin(a, sep, b);
  }

  /** A `|` with whitespace on either side, and no line feed before it, is one separator match. */
  lemma BarSeparator(w1: string, w2: string, b: string)
    requires forall i :: 0 <= i < |w1| ==> IsSpace(w1[i]) && w1[i] != '\n'
    requires forall i :: 0 <= i < |w2| ==> IsSpace(w2[i])
    requires b != [] ==> !IsSpace(b[0])
    ensures SeparatorAt(ChunkSplitter, w1 + "|" + w2 + b, 0) == Some(|w1| + 1 + |w2|)
  {
    var sep := w1 + "|" + w2;
    var x := sep + b;
    assert x == w1 + "|" + w2 + b;
    assert x[|w1|] == '|';
    assert forall i :: 0 <= i < |w1| ==> x[i] == w1[i];
    AllSpacesSkipped(x, 0, |w1|);
    assert forall i :: |w1| + 1 <= i < |sep| ==> x[i] == w2[i - |w1| - 1];
    assert |sep| < |x| ==> x[|sep|] == b[0];
    AllSpacesSkipped(x, |w1| + 1, |sep|);
    if w1 != [] {
      assert x[0] == w1[0];
      assert x[0] != Bullet && x[0] != MiddleDot;
    }
  }

  /** `x` is the text of `t` from `off` on. */
  predicate SuffixAt(t: string, off: nat, x: string) {
    off + |x| == |t| && forall i :: 0 <= i < |x| ==> t[off + i] == x[i]
  }

  /** Whitespace skipped inside a suffix is skipped the same in the whole text. */
  lemma {:induction false} SkipSpacesShift(t: string, off: nat, x: string, p: nat)
    requires SuffixAt(t, off, x) && p <= |x|
    ensures SkipSpaces(t, off + p) == off + SkipSpaces(x, p)
    decreases |x| - p
  {
    if p < |x| {
      assert t[off + p] == x[p];
      SkipSpacesShift(t, off, x, p + 1);
    }
  }

  /** Whitespace skipped in a prefix continues into the rest only when it reaches the prefix's end. */
  lemma {:induction false} SkipSpacesPrefix(a: string, x: string, p: nat)
    requires p <= |a|
    ensures SkipSpaces(a, p) < |a| ==> SkipSpaces(a + x, p) == SkipSpaces(a, p)
    ensures SkipSpaces(a, p) == |a| ==> SkipSpaces(a + x, p) == |a| + SkipSpaces(x, 0)
    decreases |a| - p
  {
    if p < |a| {
      assert (a + x)[p] == a[p];
      SkipSpacesPrefix(a, x, p + 1);
    } else {
      assert SuffixAt(a + x, |a|, x);
      SkipSpacesShift(a + x, |a|, x, 0);
    }
  }

  /** A separator match inside a suffix is the same match in the whole text. */
  lemma SeparatorShift(k: Splitter, t: string, off: nat, x: string, p: nat)
    requires SuffixAt(t, off, x) && p < |x|
    ensures SeparatorAt(k, t, off + p) == Shifted(SeparatorAt(k, x, p), off)
  {
    assert t[off + p] == x[p];
    if k == BulletSplitter {
      if p + 2 < |x| {
        assert t[off + p + 1] == x[p + 1] && t[off + p + 2] == x[p + 2];
      }
    } else {
      BarShift(t, off, x, p);
    }
  }

  /** The `\s*\|\s*` part of the chunk separator, inside a suffix. */
  lemma BarShift(t: string, off: nat, x: string, p: nat)
    requires SuffixAt(t, off, x) && p < |x|
    ensures var w := SkipSpaces(x, p);
      && SkipSpaces(t, off + p) == off + w
      && (w < |x| ==> t[off + w] == x[w] && SkipSpaces(t, off + w + 1) == off + SkipSpaces(x, w + 1))
  {
    var w := SkipSpaces(x, p);
    SkipSpacesShift(t, off, x, p);
    if w < |x| {
      assert t[off + w] == x[w];
      SkipSpacesShift(t, off, x, w + 1);
    }
  }

  /** A separator match inside `a` is not changed by what follows `a`, given `JoinClean`. */
  lemma SeparatorPrefix(a: string, x: string, p: nat)
    requires p < |a| && JoinClean(a, x)
    ensures SeparatorAt(ChunkSplitter, a + x, p) == SeparatorAt(ChunkSplitter, a, p)
  {
    var t := a + x;
    assert t[p] == a[p];
    SkipSpacesPrefix(a, x, p);
    var w := SkipSpaces(a, p);
    if w < |a| {
      assert t[w] == a[w];
      SkipSpacesPrefix(a, x, w + 1);
      if a[w] == '|' && EndsClean(a) {
        assert w + 1 < |a| && !IsSpace(a[|a| - 1]);
      }
    } else if !EndsClean(a) {
      assert t[|a|] == x[0];
    }
  }

  function Shifted(r: Option<nat>, off: nat): Option<nat> {
    match r
    case Some(e) => Some(off + e)
    case None => None
  }

  /** `f` answers, for each position of `t`, where a separator starting there ends. */
  ghost predicate Matcher(f: nat -> Option<nat>, t: string) {
    forall p: nat :: f(p).Some? ==> p < f(p).value <= |t|
  }

  /** The separator matches of `k` in `t`, as a function of the position. */
  function SeparatorsOf(k: Splitter, t: string): (f: nat -> Option<nat>)
    ensures Matcher(f, t)
    ensures forall p: nat :: p < |t| ==> f(p) == SeparatorAt(k, t, p)
  {
    (p: nat) => if p < |t| then SeparatorAt(k, t, p) else None
  }

  /** `Pieces` with the separator matches given as a function. */
  function PiecesWith(f: nat -> Option<nat>, t: string, start: nat, q: nat): seq<string>
    requires Matcher(f, t) && start <= q <= |t|
    decreases |t| - q
  {
    if q == |t| then [t[start..]]
    else match f(q)
      case Some(e) => [t[start..q]] + PiecesWith(f, t, e, e)
      case None => PiecesWith(f, t, start, q + 1)
  }

  lemma {:induction false} PiecesAsWith(k: Splitter, t: string, s: nat, q: nat)
    requires s <= q <= |t|
    ensures Pieces(k, t, s, q) == PiecesWith(SeparatorsOf(k, t), t, s, q)
    decreases |t| - q
  {
    if q < |t| {
      var f := SeparatorsOf(k, t);
      assert f(q) == SeparatorAt(k, t, q);
      match SeparatorAt(k, t, q)
      case Some(e) => PiecesAsWith(k, t, e, e);
      case None => PiecesAsWith(k, t, s, q + 1);
    }
  }

  /** Two matchers that agree on a suffix, shifted, cut it into the same pieces. */
  lemma {:induction false} PiecesWithShift(f: nat -> Option<nat>, g: nat -> Option<nat>, t: string, off: nat, x: string, s: nat, q: nat)
    requires Matcher(f, t) && Matcher(g, x) && SuffixAt(t, off, x) && s <= q <= |x|
    requires forall p: nat :: q <= p < |x| ==> f(off + p) == Shifted(g(p), off)
    ensures PiecesWith(f, t, off + s, off + q) == PiecesWith(g, x, s, q)
    decreases |x| - q
  {
    if q == |x| {
      assert t[off + s..] == x[s..];
    } else if g(q).Some? {
      var e := g(q).value;
      assert f(off + q) == Some(off + e);
      PiecesWithShift(f, g, t, off, x, e, e);
      assert t[off + s..off + q] == x[s..q];
    } else {
      assert f(off + q) == None;
      PiecesWithShift(f, g, t, off, x, s, q + 1);
    }
  }

  /** The pieces of a suffix are the same in the whole text. */
  lemma PiecesShift(k: Splitter, t: string, off: nat, x: string)
    requires SuffixAt(t, off, x)
    ensures Pieces(k, t, off, off) == Split(k, x)
  {
    SeparatorsShift(k, t, off, x);
    PiecesAsWith(k, t, off, off);
    PiecesAsWith(k, x, 0, 0);
    PiecesWithShift(SeparatorsOf(k, t), SeparatorsOf(k, x), t, off, x, 0, 0);
  }

  lemma SeparatorsShift(k: Splitter, t: string, off: nat, x: string)
    requires SuffixAt(t, off, x)
    ensures forall p: nat :: 0 <= p < |x| ==> SeparatorsOf(k, t)(off + p) == Shifted(SeparatorsOf(k, x)(p), off)
  {
    var f, g := SeparatorsOf(k, t), SeparatorsOf(k, x);
    forall p: nat | 0 <= p < |x| ensures f(off + p) == Shifted(g(p), off) {
      SeparatorShift(k, t, off, x, p);
    }
  }

  /**
   * Two matchers that agree on a prefix `a` of `t`, the first matching from
   * `n == |a|` to `m`, cut `t` into the pieces of `a` and the pieces from `m`.
   */
  lemma {:induction false} PiecesWithJoin(f: nat -> Option<nat>, g: nat -> Option<nat>, t: string, a: string, m: nat, s: nat, q: nat)
    requires Matcher(f, t) && Matcher(g, a)
    requires |a| < m <= |t| && f(|a|) == Some(m) && forall i :: 0 <= i < |a| ==> t[i] == a[i]
    requires s <= q <= |a|
    requires forall p: nat :: q <= p < |a| ==> f(p) == g(p)
    ensures PiecesWith(f, t, s, q) == PiecesWith(g, a, s, q) + PiecesWith(f, t, m, m)
    decreases |a| - q
  {
    if q == |a| {
      assert t[s..q] == a[s..];
    } else if g(q).Some? {
      var e := g(q).value;
      assert f(q) == Some(e);
      PiecesWithJoin(f, g, t, a, m, e, e);
      assert t[s..q] == a[s..q];
    } else {
      assert f(q) == None;
      PiecesWithJoin(f, g, t, a, m, s, q + 1);
    }
  }

  /** The pieces of `a + sep + b` are those of `a`, then those of `b`. */
  lemma PiecesPrefix(a: string, sep: string, b: string)
    requires sep != [] && SeparatorAt(ChunkSplitter, sep + b, 0) == Some(|sep|)
    requires JoinClean(a, sep + b)
    ensures Split(ChunkSplitter, a + (sep + b)) == Split(ChunkSplitter, a) + Split(ChunkSplitter, b)
  {
    var t := a + (sep + b);
    var m := |a| + |sep|;
    var f, g := SeparatorsOf(ChunkSplitter, t), SeparatorsOf(ChunkSplitter, a);
    forall p: nat | 0 <= p < |a| ensures f(p) == g(p) {
      SeparatorPrefix(a, sep + b, p);
    }
    assert SuffixAt(t, |a|, sep + b);
    SeparatorShift(ChunkSplitter, t, |a|, sep + b, 0);
    assert f(|a|) == Some(m);
    PiecesWithJoin(f, g, t, a, m, 0, 0);
    PiecesAsWith(ChunkSplitter, t, 0, 0);
    PiecesAsWith(ChunkSplitter, a, 0, 0);
    PiecesAsWith(ChunkSplitter, t, m, m);
    assert SuffixAt(t, m, b);
    PiecesShift(ChunkSplitter, t, m, b);
  }

  lemma MapNormalizeAppend(xs: seq<string>, ys: seq<string>)
    ensures MapNormalize(xs + ys) == MapNormalize(xs) + MapNormalize(ys)
  {
  }

  lemma {:induction false} NonEmptyAppend(xs: seq<string>, ys: seq<string>)
    ensures NonEmpty(xs + ys) == NonEmpty(xs) + NonEmpty(ys)
    decreases |xs|
  {
    if xs != [] {
      assert (xs + ys)[0] == xs[0];
      assert (xs + ys)[1..] == xs[1..] + ys;
      NonEmptyAppend(xs[1..], ys);
    } else {
      assert xs + ys == ys;
    }
  }

  /** `xs.findIndex(test)`, searching from `i`. */
  function FindIndex(xs: seq<string>, i: nat, test: string -> bool): (r: Option<nat>)
    requires i <= |xs|
    ensures r.Some? ==> i <= r.value < |xs| && test(xs[r.value])
    ensures r.None? ==> forall j :: i <= j < |xs| ==> !test(xs[j])
    ensures r.Some? ==> forall j :: i <= j < r.value ==> !test(xs[j])
    decreases |xs| - i
  {
    if i == |xs| then None
    else if test(xs[i]) then Some(i)
    else FindIndex(xs, i + 1, test)
  }

  /** `xs.findIndex((p) => TIME_RX.test(p))`, searching from `i`. */
  function FindTimeRange(xs: seq<string>, i: nat): (r: Option<nat>)
    requires i <= |xs|
    ensures r.Some? ==> i <= r.value < |xs| && HasTimeRange(xs[r.value])
  {
    FindIndex(xs, i, HasTimeRange)
  }

  /** The index found is the first time chunk; without one, no chunk holds a time range. */
  lemma FindTimeRangeFirst(xs: seq<string>, i: nat)
    requires i <= |xs|
    ensures FindTimeRange(xs, i).None? ==> forall j :: i <= j < |xs| ==> !HasTimeRange(xs[j])
    ensures FindTimeRange(xs, i).Some? ==> forall j :: i <= j < FindTimeRange(xs, i).value ==> !HasTimeRange(xs[j])
  {
    var r := FindIndex(xs, i, HasTimeRange);
    assert FindTimeRange(xs, i) == r;
  }

  /** `xs.join(' ')` */
  function JoinSpace(xs: seq<string>): (r: string) {
    if xs == [] then "" else if |xs| == 1 then xs[0] else xs[0] + " " + JoinSpace(xs[1..])
  }

  /**
   * The two times of the leftmost time-range match in `x`; each capture is
   * upper-cased, has its whitespace collapsed and is read by `parseTime12h`.
   * There are either both times or neither, and each is the reading of the
   * captured text as it stands.
   */
  function CapturedTimes(x: string): (r: (Option<Time>, Option<Time>))
    ensures r.0.Some? <==> FirstRange(x, 0).Some?
    ensures r.1.Some? <==> FirstRange(x, 0).Some?
    ensures FirstRange(x, 0).Some? ==>
      var m := FirstRange(x, 0).value;
      r.0 == ParseTime12h(x[m.start..m.end1]) && r.1 == ParseTime12h(x[m.start2..m.end])
  {
    match FirstRange(x, 0)
    case None => (None, None)
    case Some(m) =>
      CaptureParses(x, m.start, m.end1);
      CaptureParses(x, m.start2, m.end);
      (ParseTime12h(CollapseSpaces(AsciiUpper(x[m.start..m.end1]))),
       ParseTime12h(CollapseSpaces(AsciiUpper(x[m.start2..m.end]))))
  }

  /**
   * The fallback for days glued to the time chunk: `s` of the text before
   * the first `\d{1,2}:\d{2}\s*[AP]M`, read by `parseDaysToken` when it is
   * not empty. (The source keeps its empty `days` when the parse is empty,
   * which is the same as taking the empty parse.)
   */
  function GluedDays(chunk: string): (r: seq<DayCode>) {
    var maybeDays := Normalize(chunk[..FirstTimeToken(chunk, 0)]);
    if maybeDays != [] then DayCodes(maybeDays) else []
  }

  predicate IsAsciiLetter(c: char) { 'a' <= c <= 'z' || 'A' <= c <= 'Z' }

  /** Length of the run of ASCII letters at `p`. */
  function LetterRun(s: string, p: nat): (n: nat)
    requires p <= |s|
    ensures p + n <= |s|
    ensures forall k :: p <= k < p + n ==> IsAsciiLetter(s[k])
    ensures p + n < |s| ==> !IsAsciiLetter(s[p + n])
    decreases |s| - p
  {
    if p < |s| && IsAsciiLetter(s[p]) then 1 + LetterRun(s, p + 1) else 0
  }

  /**
   * `/^([A-Za-z]{1,12})\s+\d{1,2}:/`: the letters opening the text when
   * whitespace and the hour of a time follow them. A run of more than 12
   * letters cannot match, since the 13th letter stands where `\s` must be.
   */
  function LeadingLetters(s: string): (r: Option<string>)
    ensures r.Some? ==> 1 <= |r.value| <= 12 && |r.value| <= |s| && r.value == s[..|r.value|]
    ensures r.Some? ==> forall k :: 0 <= k < |r.value| ==> IsAsciiLetter(r.value[k])
    ensures r.Some? ==> |r.value| == LetterRun(s, 0)
  {
    var n := LetterRun(s, 0);
    if 1 <= n <= 12 then
      var w := SkipSpaces(s, n);
      if n < w < |s| && IsDigit(s[w]) && w + DigitRun12(s, w) < |s| && s[w + DigitRun12(s, w)] == ':'
      then Some(s[..n])
      else None
    else None
  }

  /** `\s+\d{1,2}:` at `n`, its digits starting at `w`. */
  predicate GapThenHour(s: string, n: nat, w: nat) {
    && n < w < |s|
    && (forall k :: n <= k < w ==> IsSpace(s[k]))
    && IsDigit(s[w])
    && ((w + 1 < |s| && s[w + 1] == ':') || (w + 2 < |s| && IsDigit(s[w + 1]) && s[w + 2] == ':'))
  }

  /** The letters `s` opens with, when they are `n` (1 to 12) letters that the gap and an hour follow. */
  predicate LettersThenHour(s: string, n: nat, w: nat) {
    GapThenHour(s, n, w) && 1 <= n <= 12 && forall k :: 0 <= k < n ==> IsAsciiLetter(s[k])
  }

  /**
   * `LeadingLetters` finds letters exactly when the regex matches: some 1 to
   * 12 letters open the text and whitespace, one or two digits and `:`
   * follow them; the letters are then the whole run of letters.
   */
  lemma LeadingLettersMatch(s: string)
    ensures LeadingLetters(s).Some? <==> exists n: nat, w: nat :: LettersThenHour(s, n, w)
    ensures forall n: nat, w: nat :: LettersThenHour(s, n, w) ==> LeadingLetters(s) == Some(s[..n])
  {
    if LeadingLetters(s).Some? {
      var n := LetterRun(s, 0);
      LeadingLettersWitness(s);
      assert LettersThenHour(s, n, SkipSpaces(s, n));
    }
    forall n: nat, w: nat | LettersThenHour(s, n, w)
      ensures LeadingLetters(s) == Some(s[..n])
    {
      LeadingLettersFound(s, n, w);
    }
  }

  /** Letters found are followed by the gap and the hour, its digits where the gap ends. */
  lemma LeadingLettersWitness(s: string)
    requires LeadingLetters(s).Some?
    ensures LettersThenHour(s, LetterRun(s, 0), SkipSpaces(s, LetterRun(s, 0)))
  {
  }

  /** Any letters the regex matches are the ones `LeadingLetters` finds. */
  lemma LeadingLettersFound(s: string, n: nat, w: nat)
    requires LettersThenHour(s, n, w)
    ensures LeadingLetters(s) == Some(s[..n])
  {
    assert !IsAsciiLetter(s[n]) && !IsSpace(s[w]);
    LetterRunIs(s, 0, n);
    AllSpacesSkipped(s, n, w);
    var d := DigitRun12(s, w);
    assert w + d < |s| && s[w + d] == ':';
  }

  /** The letter run at `p` ends at the first non-letter. */
  lemma {:induction false} LetterRunIs(s: string, p: nat, e: nat)
    requires p <= e < |s| && !IsAsciiLetter(s[e])
    requires forall k :: p <= k < e ==> IsAsciiLetter(s[k])
    ensures LetterRun(s, p) == e - p
    decreases e - p
  {
    if p < e { LetterRunIs(s, p + 1, e); }
  }

  /**
   * The free-form location: `text` split on bullets and " | ", each piece
   * through `s`; the piece after the first one holding TIME_RX, when there
   * is such a piece and it is not empty.
   */
  function FreeFormLocation(text: string): (loc: string)
    ensures Bullet !in loc && MiddleDot !in loc
    ensures IsNormalized(loc)
  {
    var chunks := MapNormalize(Split(BulletSplitter, text));
    match FindTimeRange(chunks, 0)
    case Some(idx) =>
      if idx + 1 < |chunks| && chunks[idx + 1] != [] then
        var piece := Split(BulletSplitter, text)[idx + 1];
        SplitAvoids(BulletSplitter, text, Bullet);
        SplitAvoids(BulletSplitter, text, MiddleDot);
        NormalizeKeepsOut(piece, Bullet);
        NormalizeKeepsOut(piece, MiddleDot);
        NormalizeShape(piece);
        chunks[idx + 1]
      else ""
    case None => ""
  }

  /** Days, times and the location before its final `s`, from one of the two readings. */
  datatype Reading = Reading(days: seq<DayCode>, startTime: Option<Time>, endTime: Option<Time>, location: string)

  /** The reading when chunk `ti` is the first to hold TIME_RX. */
  function TimeChunkReading(parts: seq<string>, ti: nat): (r: Reading)
    requires ti < |parts|
    ensures r.startTime.Some? <==> r.endTime.Some?
  {
    var timeChunk := parts[ti];
    var times := CapturedTimes(timeChunk);
    var days := if ti >= 1 then DayCodes(parts[ti - 1]) else [];
    var days' := if days == [] then GluedDays(timeChunk) else days;
    Reading(days', times.0, times.1, JoinSpace(parts[ti + 1..]))
  }

  /** The reading when no chunk holds TIME_RX: the whole text, read free-form. */
  function FreeFormReading(text: string): (r: Reading)
    ensures r.startTime.Some? <==> r.endTime.Some?
  {
    var times := CapturedTimes(text);
    var days := match LeadingLetters(text) case Some(letters) => DayCodes(letters) case None => [];
    Reading(days, times.0, times.1, FreeFormLocation(text))
  }

  /** What `asLocalDate(y, m, d)` gives for the fields `parseMDY` returns. */
  function DayOf(f: MonthDayYear): (r: int) {
    LocalDate(f.year, f.month, f.day)
  }

  /**
   * The optional date range: the leftmost `M/D/YYYY - M/D/YYYY` of `text`;
   * each captured date goes through `parseMDY` and `asLocalDate`. There are
   * both dates or neither, and each is the date the match itself spells.
   */
  function DateRange(text: string): (r: (Option<int>, Option<int>))
    ensures r.0.Some? <==> FirstDateRange(text, 0).Some?
    ensures r.1.Some? <==> FirstDateRange(text, 0).Some?
    ensures FirstDateRange(text, 0).Some? ==>
      var dr := FirstDateRange(text, 0).value;
      r.0 == Some(DayOf(DateAt(text, dr.start).value.0)) && r.1 == Some(DayOf(DateAt(text, dr.start2).value.0))
  {
    match FirstDateRange(text, 0)
    case None => (None, None)
    case Some(dr) =>
      DateCaptureParses(text, dr.start);
      DateCaptureParses(text, dr.start2);
      var s1 := ParseMDY(text[dr.start..dr.end1]);
      var s2 := ParseMDY(text[dr.start2..dr.end]);
      (if s1.Some? then Some(DayOf(s1.value)) else None,
       if s2.Some? then Some(DayOf(s2.value)) else None)
  }

  /** The object `parseMeetingPattern` returns; dates are day numbers. */
  datatype MeetingPattern = MeetingPattern(
    days: seq<DayCode>,
    startTime: Option<Time>,
    endTime: Option<Time>,
    location: string,
    startDate: Option<int>,
    endDate: Option<int>)

  /** content.js `parseMeetingPattern`. */
  function ParseMeetingPattern(raw: string): (mp: MeetingPattern)
    ensures mp.startTime.Some? <==> mp.endTime.Some?
    ensures mp.startDate.Some? <==> mp.endDate.Some?
    ensures IsNormalized(mp.location)
  {
    var text := Normalize(raw);
    var parts := SplitChunks(text);
    var reading := match FindTimeRange(parts, 0)
      case Some(ti) => TimeChunkReading(parts, ti)
      case None => FreeFormReading(text);
    var dates := DateRange(text);
    NormalizeShape(reading.location);
    MeetingPattern(reading.days, reading.startTime, reading.endTime, Normalize(reading.location), dates.0, dates.1)
  }

  // ----- properties -----

  lemma JoinTwo(a: string, b: string)
    requires a != [] && IsNormalized(a) && b != [] && IsNormalized(b)
    ensures IsNormalized(a + " " + b)
  {
    var j := a + " " + b;
    assert forall k :: 0 <= k < |a| ==> j[k] == a[k];
    assert forall k :: 0 <= k < |b| ==> j[|a| + 1 + k] == b[k];
    forall k | 0 <= k < |j| - 1 ensures !(IsSpace(j[k]) && IsSpace(j[k + 1])) {
      if k >= |a| + 1 {
        assert j[k] == b[k - |a| - 1] && j[k + 1] == b[k - |a|];
      }
    }
    forall k | 0 <= k < |j| && IsSpace(j[k]) ensures j[k] == ' ' {
      if k > |a| { assert j[k] == b[k - |a| - 1]; }
    }
    assert j[|j| - 1] == b[|b| - 1];
  }

  /** Non-empty normalised strings joined by single spaces are again normalised. */
  lemma {:induction false} JoinNormalized(xs: seq<string>)
    requires forall i :: 0 <= i < |xs| ==> xs[i] != [] && IsNormalized(xs[i])
    ensures IsNormalized(JoinSpace(xs))
    ensures xs != [] ==> JoinSpace(xs) != []
  {
    if |xs| > 1 {
      assert forall i :: 0 <= i < |xs[1..]| ==> xs[1..][i] == xs[i + 1];
      JoinNormalized(xs[1..]);
      JoinTwo(xs[0], JoinSpace(xs[1..]));
    }
  }

  /** The join brings in no character but the space. */
  lemma {:induction false} JoinAvoids(xs: seq<string>, c: char)
    requires c != ' ' && forall i :: 0 <= i < |xs| ==> c !in xs[i]
    ensures c !in JoinSpace(xs)
  {
    if |xs| > 1 {
      assert forall i :: 0 <= i < |xs[1..]| ==> xs[1..][i] == xs[i + 1];
      JoinAvoids(xs[1..], c);
    }
  }

  lemma TimeChunkUnfold(raw: string, ti: nat)
    requires FindTimeRange(SplitChunks(Normalize(raw)), 0) == Some(ti)
    ensures var mp, r := ParseMeetingPattern(raw), TimeChunkReading(SplitChunks(Normalize(raw)), ti);
      mp.days == r.days && mp.startTime == r.startTime && mp.endTime == r.endTime
      && mp.location == Normalize(r.location)
  {
  }

  /**
   * When a chunk holds TIME_RX, the first such chunk gives the meeting both
   * times, each read from the captured text as it stands.
   */
  lemma TimeChunkTimes(raw: string, ti: nat)
    requires FindTimeRange(SplitChunks(Normalize(raw)), 0) == Some(ti)
    ensures var chunk, mp := SplitChunks(Normalize(raw))[ti], ParseMeetingPattern(raw);
      && FirstRange(chunk, 0).Some?
      && mp.startTime == ParseTime12h(chunk[FirstRange(chunk, 0).value.start..FirstRange(chunk, 0).value.end1])
      && mp.endTime == ParseTime12h(chunk[FirstRange(chunk, 0).value.start2..FirstRange(chunk, 0).value.end])
      && mp.startTime.Some? && mp.endTime.Some?
  {
    TimeRxGivesRange(SplitChunks(Normalize(raw))[ti]);
    TimeChunkUnfold(raw, ti);
  }

  /** Chunks joined by single spaces are normalised and hold no separator. */
  lemma JoinedChunksClean(text: string, from: nat)
    requires from <= |SplitChunks(text)|
    ensures IsNormalized(JoinSpace(SplitChunks(text)[from..]))
    ensures forall c :: SplitsOn(ChunkSplitter, c) ==> c !in JoinSpace(SplitChunks(text)[from..])
  {
    var parts := SplitChunks(text);
    var rest := parts[from..];
    SplitChunksClean(text);
    forall i | 0 <= i < |rest| ensures rest[i] != [] && IsNormalized(rest[i]) {
      assert rest[i] == parts[from + i];
    }
    JoinNormalized(rest);
    forall c | SplitsOn(ChunkSplitter, c) ensures c !in JoinSpace(rest) {
      forall i | 0 <= i < |rest| ensures c !in rest[i] {
        assert rest[i] == parts[from + i];
      }
      JoinAvoids(rest, c);
    }
  }

  /**
   * When chunk `ti` is the first to hold TIME_RX, the location is the chunks
   * after it joined by single spaces, exactly (the final `s` changes
   * nothing), and so holds no separator.
   */
  lemma TimeChunkLocation(raw: string, ti: nat)
    requires FindTimeRange(SplitChunks(Normalize(raw)), 0) == Some(ti)
    ensures var parts, mp := SplitChunks(Normalize(raw)), ParseMeetingPattern(raw);
      && mp.location == JoinSpace(parts[ti + 1..])
      && forall c :: SplitsOn(ChunkSplitter, c) ==> c !in mp.location
  {
    JoinedChunksClean(Normalize(raw), ti + 1);
    NormalizedFixed(JoinSpace(SplitChunks(Normalize(raw))[ti + 1..]));
    TimeChunkUnfold(raw, ti);
  }

  /**
   * When chunk `ti` is the first to hold TIME_RX, the days are those named
   * by chunk `ti - 1`; when there is no such chunk or it names none, they
   * are those spelled before the first time of chunk `ti` itself.
   */
  lemma TimeChunkDays(raw: string, ti: nat)
    requires FindTimeRange(SplitChunks(Normalize(raw)), 0) == Some(ti)
    ensures var parts, mp := SplitChunks(Normalize(raw)), ParseMeetingPattern(raw);
      && (ti >= 1 && DayCodes(parts[ti - 1]) != [] ==> mp.days == DayCodes(parts[ti - 1]))
      && (ti == 0 || DayCodes(parts[ti - 1]) == [] ==>
            mp.days == DayCodes(parts[ti][..FirstTimeToken(parts[ti], 0)]))
  {
    var parts := SplitChunks(Normalize(raw));
    var before := parts[ti][..FirstTimeToken(parts[ti], 0)];
    DayCodesIgnoreSpaces(before);
    if Normalize(before) == [] {
      assert RemoveSpaces([]) == [];
    }
    TimeChunkUnfold(raw, ti);
  }

  /**
   * When no chunk holds TIME_RX, the whole text is read free-form: the
   * times are those of the leftmost range anywhere in it, the days are
   * the letters opening the text when a time follows them, and the location
   * is the piece after the first bulleted piece that holds TIME_RX.
   */
  lemma FreeFormPattern(raw: string)
    requires FindTimeRange(SplitChunks(Normalize(raw)), 0).None?
    ensures var text := Normalize(raw);
      var mp := ParseMeetingPattern(raw);
      && (mp.startTime.Some? <==> FirstRange(text, 0).Some?)
      && (mp.endTime.Some? <==> FirstRange(text, 0).Some?)
      && (FirstRange(text, 0).Some? ==>
            var m := FirstRange(text, 0).value;
            mp.startTime == ParseTime12h(text[m.start..m.end1]) && mp.endTime == ParseTime12h(text[m.start2..m.end]))
      && (LeadingLetters(text).Some? ==> mp.days == DayCodes(LeadingLetters(text).value))
      && (LeadingLetters(text).None? ==> mp.days == [])
      && mp.location == FreeFormLocation(text)
      && Bullet !in mp.location && MiddleDot !in mp.location
  {
    NormalizedFixed(FreeFormLocation(Normalize(raw)));
  }
}
