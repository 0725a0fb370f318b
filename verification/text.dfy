/**
 * Text helpers of content.js: whitespace normalisation (`s`), the TEXT
 * escaping of section 3.3.11 of RFC 5545 (`icsEscape`) and decimal
 * rendering with `padStart(2, '0')`.
 */
module Text {

  const NBSP: char := '\U{00A0}'

  /** JavaScript's `\s` class: the WhiteSpace and LineTerminator code points. */
  predicate IsSpace(c: char) {
    c == '\t' || c == '\n' || c == '\U{000B}' || c == '\U{000C}' || c == '\r' || c == ' '
    || c == NBSP || c == '\U{1680}' || ('\U{2000}' <= c <= '\U{200A}')
    || c == '\U{2028}' || c == '\U{2029}' || c == '\U{202F}' || c == '\U{205F}'
    || c == '\U{3000}' || c == '\U{FEFF}'
  }

  /** Length of the whitespace run at the start of `x`. */
  function LeadingSpaces(x: string): (n: nat)
    ensures n <= |x|
    ensures forall i :: 0 <= i < n ==> IsSpace(x[i])
    ensures n < |x| ==> !IsSpace(x[n])
  {
    if x != [] && IsSpace(x[0]) then 1 + LeadingSpaces(x[1..]) else 0
  }

  /** Length of the whitespace run at the end of `x`. */
  function TrailingSpaces(x: string): (n: nat)
    ensures n <= |x|
    ensures forall i :: |x| - n <= i < |x| ==> IsSpace(x[i])
    ensures n < |x| ==> !IsSpace(x[|x| - 1 - n])
  {
    if x != [] && IsSpace(x[|x| - 1]) then 1 + TrailingSpaces(x[..|x| - 1]) else 0
  }

  /** `.replace(/ /g, ' ')` */
  function ReplaceNbsp(x: string): (r: string)
    ensures |r| == |x|
    ensures forall i :: 0 <= i < |x| ==> r[i] == (if x[i] == NBSP then ' ' else x[i])
  {
    seq(|x|, i requires 0 <= i < |x| => if x[i] == NBSP then ' ' else x[i])
  }

  /** Every whitespace character is a plain space and no two whitespace characters are adjacent. */
  predicate IsCollapsed(r: string) {
    && (forall i :: 0 <= i < |r| && IsSpace(r[i]) ==> r[i] == ' ')
    && (forall i :: 0 <= i < |r| - 1 ==> !(IsSpace(r[i]) && IsSpace(r[i + 1])))
  }

  /** The shape `s` produces: collapsed, and no whitespace at either end. */
  predicate IsNormalized(r: string) {
    IsCollapsed(r) && (r != [] ==> !IsSpace(r[0]) && !IsSpace(r[|r| - 1]))
  }

  /** `.replace(/\s+/g, ' ')`: each maximal whitespace run becomes one space. */
  function CollapseSpaces(x: string): (r: string)
    ensures |r| <= |x|
    ensures (r == []) == (x == [])
    ensures x != [] ==> r[0] == (if IsSpace(x[0]) then ' ' else x[0])
    decreases |x|
  {
    if x == [] then []
    else if IsSpace(x[0]) then [' '] + CollapseSpaces(x[LeadingSpaces(x)..])
    else [x[0]] + CollapseSpaces(x[1..])
  }

  /** After collapsing, whitespace is single plain spaces. */
  lemma {:induction false} CollapseShape(x: string)
    ensures IsCollapsed(CollapseSpaces(x))
    decreases |x|
  {
    if x != [] {
      var rest := if IsSpace(x[0]) then x[LeadingSpaces(x)..] else x[1..];
      CollapseShape(rest);
      var t := CollapseSpaces(rest);
      var r := CollapseSpaces(x);
      assert r == [r[0]] + t;
      assert forall i :: 1 <= i < |r| ==> r[i] == t[i - 1];
    }
  }

  /** A whitespace run cannot cross a non-space, so collapsing splits there. */
  lemma {:induction false} CollapseAppend(a: string, b: string)
    requires a != [] && !IsSpace(a[|a| - 1])
    ensures CollapseSpaces(a + b) == CollapseSpaces(a) + CollapseSpaces(b)
    decreases |a|
  {
    if IsSpace(a[0]) {
      var n := LeadingSpaces(a);
      LeadingSpacesAppend(a, b);
      CollapseAppend(a[n..], b);
      CollapseAppendRun(a, b);
    } else if |a| == 1 {
      CollapseAppendLast(a, b);
    } else {
      CollapseAppend(a[1..], b);
      CollapseAppendChar(a, b);
    }
  }

  /** The step of `CollapseAppend` past a leading whitespace run. */
  lemma CollapseAppendRun(a: string, b: string)
    requires a != [] && IsSpace(a[0]) && LeadingSpaces(a) < |a|
    requires (a + b)[LeadingSpaces(a)..] == a[LeadingSpaces(a)..] + b
    requires LeadingSpaces(a + b) == LeadingSpaces(a)
    requires CollapseSpaces(a[LeadingSpaces(a)..] + b) == CollapseSpaces(a[LeadingSpaces(a)..]) + CollapseSpaces(b)
    ensures CollapseSpaces(a + b) == CollapseSpaces(a) + CollapseSpaces(b)
  {
    assert (a + b)[0] == a[0];
  }

  /** The step of `CollapseAppend` past a leading non-space. */
  lemma CollapseAppendChar(a: string, b: string)
    requires |a| > 1 && !IsSpace(a[0])
    requires CollapseSpaces(a[1..] + b) == CollapseSpaces(a[1..]) + CollapseSpaces(b)
    ensures CollapseSpaces(a + b) == CollapseSpaces(a) + CollapseSpaces(b)
  {
    assert (a + b)[0] == a[0];
    assert (a + b)[1..] == a[1..] + b;
  }

  /** The last step of `CollapseAppend`: a single non-space. */
  lemma CollapseAppendLast(a: string, b: string)
    requires |a| == 1 && !IsSpace(a[0])
    ensures CollapseSpaces(a + b) == CollapseSpaces(a) + CollapseSpaces(b)
  {
    assert (a + b)[0] == a[0];
    assert (a + b)[1..] == b;
    assert CollapseSpaces(a) == [a[0]] + CollapseSpaces([]);
  }

  /** The leading whitespace of `a` is that of `a + b` when `a` ends in a non-space. */
  lemma LeadingSpacesAppend(a: string, b: string)
    requires a != [] && !IsSpace(a[|a| - 1])
    ensures LeadingSpaces(a) < |a|
    ensures LeadingSpaces(a + b) == LeadingSpaces(a)
    ensures (a + b)[LeadingSpaces(a)..] == a[LeadingSpaces(a)..] + b
  {
    var n := LeadingSpaces(a);
    var ab := a + b;
    assert n < |a|;
    assert forall i :: 0 <= i <= n ==> ab[i] == a[i];
    LeadingSpacesIs(ab, n);
    assert ab[n..] == a[n..] + b;
  }

  lemma {:induction false} LeadingSpacesIs(x: string, n: nat)
    requires n <= |x|
    requires forall i :: 0 <= i < n ==> IsSpace(x[i])
    requires n < |x| ==> !IsSpace(x[n])
    ensures LeadingSpaces(x) == n
    decreases n
  {
    if n > 0 { LeadingSpacesIs(x[1..], n - 1); }
  }

  /** A non-empty whitespace run followed by a non-space collapses to one space. */
  lemma CollapseRun(w: string, b: string)
    requires w != [] && forall i :: 0 <= i < |w| ==> IsSpace(w[i])
    requires b != [] && !IsSpace(b[0])
    ensures CollapseSpaces(w + b) == [' '] + CollapseSpaces(b)
  {
    var x := w + b;
    assert x[|w|] == b[0];
    LeadingSpacesIs(x, |w|);
    assert x[|w|..] == b;
  }

  /** Text without whitespace is left alone by collapsing. */
  lemma CollapseNoSpace(x: string)
    requires forall i :: 0 <= i < |x| ==> !IsSpace(x[i])
    ensures CollapseSpaces(x) == x
  {
    CollapsedFixed(x);
  }

  /** `String.prototype.trim`: drops whitespace at both ends. */
  function Trim(x: string): (r: string)
    ensures r != [] ==> !IsSpace(r[0]) && !IsSpace(r[|r| - 1])
  {
    var a := x[LeadingSpaces(x)..];
    a[..|a| - TrailingSpaces(a)]
  }

  /** content.js `s`: non-breaking spaces to spaces, whitespace runs to one space, trimmed. */
  function Normalize(x: string): (r: string)
  {
    Trim(CollapseSpaces(ReplaceNbsp(x)))
  }

  lemma SliceCollapsed(r: string, i: nat, j: nat)
    requires IsCollapsed(r) && i <= j <= |r|
    ensures IsCollapsed(r[i..j])
  {
    var t := r[i..j];
    assert forall k :: 0 <= k < |t| ==> t[k] == r[i + k];
  }

  /** The output of `s` has no U+00A0, no whitespace other than single inner spaces, and no space at either end. */
  lemma NormalizeShape(x: string)
    ensures IsNormalized(Normalize(x))
  {
    CollapseShape(ReplaceNbsp(x));
    TrimNormalized(CollapseSpaces(ReplaceNbsp(x)));
  }

  /** Trimming a collapsed text leaves it normalised. */
  lemma TrimNormalized(c: string)
    requires IsCollapsed(c)
    ensures IsNormalized(Trim(c))
  {
    var n := LeadingSpaces(c);
    var a := c[n..];
    var k := |a| - TrailingSpaces(a);
    assert a == c[n..|c|];
    SliceCollapsed(c, n, |c|);
    assert Trim(c) == a[0..k];
    SliceCollapsed(a, 0, k);
  }

  lemma {:induction false} CollapsedFixed(r: string)
    requires IsCollapsed(r)
    ensures CollapseSpaces(r) == r
    decreases |r|
  {
    if r != [] {
      SliceCollapsed(r, 1, |r|);
      if IsSpace(r[0]) {
        assert LeadingSpaces(r) == 1 by {
          if |r| > 1 { assert !IsSpace(r[1]); }
        }
      }
      CollapsedFixed(r[1..]);
    }
  }

  /** A normalised string is a fixed point of `s`. */
  lemma NormalizedFixed(r: string)
    requires IsNormalized(r)
    ensures Normalize(r) == r
  {
    assert ReplaceNbsp(r) == r;
    CollapsedFixed(r);
    assert LeadingSpaces(r) == 0;
    assert TrailingSpaces(r) == 0;
  }

  /** `s` is idempotent. */
  lemma NormalizeIdempotent(x: string)
    ensures Normalize(Normalize(x)) == Normalize(x)
  {
    NormalizeShape(x);
    NormalizedFixed(Normalize(x));
  }

  /**
   * A whitespace run between two words becomes exactly one space: it
   * neither vanishes nor survives as it was.
   */
  lemma NormalizeJoin(a: string, w: string, b: string)
    requires a != [] && IsNormalized(a)
    requires b != [] && IsNormalized(b)
    requires w != [] && forall i :: 0 <= i < |w| ==> IsSpace(w[i])
    ensures Normalize(a + w + b) == a + " " + b
  {
    var w' := ReplaceNbsp(w);
    NbspJoin(a, w, b);
    CollapseJoin(a, w', b);
    TrimmedFixed(a + " " + b);
  }

  /** Only the gap of a join of two normalised texts has non-breaking spaces to replace. */
  lemma NbspJoin(a: string, w: string, b: string)
    requires IsNormalized(a) && IsNormalized(b)
    ensures ReplaceNbsp(a + w + b) == a + (ReplaceNbsp(w) + b)
  {
    NormalizedNoBreaks(a);
    NormalizedNoBreaks(b);
    var x := a + w + b;
    var y := a + (ReplaceNbsp(w) + b);
    assert |ReplaceNbsp(x)| == |y|;
    forall i | 0 <= i < |x| ensures ReplaceNbsp(x)[i] == y[i] {
      if i < |a| {
        assert x[i] == a[i] && a[i] in a;
      } else if i >= |a| + |w| {
        assert x[i] == b[i - |a| - |w|] && b[i - |a| - |w|] in b;
      }
    }
  }

  /** Collapsing a whitespace gap between two collapsed words leaves one space. */
  lemma CollapseJoin(a: string, w: string, b: string)
    requires a != [] && IsNormalized(a)
    requires b != [] && IsNormalized(b)
    requires w != [] && forall i :: 0 <= i < |w| ==> IsSpace(w[i])
    ensures CollapseSpaces(a + (w + b)) == a + " " + b
  {
    CollapseAppend(a, w + b);
    CollapseRun(w, b);
    CollapsedFixed(a);
    CollapsedFixed(b);
  }

  /** Text with no whitespace at either end is left alone by trimming. */
  lemma TrimmedFixed(x: string)
    requires x != [] && !IsSpace(x[0]) && !IsSpace(x[|x| - 1])
    ensures Trim(x) == x
  {
    LeadingSpacesIs(x, 0);
    assert TrailingSpaces(x) == 0;
  }

  /** A normalised string holds no line break: whitespace in it is only ' '. */
  lemma NormalizedNoBreaks(r: string)
    requires IsNormalized(r)
    ensures '\n' !in r && '\r' !in r && NBSP !in r
  {
    if '\n' in r { var i :| 0 <= i < |r| && r[i] == '\n'; assert IsSpace(r[i]); }
    if '\r' in r { var i :| 0 <= i < |r| && r[i] == '\r'; assert IsSpace(r[i]); }
    if NBSP in r { var i :| 0 <= i < |r| && r[i] == NBSP; assert IsSpace(r[i]); }
  }

  lemma {:induction false} CollapseKeepsOut(x: string, c: char)
    requires c != ' ' && c !in x
    ensures c !in CollapseSpaces(x)
    decreases |x|
  {
    if x != [] {
      var n := if IsSpace(x[0]) then LeadingSpaces(x) else 1;
      assert forall d :: d in x[n..] ==> d in x;
      CollapseKeepsOut(x[n..], c);
    }
  }

  /** `s` brings in no character other than the space: what is absent from its input stays absent. */
  lemma NormalizeKeepsOut(x: string, c: char)
    requires c != ' ' && c !in x
    ensures c !in Normalize(x)
  {
    var r := ReplaceNbsp(x);
    assert forall i :: 0 <= i < |r| ==> r[i] != c by {
      forall i | 0 <= i < |r| ensures r[i] != c { assert x[i] in x; }
    }
    CollapseKeepsOut(r, c);
    var col := CollapseSpaces(r);
    var a := col[LeadingSpaces(col)..];
    assert forall d :: d in a ==> d in col;
    assert forall d :: d in a[..|a| - TrailingSpaces(a)] ==> d in a;
  }

  // ----- whitespace removal (`.replace(/\s+/g, '')`) -----

  function RemoveSpaces(x: string): (r: string)
    ensures |r| <= |x|
  {
    if x == [] then [] else (if IsSpace(x[0]) then [] else [x[0]]) + RemoveSpaces(x[1..])
  }

  /** Removal keeps only non-space characters of the input. */
  lemma {:induction false} RemoveSpacesChars(x: string)
    ensures forall c :: c in RemoveSpaces(x) ==> c in x && !IsSpace(c)
    decreases |x|
  {
    if x != [] {
      RemoveSpacesChars(x[1..]);
      assert forall c :: c in x[1..] ==> c in x;
    }
  }

  lemma {:induction false} RemoveSpacesAppend(a: string, b: string)
    ensures RemoveSpaces(a + b) == RemoveSpaces(a) + RemoveSpaces(b)
    decreases |a|
  {
    if a == [] {
      assert a + b == b;
    } else {
      assert (a + b)[0] == a[0] && (a + b)[1..] == a[1..] + b;
      RemoveSpacesAppend(a[1..], b);
    }
  }

  /** Every character of `x` is whitespace. */
  predicate AllSpace(x: string) {
    forall i :: 0 <= i < |x| ==> IsSpace(x[i])
  }

  lemma {:induction false} RemoveSpacesAllSpace(x: string)
    requires AllSpace(x)
    ensures RemoveSpaces(x) == []
    decreases |x|
  {
    if x != [] { RemoveSpacesAllSpace(x[1..]); }
  }

  lemma {:induction false} RemoveSpacesNbsp(x: string)
    ensures RemoveSpaces(ReplaceNbsp(x)) == RemoveSpaces(x)
    decreases |x|
  {
    if x != [] {
      assert ReplaceNbsp(x)[1..] == ReplaceNbsp(x[1..]);
      RemoveSpacesNbsp(x[1..]);
    }
  }

  lemma {:induction false} RemoveSpacesCollapse(x: string)
    ensures RemoveSpaces(CollapseSpaces(x)) == RemoveSpaces(x)
    decreases |x|
  {
    if x != [] {
      if IsSpace(x[0]) {
        var n := LeadingSpaces(x);
        assert x == x[..n] + x[n..];
        RemoveSpacesAppend(x[..n], x[n..]);
        RemoveSpacesAllSpace(x[..n]);
        RemoveSpacesAppend([' '], CollapseSpaces(x[n..]));
        RemoveSpacesCollapse(x[n..]);
      } else {
        RemoveSpacesAppend([x[0]], CollapseSpaces(x[1..]));
        RemoveSpacesCollapse(x[1..]);
      }
    }
  }

  /** Whitespace in front of or behind `a` does not change what removal leaves. */
  lemma RemoveSpacesAround(w: string, a: string, v: string)
    requires AllSpace(w) && AllSpace(v)
    ensures RemoveSpaces(w + a + v) == RemoveSpaces(a)
  {
    RemoveSpacesAppend(w + a, v);
    RemoveSpacesAppend(w, a);
    RemoveSpacesAllSpace(w);
    RemoveSpacesAllSpace(v);
  }

  lemma RemoveSpacesTrim(x: string)
    ensures RemoveSpaces(Trim(x)) == RemoveSpaces(x)
  {
    var n := LeadingSpaces(x);
    var a := x[n..];
    var m := n + |a| - TrailingSpaces(a);
    assert Trim(x) == x[n..m];
    assert forall i :: m <= i < |x| ==> x[i] == a[i - n];
    RemoveSpacesCut(x, n, m);
  }

  /** Cutting whitespace-only ends off `x` leaves the same non-blank characters. */
  lemma RemoveSpacesCut(x: string, n: nat, m: nat)
    requires n <= m <= |x|
    requires forall i :: 0 <= i < n ==> IsSpace(x[i])
    requires forall i :: m <= i < |x| ==> IsSpace(x[i])
    ensures RemoveSpaces(x[n..m]) == RemoveSpaces(x)
  {
    SliceJoin(x, n, m);
    AllSpaceEnds(x, n, m);
    RemoveSpacesAround(x[..n], x[n..m], x[m..]);
  }

  lemma SliceJoin(x: string, n: nat, m: nat)
    requires n <= m <= |x|
    ensures x == x[..n] + x[n..m] + x[m..]
  {
  }

  lemma AllSpaceEnds(x: string, n: nat, m: nat)
    requires n <= m <= |x|
    requires forall i :: 0 <= i < n ==> IsSpace(x[i])
    requires forall i :: m <= i < |x| ==> IsSpace(x[i])
    ensures AllSpace(x[..n]) && AllSpace(x[m..])
  {
    assert forall i :: 0 <= i < |x| - m ==> x[m..][i] == x[m + i];
  }

  /** Removing whitespace after `s` is the same as removing it from the raw text. */
  lemma RemoveSpacesNormalize(x: string)
    ensures RemoveSpaces(Normalize(x)) == RemoveSpaces(x)
  {
    RemoveSpacesTrim(CollapseSpaces(ReplaceNbsp(x)));
    RemoveSpacesCollapse(ReplaceNbsp(x));
    RemoveSpacesNbsp(x);
  }

  // ----- icsEscape and the TEXT escaping of section 3.3.11 of RFC 5545 -----

  /** `.replace(/c/g, rep)` for a single character `c`. */
  function ReplaceChar(x: string, c: char, rep: string): (r: string)
  {
    if x == [] then [] else (if x[0] == c then rep else [x[0]]) + ReplaceChar(x[1..], c, rep)
  }

  /** content.js `icsEscape`: backslash, then `;`, then `,`, then newline, on `s(t)`. */
  function IcsEscape(t: string): (r: string)
  {
    ReplaceChar(ReplaceChar(ReplaceChar(ReplaceChar(Normalize(t), '\\', "\\\\"), ';', "\\;"), ',', "\\,"), '\n', "\\n")
  }

  /** The escape RFC 5545 gives one TEXT character. */
  function EscapeChar(c: char): (r: string) {
    if c == '\\' then "\\\\" else if c == ';' then "\\;" else if c == ',' then "\\," else if c == '\n' then "\\n" else [c]
  }

  /** Single-pass TEXT escaping: the reference the four passes are compared to. */
  function EscapeText(x: string): (r: string) {
    if x == [] then [] else EscapeChar(x[0]) + EscapeText(x[1..])
  }

  /** Reading a TEXT value back: `\\`, `\;`, `\,` give the character, `\n`/`\N` a line break. */
  function Unescape(y: string): (r: string) {
    if y == [] then []
    else if y[0] == '\\' && |y| >= 2 && (y[1] == '\\' || y[1] == ';' || y[1] == ',') then [y[1]] + Unescape(y[2..])
    else if y[0] == '\\' && |y| >= 2 && (y[1] == 'n' || y[1] == 'N') then "\n" + Unescape(y[2..])
    else [y[0]] + Unescape(y[1..])
  }

  lemma {:induction false} ReplaceCharAppend(a: string, b: string, c: char, rep: string)
    ensures ReplaceChar(a + b, c, rep) == ReplaceChar(a, c, rep) + ReplaceChar(b, c, rep)
    decreases |a|
  {
    if a == [] {
      assert a + b == b;
    } else {
      assert (a + b)[0] == a[0] && (a + b)[1..] == a[1..] + b;
      ReplaceCharAppend(a[1..], b, c, rep);
    }
  }

  lemma {:induction false} ReplaceCharAbsent(x: string, c: char, rep: string)
    requires c !in x
    ensures ReplaceChar(x, c, rep) == x
    decreases |x|
  {
    if x != [] {
      assert x[0] in x;
      assert forall d :: d in x[1..] ==> d in x;
      ReplaceCharAbsent(x[1..], c, rep);
    }
  }

  function EscapePasses(x: string): (r: string) {
    ReplaceChar(ReplaceChar(ReplaceChar(ReplaceChar(x, '\\', "\\\\"), ';', "\\;"), ',', "\\,"), '\n', "\\n")
  }

  lemma EscapePassesAppend(a: string, b: string)
    ensures EscapePasses(a + b) == EscapePasses(a) + EscapePasses(b)
  {
    var p1a, p1b := ReplaceChar(a, '\\', "\\\\"), ReplaceChar(b, '\\', "\\\\");
    ReplaceCharAppend(a, b, '\\', "\\\\");
    var p2a, p2b := ReplaceChar(p1a, ';', "\\;"), ReplaceChar(p1b, ';', "\\;");
    ReplaceCharAppend(p1a, p1b, ';', "\\;");
    var p3a, p3b := ReplaceChar(p2a, ',', "\\,"), ReplaceChar(p2b, ',', "\\,");
    ReplaceCharAppend(p2a, p2b, ',', "\\,");
    ReplaceCharAppend(p3a, p3b, '\n', "\\n");
  }

  lemma ReplaceCharOne(d: char, c: char, rep: string)
    ensures ReplaceChar([d], c, rep) == if d == c then rep else [d]
  {
    assert [d][1..] == [];
  }

  lemma ReplaceCharTwo(d0: char, d1: char, c: char, rep: string)
    requires d0 != c && d1 != c
    ensures ReplaceChar([d0, d1], c, rep) == [d0, d1]
  {
    assert [d0, d1][1..] == [d1];
    ReplaceCharOne(d1, c, rep);
  }

  lemma EscapePassesOne(d: char)
    ensures EscapePasses([d]) == EscapeChar(d)
  {
    ReplaceCharOne(d, '\\', "\\\\");
    if d == '\\' {
      ReplaceCharTwo('\\', '\\', ';', "\\;");
      ReplaceCharTwo('\\', '\\', ',', "\\,");
      ReplaceCharTwo('\\', '\\', '\n', "\\n");
    } else {
      ReplaceCharOne(d, ';', "\\;");
      if d == ';' {
        ReplaceCharTwo('\\', ';', ',', "\\,");
        ReplaceCharTwo('\\', ';', '\n', "\\n");
      } else {
        ReplaceCharOne(d, ',', "\\,");
        if d == ',' {
          ReplaceCharTwo('\\', ',', '\n', "\\n");
        } else {
          ReplaceCharOne(d, '\n', "\\n");
        }
      }
    }
  }

  /** The four replace passes equal the one-pass escaping: backslash first means no double escaping. */
  lemma {:induction false} EscapePassesAreEscapeText(x: string)
    ensures EscapePasses(x) == EscapeText(x)
    decreases |x|
  {
    if x != [] {
      assert x == [x[0]] + x[1..];
      EscapePassesAppend([x[0]], x[1..]);
      EscapePassesOne(x[0]);
      EscapePassesAreEscapeText(x[1..]);
    }
  }

  /** Unescaping undoes escaping for every text. */
  lemma {:induction false} UnescapeEscape(x: string)
    ensures Unescape(EscapeText(x)) == x
    decreases |x|
  {
    if x != [] {
      var rest := EscapeText(x[1..]);
      assert EscapeText(x) == EscapeChar(x[0]) + rest;
      UnescapeEscape(x[1..]);
      if x[0] == '\\' || x[0] == ';' || x[0] == ',' || x[0] == '\n' {
        assert (EscapeChar(x[0]) + rest)[2..] == rest;
      } else {
        assert (EscapeChar(x[0]) + rest)[1..] == rest;
      }
    }
  }

  /** Every `;` and `,` in `y` comes right after a backslash. */
  predicate SeparatorsEscaped(y: string) {
    forall i :: 0 <= i < |y| && (y[i] == ';' || y[i] == ',') ==> i > 0 && y[i - 1] == '\\'
  }

  /** In escaped text every `;` and `,` comes right after a backslash. */
  lemma {:induction false} EscapedSeparators(x: string)
    ensures SeparatorsEscaped(EscapeText(x))
    decreases |x|
  {
    if x != [] {
      EscapedSeparators(x[1..]);
      var c, e, rest := x[0], EscapeChar(x[0]), EscapeText(x[1..]);
      var y := e + rest;
      forall i | 0 <= i < |y| && (y[i] == ';' || y[i] == ',')
        ensures i > 0 && y[i - 1] == '\\'
      {
        if i >= |e| {
          var j := i - |e|;
          assert y[i] == rest[j];
          if j > 0 {
            assert y[i - 1] == rest[j - 1];
          }
        } else if c == '\\' || c == ';' || c == ',' || c == '\n' {
          assert y[0] == e[0] == '\\';
        }
      }
    }
  }

  /** Escaped text holds no line break if the text held none. */
  lemma {:induction false} EscapeNoBreaks(x: string)
    requires '\n' !in x && '\r' !in x
    ensures '\n' !in EscapeText(x) && '\r' !in EscapeText(x)
    decreases |x|
  {
    if x != [] {
      assert x[0] in x && x == [x[0]] + x[1..];
      var head := EscapeChar(x[0]);
      assert '\n' !in head && '\r' !in head;
      EscapeNoBreaks(x[1..]);
      assert EscapeText(x) == head + EscapeText(x[1..]);
    }
  }

  /**
   * What `icsEscape` promises: it is the TEXT escaping of `s(t)`, so unescaping
   * gives `s(t)` back, every `;` and `,` is escaped, and no line break is left
   * (the newline pass never fires because `s` already removed line breaks).
   */
  lemma IcsEscapeMeaning(t: string)
    ensures IcsEscape(t) == EscapeText(Normalize(t))
    ensures Unescape(IcsEscape(t)) == Normalize(t)
    ensures '\n' !in IcsEscape(t) && '\r' !in IcsEscape(t)
    ensures SeparatorsEscaped(IcsEscape(t))
  {
    EscapePassesAreEscapeText(Normalize(t));
    UnescapeEscape(Normalize(t));
    NormalizeShape(t);
    NormalizedNoBreaks(Normalize(t));
    EscapeNoBreaks(Normalize(t));
    EscapedSeparators(Normalize(t));
  }

  // ----- decimal rendering -----

  predicate IsDigit(c: char) { '0' <= c <= '9' }

  predicate AllDigits(s: string) { forall i :: 0 <= i < |s| ==> IsDigit(s[i]) }

  function DigitValue(c: char): (d: nat)
    requires IsDigit(c)
    ensures d < 10
  {
    c as int - '0' as int
  }

  function DigitChar(d: nat): (c: char)
    requires d < 10
    ensures IsDigit(c) && DigitValue(c) == d
  {
    ('0' as int + d) as char
  }

  /** The number a string of decimal digits denotes (`+m[1]` on a digit capture). */
  function DigitsValue(s: string): (r: nat)
    requires AllDigits(s)
  {
    if s == [] then 0 else DigitsValue(s[..|s| - 1]) * 10 + DigitValue(s[|s| - 1])
  }

  /** `String(n)` for a non-negative integer. */
  function NatToString(n: nat): (r: string)
    ensures |r| >= 1 && AllDigits(r)
  {
    if n < 10 then [DigitChar(n)] else NatToString(n / 10) + [DigitChar(n % 10)]
  }

  /** `String(i)` for any integer. */
  function IntToString(i: int): (r: string) {
    if i < 0 then "-" + NatToString(-i) else NatToString(i)
  }

  /** Reading the digits back gives the number: decimal rendering loses nothing. */
  lemma {:induction false} NatToStringRoundTrip(n: nat)
    ensures DigitsValue(NatToString(n)) == n
  {
    if n >= 10 {
      NatToStringRoundTrip(n / 10);
      var r := NatToString(n);
      assert r[..|r| - 1] == NatToString(n / 10);
    }
  }

  /** Two numbers with the same rendering are equal. */
  lemma NatToStringInjective(a: nat, b: nat)
    requires NatToString(a) == NatToString(b)
    ensures a == b
  {
    NatToStringRoundTrip(a);
    NatToStringRoundTrip(b);
  }

  /** The rendering has one digit below 10, two below 100 and four from 1000 to 9999. */
  lemma NatToStringLength(n: nat)
    ensures n < 10 ==> |NatToString(n)| == 1
    ensures 10 <= n < 100 ==> |NatToString(n)| == 2
    ensures 1000 <= n < 10000 ==> |NatToString(n)| == 4
  {
    if 1000 <= n < 10000 {
      assert |NatToString(n / 10)| == 3 by {
        assert |NatToString(n / 100)| == 2 by { assert |NatToString(n / 1000)| == 1; }
      }
    }
  }

  /** `String(n).padStart(2, '0')`. */
  function Pad2(n: nat): (r: string)
  {
    var d := NatToString(n);
    if |d| >= 2 then d else seq(2 - |d|, _ => '0') + d
  }

  /** Below 100 the padded rendering is exactly two digits and denotes `n`. */
  lemma Pad2Digits(n: nat)
    requires n < 100
    ensures |Pad2(n)| == 2 && AllDigits(Pad2(n)) && DigitsValue(Pad2(n)) == n
  {
    NatToStringLength(n);
    if n < 10 {
      assert Pad2(n) == ['0', DigitChar(n)];
      assert Pad2(n)[..1] == ['0'];
      assert ['0'][..0] == [];
      assert DigitsValue(['0']) == 0;
    } else {
      NatToStringRoundTrip(n);
    }
  }
}
