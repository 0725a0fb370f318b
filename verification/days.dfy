/**
 * content.js `parseDaysToken` and `DAY_MAP`: a greedy left-to-right
 * tokenizer from day letters to the seven two-letter weekday codes.
 */
module Days {
  import opened Wrappers
  import opened Text

  datatype DayCode = SU | MO | TU | WE | TH | FR | SA

  /** The `{SU: 0, MO: 1, ...}` table of `expandOccurrences`: the `getDay` number of a code. */
  function WeekdayNumber(code: DayCode): (n: nat)
    ensures n < 7
  {
    match code
    case SU => 0 case MO => 1 case TU => 2 case WE => 3 case TH => 4 case FR => 5 case SA => 6
  }

  /**
   * content.js `DAY_MAP`, keyed by M, T, W, R, Th, Tu, F, Sa, Sat, Su and
   * Sun, spelled out by length and letter.
   */
  function DayMap(key: string): (r: Option<DayCode>)
    ensures r.Some? ==> 1 <= |key| <= 3
  {
    if |key| == 1 then
      match key[0]
      case 'M' => Some(MO)
      case 'T' => Some(TU)
      case 'W' => Some(WE)
      case 'R' => Some(TH)
      case 'F' => Some(FR)
      case _ => None
    else if |key| == 2 then
      if key[0] == 'T' && key[1] == 'h' then Some(TH)
      else if key[0] == 'T' && key[1] == 'u' then Some(TU)
      else if key[0] == 'S' && key[1] == 'a' then Some(SA)
      else if key[0] == 'S' && key[1] == 'u' then Some(SU)
      else None
    else if |key| == 3 && key[0] == 'S' && key[1] == 'a' && key[2] == 't' then Some(SA)
    else if |key| == 3 && key[0] == 'S' && key[1] == 'u' && key[2] == 'n' then Some(SU)
    else None
  }

  /** `toLowerCase` on one character, as far as comparing with "sat" and "sun" can tell. */
  function Lower(c: char): (r: char) {
    if 'A' <= c <= 'Z' then (c as int + 32) as char else c
  }

  function LowerAll(x: string): (r: string)
    ensures |r| == |x|
  {
    seq(|x|, i requires 0 <= i < |x| => Lower(x[i]))
  }

  /** `t.slice(i, j)`: clamps `j` to the length. */
  function Slice(t: string, i: nat, j: nat): (r: string)
    requires i <= |t|
  {
    if j <= |t| then (if i <= j then t[i..j] else []) else t[i..]
  }

  /** `t.slice(i, i + 2) == [a, b]`, character by character. */
  predicate PairAt(t: string, i: nat, a: char, b: char) {
    i + 2 <= |t| && t[i] == a && t[i + 1] == b
  }

  /** `t.slice(i, i + 3).toLowerCase() == [a, b, c]`, character by character. */
  predicate LowerTripleAt(t: string, i: nat, a: char, b: char, c: char) {
    i + 3 <= |t| && Lower(t[i]) == a && Lower(t[i + 1]) == b && Lower(t[i + 2]) == c
  }

  /** The token the loop of `parseDaysToken` takes at `i`, and how far it advances. */
  function TokenAt(t: string, i: nat): (r: (string, nat))
    requires i < |t|
    ensures 1 <= r.1 <= 3 && i + r.1 <= |t|
  {
    if PairAt(t, i, 'T', 'h') then ("Th", 2)
    else if PairAt(t, i, 'T', 'u') then ("Tu", 2)
    else if LowerTripleAt(t, i, 's', 'a', 't') then ("Sat", 3)
    else if LowerTripleAt(t, i, 's', 'u', 'n') then ("Sun", 3)
    else ([t[i]], 1)
  }

  /** The string comparisons of the loop are the character tests of `TokenAt`. */
  lemma SliceTests(t: string, i: nat)
    requires i < |t|
    ensures (Slice(t, i, i + 2) == "Th") == PairAt(t, i, 'T', 'h')
    ensures (Slice(t, i, i + 2) == "Tu") == PairAt(t, i, 'T', 'u')
    ensures (LowerAll(Slice(t, i, i + 3)) == "sat") == LowerTripleAt(t, i, 's', 'a', 't')
    ensures (LowerAll(Slice(t, i, i + 3)) == "sun") == LowerTripleAt(t, i, 's', 'u', 'n')
  {
    var two, three := Slice(t, i, i + 2), LowerAll(Slice(t, i, i + 3));
    if i + 2 <= |t| {
      assert two == [t[i], t[i + 1]];
    } else {
      assert |two| == 1;
    }
    if i + 3 <= |t| {
      assert three == [Lower(t[i]), Lower(t[i + 1]), Lower(t[i + 2])];
    } else {
      assert |three| < 3;
    }
  }

  /** The tokens from `i` on. */
  function TokensFrom(t: string, i: nat): (toks: seq<string>)
    requires i <= |t|
    decreases |t| - i
  {
    if i == |t| then [] else [TokenAt(t, i).0] + TokensFrom(t, i + TokenAt(t, i).1)
  }

  /** `DAY_MAP[tok] || DAY_MAP[tok[0]]`. */
  function TokenCode(tok: string): (r: Option<DayCode>) {
    if DayMap(tok).Some? then DayMap(tok) else if tok != [] then DayMap([tok[0]]) else None
  }

  /** `.map(tok => DAY_MAP[tok] || DAY_MAP[tok[0]]).filter(Boolean)`: order kept, unmapped tokens dropped. */
  function Codes(toks: seq<string>): (r: seq<DayCode>)
    ensures |r| <= |toks|
  {
    if toks == [] then []
    else (match TokenCode(toks[0]) case Some(c) => [c] case None => []) + Codes(toks[1..])
  }

  /** What `parseDaysToken(raw)` returns. */
  function DayCodes(raw: string): (r: seq<DayCode>) {
    Codes(TokensFrom(RemoveSpaces(raw), 0))
  }

  lemma TokensStep(t: string, i: nat, out: seq<string>)
    requires i < |t|
    ensures out + TokensFrom(t, i) == (out + [TokenAt(t, i).0]) + TokensFrom(t, i + TokenAt(t, i).1)
  {
  }

  /** content.js `parseDaysToken`. */
  method ParseDaysToken(daysRaw: string) returns (days: seq<DayCode>)
    ensures days == DayCodes(daysRaw)
  {
    var t := RemoveSpaces(daysRaw);
    var out: seq<string> := [];
    var i := 0;
    while i < |t|
      invariant i <= |t|
      invariant out + TokensFrom(t, i) == TokensFrom(t, 0)
      decreases |t| - i
    {
      var two, three := Slice(t, i, i + 2), LowerAll(Slice(t, i, i + 3));
      SliceTests(t, i);
      TokensStep(t, i, out);
      if two == "Th" {
        out := out + ["Th"];
        i := i + 2;
        continue;
      }
      if two == "Tu" {
        out := out + ["Tu"];
        i := i + 2;
        continue;
      }
      if three == "sat" {
        out := out + ["Sat"];
        i := i + 3;
        continue;
      }
      if three == "sun" {
        out := out + ["Sun"];
        i := i + 3;
        continue;
      }
      out := out + [[t[i]]];
      i := i + 1;
    }
    assert out + TokensFrom(t, i) == out;
    days := Codes(out);
  }

  // ----- properties -----

  lemma {:induction false} TokensFromLength(t: string, i: nat)
    requires i <= |t|
    ensures |TokensFrom(t, i)| <= |t| - i
    decreases |t| - i
  {
    if i < |t| { TokensFromLength(t, i + TokenAt(t, i).1); }
  }

  /** The days found are never more than the non-space characters of the input. */
  lemma DayCodesLength(raw: string)
    ensures |DayCodes(raw)| <= |RemoveSpaces(raw)| <= |raw|
  {
    TokensFromLength(RemoveSpaces(raw), 0);
  }

  lemma {:induction false} RemoveSpacesNone(x: string)
    requires forall i :: 0 <= i < |x| ==> !IsSpace(x[i])
    ensures RemoveSpaces(x) == x
    decreases |x|
  {
    if x != [] { RemoveSpacesNone(x[1..]); }
  }

  /** Whitespace anywhere in the input, and the normalisation `s` does, change nothing. */
  lemma DayCodesIgnoreSpaces(raw: string)
    ensures DayCodes(RemoveSpaces(raw)) == DayCodes(raw)
    ensures DayCodes(Normalize(raw)) == DayCodes(raw)
  {
    var t := RemoveSpaces(raw);
    RemoveSpacesChars(raw);
    forall i | 0 <= i < |t| ensures !IsSpace(t[i]) { assert t[i] in t; }
    RemoveSpacesNone(t);
    RemoveSpacesNormalize(raw);
  }

  /** The code of a single letter: M, T, W, R and F map, every other character is dropped. */
  function LetterCodes(t: string): (r: seq<DayCode>)
    ensures forall k :: 0 <= k < |r| ==> r[k] in {MO, TU, WE, TH, FR}
  {
    if t == [] then []
    else (match DayMap([t[0]]) case Some(c) => [c] case None => []) + LetterCodes(t[1..])
  }

  lemma {:induction false} SingleLetterTokens(t: string, i: nat)
    requires i <= |t|
    requires forall k :: i <= k < |t| ==> t[k] != 'T' && t[k] != 'S' && t[k] != 's'
    ensures Codes(TokensFrom(t, i)) == LetterCodes(t[i..])
    decreases |t| - i
  {
    if i < |t| {
      assert Lower(t[i]) != 's' && !PairAt(t, i, 'T', 'h') && !PairAt(t, i, 'T', 'u');
      SingleLetterTokens(t, i + 1);
      assert t[i..][1..] == t[i + 1..];
    }
  }

  /**
   * Without `T`, `S` or `s` no multi-letter rule can fire: every letter is
   * its own token, M/W/R/F map to their codes and every other character,
   * lower-case letters included, yields nothing.
   */
  lemma SingleLetterDays(raw: string)
    requires forall k :: 0 <= k < |raw| ==> raw[k] != 'T' && raw[k] != 'S' && raw[k] != 's'
    ensures DayCodes(raw) == LetterCodes(RemoveSpaces(raw))
  {
    var t := RemoveSpaces(raw);
    RemoveSpacesChars(raw);
    forall k | 0 <= k < |t| ensures t[k] != 'T' && t[k] != 'S' && t[k] != 's' {
      assert t[k] in t;
    }
    SingleLetterTokens(t, 0);
  }

  lemma {:induction false} LowercaseTokens(t: string, i: nat)
    requires i <= |t|
    requires forall k :: i <= k < |t| ==> 'a' <= t[k] <= 'z'
    ensures forall k :: 0 <= k < |Codes(TokensFrom(t, i))| ==> Codes(TokensFrom(t, i))[k] in {SA, SU}
    decreases |t| - i
  {
    if i < |t| {
      LowercaseTokens(t, i + TokenAt(t, i).1);
      var tok := TokenAt(t, i).0;
      assert !PairAt(t, i, 'T', 'h') && !PairAt(t, i, 'T', 'u');
      if tok == [t[i]] {
        assert DayMap(tok).None?;
      }
    }
  }

  /** Lower-case letters yield nothing except through the case-insensitive "sat" and "sun". */
  lemma LowercaseDays(raw: string)
    requires forall k :: 0 <= k < |raw| ==> 'a' <= raw[k] <= 'z' || IsSpace(raw[k])
    ensures forall k :: 0 <= k < |DayCodes(raw)| ==> DayCodes(raw)[k] in {SA, SU}
  {
    var t := RemoveSpaces(raw);
    RemoveSpacesChars(raw);
    forall k | 0 <= k < |t| ensures 'a' <= t[k] <= 'z' {
      assert t[k] in t;
      var j :| 0 <= j < |raw| && raw[j] == t[k];
    }
    LowercaseTokens(t, 0);
  }

  // Each worked input is taken in three steps, one lemma each: the
  // whitespace removal, the tokens and the codes.

  lemma {:induction false} ExampleMwf()
    ensures DayCodes("MWF") == [MO, WE, FR]
  {
    RemoveSpacesNone("MWF");
    TokensMwf();
    CodesMwf();
  }

  lemma TokensMwf()
    ensures TokensFrom("MWF", 0) == ["M", "W", "F"]
  {
    assert TokenAt("MWF", 0) == ("M", 1);
    assert TokenAt("MWF", 1) == ("W", 1);
    assert TokenAt("MWF", 2) == ("F", 1);
    assert TokensFrom("MWF", 2) == ["F"];
  }

  lemma CodesMwf()
    ensures Codes(["M", "W", "F"]) == [MO, WE, FR]
  {
    assert TokenCode("M") == Some(MO) && TokenCode("W") == Some(WE) && TokenCode("F") == Some(FR);
    assert ["M", "W", "F"][1..] == ["W", "F"] && ["W", "F"][1..] == ["F"];
  }

  lemma {:induction false} ExampleTuTh()
    ensures DayCodes("TuTh") == [TU, TH]
  {
    RemoveSpacesNone("TuTh");
    TokensTuTh();
    CodesTuTh();
  }

  lemma TokensTuTh()
    ensures TokensFrom("TuTh", 0) == ["Tu", "Th"]
  {
    assert TokenAt("TuTh", 0) == ("Tu", 2);
    assert TokenAt("TuTh", 2) == ("Th", 2);
  }

  lemma CodesTuTh()
    ensures Codes(["Tu", "Th"]) == [TU, TH]
  {
    assert TokenCode("Tu") == Some(TU) && TokenCode("Th") == Some(TH);
    assert ["Tu", "Th"][1..] == ["Th"];
  }

  lemma {:induction false} ExampleTSpaceTh()
    ensures DayCodes("T Th") == [TU, TH]
  {
    RemoveSpacesTSpaceTh();
    TokensTTh();
    CodesTTh();
  }

  lemma RemoveSpacesTSpaceTh()
    ensures RemoveSpaces("T Th") == "TTh"
  {
    assert "T Th"[1..] == " Th" && " Th"[1..] == "Th";
    RemoveSpacesNone("Th");
  }

  lemma TokensTTh()
    ensures TokensFrom("TTh", 0) == ["T", "Th"]
  {
    assert !PairAt("TTh", 0, 'T', 'h') && !PairAt("TTh", 0, 'T', 'u');
    assert Lower('T') == 't';
    assert TokenAt("TTh", 0) == ("T", 1);
    assert TokenAt("TTh", 1) == ("Th", 2);
  }

  lemma CodesTTh()
    ensures Codes(["T", "Th"]) == [TU, TH]
  {
    assert TokenCode("T") == Some(TU) && TokenCode("Th") == Some(TH);
    assert ["T", "Th"][1..] == ["Th"];
  }

  lemma {:induction false} ExampleSatUpper()
    ensures DayCodes("SAT") == [SA]
  {
    RemoveSpacesNone("SAT");
    TokensSat();
    assert Codes(["Sat"]) == [SA];
  }

  lemma TokensSat()
    ensures TokensFrom("SAT", 0) == ["Sat"]
  {
    assert TokenAt("SAT", 0) == ("Sat", 3);
  }

  lemma {:induction false} ExampleSunLower()
    ensures DayCodes("sun") == [SU]
  {
    RemoveSpacesNone("sun");
    TokensSun();
    assert Codes(["Sun"]) == [SU];
  }

  lemma TokensSun()
    ensures TokensFrom("sun", 0) == ["Sun"]
  {
    assert TokenAt("sun", 0) == ("Sun", 3);
  }

  lemma {:induction false} ExampleLoneS()
    ensures DayCodes("S") == []
  {
    RemoveSpacesNone("S");
    assert TokensFrom("S", 0) == ["S"];
    assert Codes(["S"]) == [];
  }

  lemma {:induction false} ExampleSa()
    ensures DayCodes("Sa") == []
  {
    RemoveSpacesNone("Sa");
    TokensSa();
    CodesSa();
  }

  lemma TokensSa()
    ensures TokensFrom("Sa", 0) == ["S", "a"]
  {
    assert "Sa"[0] == 'S' && "Sa"[1] == 'a';
    assert TokenAt("Sa", 0) == ("S", 1);
    assert TokenAt("Sa", 1) == ("a", 1);
  }

  lemma CodesSa()
    ensures Codes(["S", "a"]) == []
  {
    assert TokenCode("S") == None;
    assert DayMap("a") == None && ["a"[0]] == "a";
    assert TokenCode("a") == None;
    assert ["S", "a"][1..] == ["a"];
  }

  /**
   * Worked inputs: M/W/F map one letter each; Tu and Th win over a lone T;
   * "sat" and "sun" match in any case; a lone S, or Sa without t, yields
   * nothing (the one-letter fallback looks up "S", which the table lacks).
   */
  lemma DayCodesExamples()
    ensures DayCodes("MWF") == [MO, WE, FR]
    ensures DayCodes("TuTh") == [TU, TH] && DayCodes("T Th") == [TU, TH]
    ensures DayCodes("SAT") == [SA] && DayCodes("sun") == [SU]
    ensures DayCodes("S") == [] && DayCodes("Sa") == []
  {
    ExampleMwf();
    ExampleTuTh();
    ExampleTSpaceTh();
    ExampleSatUpper();
    ExampleSunLower();
    ExampleLoneS();
    ExampleSa();
  }
}
