/**
 * `_extract_airline` of nlp_parser.py: the phrase after the first `con`,
 * cut at the first whole-word Spanish stopword, trimmed and title-cased.
 */
module Airline {
  import opened Wrappers
  import opened Chars
  import opened Text
  import opened WordRuns

  /** `[a-z0-9áéíóúñ]` under `re.IGNORECASE`: the first character of the capture. */
  predicate IsNameStart(c: char) {
    IsDigit(c) || IsLetter(c)
  }

  /** `[a-z0-9áéíóúñ\s\.-]` under `re.IGNORECASE`: the other characters of the capture. */
  predicate IsNameChar(c: char) {
    IsNameStart(c) || IsSpace(c) || c == '.' || c == '-'
  }

  /** The `{1,40}` bound on the characters after the first one of the capture. */
  const MaxTail: nat := 40

  /** Greedy `[a-z0-9áéíóúñ\s\.-]{0,budget}` from `j`: how many characters it takes. */
  function NameRun(s: string, j: nat, budget: nat): (n: nat)
    requires j <= |s|
    ensures n <= budget && j + n <= |s|
    decreases budget
  {
    if budget > 0 && j < |s| && IsNameChar(s[j]) then 1 + NameRun(s, j + 1, budget - 1) else 0
  }

  /** `\bcon` matches at `i` and at least one whitespace character follows it. */
  predicate ConAt(s: string, i: nat)
    requires i <= |s|
  {
    BoundaryAt(s, i) && MatchesCI(s, i, "con") && i + 3 < |s| && IsSpace(s[i + 3])
  }

  /** The pattern's head `\bcon\s+` matches at `i` and is followed by a capture of at least two characters. */
  predicate AirlineHead(s: string, i: nat)
    requires i <= |s|
  {
    ConAt(s, i) && var p := SpaceRunEnd(s, i + 3); p + 1 < |s| && IsNameStart(s[p]) && IsNameChar(s[p + 1])
  }

  /** `s[p..e]` is the capture group of a match at `i`: spaces from `i + 3` to `p`, a letter, then the greedy `{1,40}` tail. */
  predicate IsCapture(s: string, i: nat, p: nat, e: nat)
  {
    i + 4 <= p && p + 2 <= e <= p + 41 && e <= |s|
    && (forall k {:trigger IsSpace(s[k])} :: i + 3 <= k < p ==> IsSpace(s[k]))
    && IsNameStart(s[p]) && (forall k {:trigger IsNameChar(s[k])} :: p < k < e ==> IsNameChar(s[k]))
    && (e == p + 41 || e == |s| || !IsNameChar(s[e]))
  }

  /**
   * `\bcon\s+([a-z0-9áéíóúñ][a-z0-9áéíóúñ\s\.-]{1,40})` at `i`: the bounds
   * `(p, e)` of the capture. The greedy `\s+` ends at a non-space, which is
   * the only place the capture can start, and nothing follows the capture
   * in the pattern, so its greedy length is final.
   */
  function AirlineAt(s: string, i: nat): Option<(nat, nat)>
    requires i <= |s|
  {
    if ConAt(s, i) then
      var p := SpaceRunEnd(s, i + 3);
      if p < |s| && IsNameStart(s[p]) then
        var n := NameRun(s, p + 1, MaxTail);
        if n >= 1 then Some((p, p + 1 + n)) else None
      else None
    else None
  }

  /** The pattern matches at `i` exactly when its head does and two capture characters follow. */
  lemma AirlineAtMatches(s: string, i: nat)
    requires i <= |s|
    ensures AirlineAt(s, i).Some? <==> AirlineHead(s, i)
  {
    if ConAt(s, i) {
      var p := SpaceRunEnd(s, i + 3);
      if p < |s| {
        NameRunStarts(s, p + 1, MaxTail);
      }
    }
  }

  /** A match's bounds are those of the capture group. */
  lemma AirlineAtCapture(s: string, i: nat)
    requires i <= |s| && AirlineAt(s, i).Some?
    ensures IsCapture(s, i, AirlineAt(s, i).value.0, AirlineAt(s, i).value.1)
  {
    var p := SpaceRunEnd(s, i + 3);
    var n := NameRun(s, p + 1, MaxTail);
    assert AirlineAt(s, i) == Some((p, p + 1 + n));
    CaptureBounds(s, i, p, n);
  }

  /** The capture takes at least one more character exactly when one is there. */
  lemma NameRunStarts(s: string, j: nat, budget: nat)
    requires j <= |s| && budget > 0
    ensures NameRun(s, j, budget) >= 1 <==> j < |s| && IsNameChar(s[j])
  {
  }

  /** The facts `AirlineAt` promises about the capture `s[p..p + 1 + n]`. */
  lemma CaptureBounds(s: string, i: nat, p: nat, n: nat)
    requires i + 3 < |s| && IsSpace(s[i + 3]) && p == SpaceRunEnd(s, i + 3) && p < |s| && IsNameStart(s[p])
    requires 1 <= n && n == NameRun(s, p + 1, MaxTail)
    ensures IsCapture(s, i, p, p + 1 + n)
  {
    CaptureTail(s, p + 1, MaxTail, n);
  }

  /** What the greedy `{0,budget}` run from `j` covers, and why it stops. */
  lemma {:induction false} CaptureTail(s: string, j: nat, budget: nat, n: nat)
    requires j <= |s| && n == NameRun(s, j, budget)
    ensures forall k {:trigger IsNameChar(s[k])} :: j <= k < j + n ==> IsNameChar(s[k])
    ensures n == budget || j + n == |s| || !IsNameChar(s[j + n])
    decreases budget
  {
    if n > 0 {
      CaptureTail(s, j + 1, budget - 1, n - 1);
    }
  }

  /** `re.search` with the airline pattern from `from`: the leftmost start. */
  function SearchAirline(s: string, from: nat): (r: Option<nat>)
    requires from <= |s|
    ensures r.Some? ==> from <= r.value <= |s| && AirlineAt(s, r.value).Some?
    ensures forall j :: from <= j <= |s| && (r.None? || j < r.value) ==> AirlineAt(s, j).None?
    decreases |s| - from
  {
    if AirlineAt(s, from).Some? then Some(from)
    else if from == |s| then None
    else SearchAirline(s, from + 1)
  }

  /** The alternatives of `\b(de|desde|a|para|el|la|los|las)\b`. */
  const Stopwords: seq<string> := ["de", "desde", "a", "para", "el", "la", "los", "las"]

  /** One of the alternatives `ws`, tried in order, matches at `j` under `re.IGNORECASE` and is followed by `\b`. */
  predicate StopwordFrom(t: string, j: nat, ws: seq<string>)
    requires j <= |t|
  {
    ws != [] && ((MatchesCI(t, j, ws[0]) && BoundaryAt(t, j + |ws[0]|)) || StopwordFrom(t, j, ws[1..]))
  }

  /** The stopword pattern matches at `j`. */
  predicate StopwordAt(t: string, j: nat)
    requires j <= |t|
  {
    BoundaryAt(t, j) && StopwordFrom(t, j, Stopwords)
  }

  /** No stopword matches anywhere in `t`: splitting `t` on the pattern leaves it whole. */
  predicate NoStopword(t: string) {
    forall k :: 0 <= k <= |t| ==> !StopwordAt(t, k)
  }

  /** The first position from `j` where the stopword pattern matches, or `|t|`. */
  function FirstStop(t: string, j: nat): (f: nat)
    requires j <= |t|
    ensures j <= f <= |t|
    ensures f < |t| ==> StopwordAt(t, f)
    ensures forall k :: j <= k < f ==> !StopwordAt(t, k)
    decreases |t| - j
  {
    if j == |t| || StopwordAt(t, j) then j else FirstStop(t, j + 1)
  }

  /** Lines 57-58: strip the capture, keep what precedes the first stopword (`re.split(..., maxsplit=1)[0]`), strip again. */
  function AirlinePhrase(cap: string): (r: string)
    ensures NoStopword(r)
    ensures r == [] || (!IsSpace(r[0]) && !IsSpace(r[|r| - 1]))
  {
    var t := Strip(cap);
    var f := FirstStop(t, 0);
    PrefixIsFree(t, f);
    NoStopwordIffRuns(t[..f]);
    LRunsOfStrip(t[..f]);
    NoStopwordIffRuns(Strip(t[..f]));
    Strip(t[..f])
  }

  /** A stripped capture without any stopword is the phrase itself. */
  lemma PhraseWithoutStopword(cap: string)
    requires NoStopword(Strip(cap))
    ensures AirlinePhrase(cap) == Strip(cap)
  {
    var t := Strip(cap);
    assert FirstStop(t, 0) == |t|;
    assert t[..|t|] == t;
    if t != [] {
      StripKeeps(t);
    }
  }

  /** With its first stopword at `k`, the phrase is what precedes `k`, stripped. */
  lemma PhraseCutsAtFirstStopword(cap: string, k: nat)
    requires k <= |Strip(cap)| && StopwordAt(Strip(cap), k)
    requires forall j :: 0 <= j < k ==> !StopwordAt(Strip(cap), j)
    ensures AirlinePhrase(cap) == Strip(Strip(cap)[..k])
  {
    assert FirstStop(Strip(cap), 0) == k;
  }

  /** The title-cased phrase of the capture `s[p..e]`, or nothing when the phrase is empty. */
  function NameOfCapture(s: string, p: nat, e: nat): (r: Option<string>)
    requires p <= e <= |s|
    ensures r.None? <==> AirlinePhrase(s[p..e]) == []
    ensures r.Some? ==> r.value != [] && IsClean(r.value) && NoStopword(r.value)
    ensures r.Some? ==> IsTitleCaseOf(r.value, CleanText(AirlinePhrase(s[p..e])))
    ensures r.Some? ==> forall i :: 0 <= i < |SplitSpace(r.value)| ==> IsTitleWord(SplitSpace(r.value)[i])
  {
    var phrase := AirlinePhrase(s[p..e]);
    if phrase == [] then None
    else
      TitleCaseKeepsNoStopword(phrase);
      TitleCaseOnlyChangesCase(phrase);
      CleanTextNonEmpty(phrase);
      Some(TitleCase(phrase))
  }

  /** `_extract_airline(msg)`. */
  function ExtractAirline(msg: string): (r: Option<string>)
    ensures (forall j :: 0 <= j <= |msg| ==> AirlineAt(msg, j).None?) ==> r.None?
    ensures r.Some? ==> r.value != [] && IsClean(r.value) && NoStopword(r.value)
    ensures r.Some? ==> forall i :: 0 <= i < |SplitSpace(r.value)| ==> IsTitleWord(SplitSpace(r.value)[i])
  {
    match SearchAirline(msg, 0)
    case None => None
    case Some(i) =>
      AirlineAtCapture(msg, i);
      NameOfCapture(msg, AirlineAt(msg, i).value.0, AirlineAt(msg, i).value.1)
  }

  /**
   * The name comes from the leftmost match: with the first match of the
   * pattern at `i`, the result is the title-cased phrase of that match's
   * capture, or nothing when the phrase is empty.
   */
  lemma ExtractAirlineOfLeftmost(msg: string, i: nat)
    requires i <= |msg| && AirlineAt(msg, i).Some?
    requires forall j :: 0 <= j < i ==> AirlineAt(msg, j).None?
    ensures AirlineAt(msg, i).value.0 <= AirlineAt(msg, i).value.1 <= |msg|
    ensures ExtractAirline(msg) == NameOfCapture(msg, AirlineAt(msg, i).value.0, AirlineAt(msg, i).value.1)
  {
    AirlineAtCapture(msg, i);
    assert SearchAirline(msg, 0) == Some(i);
  }

  /** A stopword match at `j`, with the stopword it matched. */
  lemma StopwordOf(t: string, j: nat) returns (w: string)
    requires j <= |t| && StopwordAt(t, j)
    ensures w in Stopwords && MatchesCI(t, j, w) && BoundaryAt(t, j + |w|) && BoundaryAt(t, j)
    ensures 1 <= |w| && forall m :: j <= m < j + |w| ==> IsWordChar(t[m])
  {
    w := MatchedAlternative(t, j, Stopwords);
    StopwordLetters(w);
    MatchedWordChars(t, j, w);
  }

  /** The alternative that matched. */
  lemma {:induction false} MatchedAlternative(t: string, j: nat, ws: seq<string>) returns (w: string)
    requires j <= |t| && StopwordFrom(t, j, ws)
    ensures w in ws && MatchesCI(t, j, w) && BoundaryAt(t, j + |w|)
    decreases |ws|
  {
    if MatchesCI(t, j, ws[0]) && BoundaryAt(t, j + |ws[0]|) {
      w := ws[0];
    } else {
      w := MatchedAlternative(t, j, ws[1..]);
    }
  }

  /** Any alternative in `ws` that matches makes the alternation match. */
  lemma {:induction false} AlternativeMatches(t: string, j: nat, ws: seq<string>, w: string)
    requires j <= |t| && w in ws && MatchesCI(t, j, w) && BoundaryAt(t, j + |w|)
    ensures StopwordFrom(t, j, ws)
    decreases |ws|
  {
    if w != ws[0] {
      assert w in ws[1..];
      AlternativeMatches(t, j, ws[1..], w);
    }
  }

  /** A stopword matching at a boundary, followed by a boundary, is a match of the pattern. */
  lemma StopwordIntro(t: string, j: nat, w: string)
    requires j <= |t| && BoundaryAt(t, j) && w in Stopwords && MatchesCI(t, j, w) && BoundaryAt(t, j + |w|)
    ensures StopwordAt(t, j)
  {
    AlternativeMatches(t, j, Stopwords, w);
  }

  /** Every stopword is a non-empty run of lower-case letters. */
  lemma StopwordLetters(w: string)
    requires w in Stopwords
    ensures 1 <= |w| && forall m :: 0 <= m < |w| ==> IsLowerLetter(w[m])
  {
  }

  /** Characters matching lower-case letters case-insensitively are word characters. */
  lemma MatchedWordChars(t: string, j: nat, w: string)
    requires MatchesCI(t, j, w) && forall m :: 0 <= m < |w| ==> IsLowerLetter(w[m])
    ensures forall m :: j <= m < j + |w| ==> IsWordChar(t[m])
  {
    forall m | j <= m < j + |w|
      ensures IsWordChar(t[m])
    {
      assert Lower(t[j + (m - j)]) == w[m - j];
      CaseMapsKeepClasses(t[m]);
    }
  }

  /** Before the first stopword match there is none, even where the cut changes the word boundary at its end. */
  lemma PrefixIsFree(t: string, f: nat)
    requires f <= |t| && (f < |t| ==> StopwordAt(t, f)) && forall k :: 0 <= k < f ==> !StopwordAt(t, k)
    ensures NoStopword(t[..f])
  {
    forall k | 0 <= k <= f
      ensures !StopwordAt(t[..f], k)
    {
      PrefixNoStopAt(t, f, k);
    }
  }

  /** One position of `PrefixIsFree`. */
  lemma PrefixNoStopAt(t: string, f: nat, k: nat)
    requires f <= |t| && (f < |t| ==> StopwordAt(t, f)) && forall j :: 0 <= j < f ==> !StopwordAt(t, j)
    requires k <= f
    ensures !StopwordAt(t[..f], k)
  {
    var p := t[..f];
    if StopwordAt(p, k) {
      var w := StopwordOf(p, k);
      PrefixFacts(t, f, k, w);
      if k + |w| < f {
        PrefixFacts(t, f, k + |w|, w);
        StopwordIntro(t, k, w);
      } else if f < |t| {
        assert p[f - 1] == t[f - 1];
        var w' := StopwordOf(t, f);
      } else {
        assert p == t;
        StopwordIntro(t, k, w);
      }
    }
  }

  /** A stopword match in a text is one of its word runs, and a run that is a stopword is a match: both directions. */
  lemma NoStopwordIffRuns(t: string)
    ensures NoStopword(t) <==> forall x :: x in LRuns(t) ==> x !in Stopwords
  {
    if !NoStopword(t) {
      var k :| 0 <= k <= |t| && StopwordAt(t, k);
      var w := StopwordOf(t, k);
      MatchIsRun(t, k, w);
    }
    if exists x :: x in LRuns(t) && x in Stopwords {
      var x :| x in LRuns(t) && x in Stopwords;
      var k := RunIsMatch(t, x);
    }
  }

  /** A whole-word match of a stopword is one of the lower-cased word runs. */
  lemma MatchIsRun(t: string, k: nat, w: string)
    requires k <= |t| && w in Stopwords && MatchesCI(t, k, w) && BoundaryAt(t, k) && BoundaryAt(t, k + |w|)
    requires 1 <= |w| && forall m :: k <= m < k + |w| ==> IsWordChar(t[m])
    ensures w in LRuns(t)
  {
    var u := t[k..];
    MatchIsLeadingRun(t, k, w);
    LRunsSuffix(t, k);
    var rs, ru := LRuns(t), LRuns(u);
    assert ru[0] == rs[|rs| - |ru|..][0];
  }

  /** A whole-word case-insensitive match at `k` is the leading word run of `t[k..]`, lower-cased. */
  lemma MatchIsLeadingRun(t: string, k: nat, w: string)
    requires k <= |t| && MatchesCI(t, k, w) && BoundaryAt(t, k + |w|)
    requires 1 <= |w| && forall m :: k <= m < k + |w| ==> IsWordChar(t[m])
    ensures k < |t| && IsWordChar(t[k..][0]) && WordRunEnd(t[k..], 0) == |w| && LowerAll(t[k..][..|w|]) == w
  {
    var u := t[k..];
    forall m | 0 <= m < |w|
      ensures IsWordChar(u[m]) && LowerAll(u[..|w|])[m] == w[m]
    {
      assert u[m] == t[k + m] && u[..|w|][m] == t[k + m];
    }
    assert IsWordChar(t[k + |w| - 1]);
    RunEndUnique(u, 0, |w|);
  }

  /** A lower-cased word run that is a stopword is a match of the stopword pattern. */
  lemma {:induction false} RunIsMatch(t: string, x: string) returns (k: nat)
    requires x in LRuns(t) && x in Stopwords
    ensures k <= |t| && StopwordAt(t, k)
    decreases |t|, 2
  {
    if !IsWordChar(t[0]) {
      k := RunIsMatchSkip(t, x);
    } else {
      k := RunIsMatchWord(t, x);
    }
  }

  /** `RunIsMatch` when `t` starts with a non-word character, which `LRuns` skips. */
  lemma {:induction false} RunIsMatchSkip(t: string, x: string) returns (k: nat)
    requires t != [] && !IsWordChar(t[0]) && x in LRuns(t[1..]) && x in Stopwords
    ensures k <= |t| && StopwordAt(t, k)
    decreases |t|, 0
  {
    var k' := RunIsMatch(t[1..], x);
    k := k' + 1;
    StopwordShift(t, 1, k');
  }

  /** `RunIsMatch` when `t` starts with a word run. */
  lemma {:induction false} RunIsMatchWord(t: string, x: string) returns (k: nat)
    requires t != [] && IsWordChar(t[0]) && x in LRuns(t) && x in Stopwords
    ensures k <= |t| && StopwordAt(t, k)
    decreases |t|, 1
  {
    var e := WordRunEnd(t, 0);
    LRunsOfWordStart(t);
    if x == LowerAll(t[..e]) {
      k := 0;
      HeadRunMatch(t, x);
    } else {
      k := RunIsMatchAfterRun(t, x);
    }
  }

  /** `RunIsMatch` for a run after the leading word run of `t`. */
  lemma {:induction false} RunIsMatchAfterRun(t: string, x: string) returns (k: nat)
    requires t != [] && IsWordChar(t[0]) && x in LRuns(t[WordRunEnd(t, 0)..]) && x in Stopwords
    ensures k <= |t| && StopwordAt(t, k)
    decreases |t|, 0
  {
    var e := WordRunEnd(t, 0);
    var k' := RunIsMatch(t[e..], x);
    k := e + k';
    ShiftAfterRun(t, e, k');
  }

  /** A match after the leading word run of `t` is a match in `t`. */
  lemma ShiftAfterRun(t: string, e: nat, k: nat)
    requires e == WordRunEnd(t, 0) && k <= |t| - e && StopwordAt(t[e..], k)
    ensures StopwordAt(t, e + k)
  {
    AfterRunIsNonWord(t, e);
    NoStopwordBeforeNonWord(t[e..], k);
    StopwordShift(t, e, k);
  }

  /** What follows the leading word run of `t` does not start with a word character. */
  lemma AfterRunIsNonWord(t: string, e: nat)
    requires e == WordRunEnd(t, 0)
    ensures t[e..] == [] || !IsWordChar(t[e..][0])
  {
  }

  /** A leading word run that lower-cases to a stopword is a match at 0. */
  lemma HeadRunMatch(t: string, x: string)
    requires t != [] && IsWordChar(t[0]) && x in Stopwords && x == LowerAll(t[..WordRunEnd(t, 0)])
    ensures StopwordAt(t, 0)
  {
    var e := WordRunEnd(t, 0);
    LowerRunMatches(t, e);
    StopwordIntro(t, 0, x);
  }

  /** A prefix of `t`, lower-cased, matches `t` at 0 case-insensitively. */
  lemma LowerRunMatches(t: string, e: nat)
    requires e <= |t|
    ensures MatchesCI(t, 0, LowerAll(t[..e]))
  {
    var x := LowerAll(t[..e]);
    forall k | 0 <= k < |x|
      ensures Lower(t[0 + k]) == x[k]
    {
      assert t[..e][k] == t[k];
    }
  }

  /** No match starts before a non-word character or at the end. */
  lemma NoStopwordBeforeNonWord(u: string, k: nat)
    requires u == [] || !IsWordChar(u[0])
    requires k <= |u| && StopwordAt(u, k)
    ensures k > 0
  {
  }

  /** A match in a tail of `t` is a match in `t`, unless it sits right after a word character. */
  lemma StopwordShift(t: string, d: nat, k: nat)
    requires d <= |t| && k <= |t| - d && StopwordAt(t[d..], k)
    requires k > 0 || d == 0 || !IsWordChar(t[d - 1])
    ensures StopwordAt(t, d + k)
  {
    var w := MatchedAlternative(t[d..], k, Stopwords);
    ShiftFacts(t, d, k, w);
    ShiftFacts(t, d, k + |w|, w);
    StopwordIntro(t, d + k, w);
  }

  /** Case-insensitive matches and word boundaries inside a tail `t[d..]` are those of `t`. */
  lemma ShiftFacts(t: string, d: nat, j: nat, w: string)
    requires d <= |t| && j <= |t| - d
    ensures MatchesCI(t[d..], j, w) ==> MatchesCI(t, d + j, w)
    ensures j > 0 ==> BoundaryAt(t[d..], j) == BoundaryAt(t, d + j)
    ensures j == 0 && (d == 0 || !IsWordChar(t[d - 1])) ==> BoundaryAt(t[d..], j) == BoundaryAt(t, d + j)
  {
    if MatchesCI(t[d..], j, w) {
      forall m | 0 <= m < |w|
        ensures Lower(t[d + j + m]) == w[m]
      {
        assert t[d..][j + m] == t[d + j + m];
      }
    }
  }

  /** Case-insensitive matches and word boundaries strictly inside a prefix `t[..f]` are those of `t`. */
  lemma PrefixFacts(t: string, f: nat, j: nat, w: string)
    requires f <= |t| && j <= f
    ensures MatchesCI(t[..f], j, w) ==> MatchesCI(t, j, w)
    ensures j < f ==> BoundaryAt(t[..f], j) == BoundaryAt(t, j)
  {
    if MatchesCI(t[..f], j, w) {
      forall m | 0 <= m < |w|
        ensures Lower(t[j + m]) == w[m]
      {
        assert t[..f][j + m] == t[j + m];
      }
    }
  }

  /** Title casing a stopword-free phrase leaves it stopword-free. */
  lemma TitleCaseKeepsNoStopword(p: string)
    requires NoStopword(p)
    ensures NoStopword(TitleCase(p))
  {
    NoStopwordIffRuns(p);
    TitleCaseOnlyChangesCase(p);
    LRunsOfRecase(TitleCase(p), CleanText(p));
    LRunsOfCleanText(p);
    NoStopwordIffRuns(TitleCase(p));
  }
}
