/**
 * `_clean_text` and `_title_case` of nlp_parser.py, with the Python string
 * primitives they are built from: `str.strip()`, `re.sub(r"\s+", " ", ...)`,
 * `str.split()`, `str.split(" ")` and `" ".join(...)`.
 */
module Text {
  import opened Chars

  predicate NoSpace(w: string) {
    forall k :: 0 <= k < |w| ==> !IsSpace(w[k])
  }

  predicate AllSpace(s: string) {
    forall k :: 0 <= k < |s| ==> IsSpace(s[k])
  }

  /** Leading whitespace removed: the left half of `str.strip()`. */
  function TrimStart(s: string): (r: string)
    ensures |r| <= |s| && (r != [] ==> r[|r| - 1] == s[|s| - 1])
    ensures r == [] <==> AllSpace(s)
    ensures r == [] || !IsSpace(r[0])
    ensures forall k :: 0 <= k < |s| - |r| ==> IsSpace(s[k])
  {
    if s != [] && IsSpace(s[0]) then TrimStart(s[1..]) else s
  }

  /** Trailing whitespace removed: the right half of `str.strip()`. */
  function TrimEnd(s: string): (r: string)
    ensures |r| <= |s| && r == s[..|r|]
    ensures r == [] || !IsSpace(r[|r| - 1])
    ensures forall k :: |r| <= k < |s| ==> IsSpace(s[k])
  {
    if AllSpace(s) then []
    else
      var t := TrimEnd(s[1..]);
      assert t == [] ==> !IsSpace(s[0]);
      [s[0]] + t
  }

  /** `str.strip()` with no argument. */
  function Strip(s: string): (r: string)
    ensures |r| <= |s|
    ensures r == [] || (!IsSpace(r[0]) && !IsSpace(r[|r| - 1]))
    ensures r == [] <==> AllSpace(s)
  {
    TrimEnd(TrimStart(s))
  }

  /**
   * What `str.strip()` keeps: the slice `s[a..a + |Strip(s)|]`, with only
   * whitespace before `a` and after its end.
   */
  lemma StripSlice(s: string)
    ensures var r := Strip(s); var a := |s| - |TrimStart(s)|;
      && a + |r| <= |s| && r == s[a..a + |r|]
      && (forall k :: 0 <= k < a ==> IsSpace(s[k]))
      && (forall k :: a + |r| <= k < |s| ==> IsSpace(s[k]))
  {
    TrimStartIsSuffix(s);
    var u := TrimStart(s);
    var a := |s| - |u|;
    var r := TrimEnd(u);
    PrefixOfSuffix(s, a, |r|);
    SpaceAfterPrefix(s, a, |r|);
  }

  lemma PrefixOfSuffix(s: string, a: nat, n: nat)
    requires a + n <= |s|
    ensures s[a..][..n] == s[a..a + n]
  {
  }

  lemma SpaceAfterPrefix(s: string, a: nat, n: nat)
    requires a + n <= |s| && forall k :: n <= k < |s[a..]| ==> IsSpace(s[a..][k])
    ensures forall k :: a + n <= k < |s| ==> IsSpace(s[k])
  {
    forall k | a + n <= k < |s|
      ensures IsSpace(s[k])
    {
      assert s[k] == s[a..][k - a];
    }
  }

  lemma {:induction false} TrimStartIsSuffix(s: string)
    ensures TrimStart(s) == s[|s| - |TrimStart(s)|..]
  {
    if s != [] && IsSpace(s[0]) {
      TrimStartIsSuffix(s[1..]);
      var r := TrimStart(s[1..]);
      assert s[1..][|s| - 1 - |r|..] == s[|s| - |r|..];
    }
  }

  /** Whitespace occurs only as single `' '` characters. */
  predicate SingleSpaced(r: string) {
    && (forall k :: 0 <= k < |r| && IsSpace(r[k]) ==> r[k] == ' ')
    && (forall j, k {:trigger r[j], r[k]} :: 0 <= j < |r| && 0 <= k < |r| && k == j + 1 && IsSpace(r[j]) ==> !IsSpace(r[k]))
  }

  /** What `_clean_text` guarantees: single spaces only, none at either end. */
  predicate IsClean(t: string) {
    SingleSpaced(t) && (t == [] || (!IsSpace(t[0]) && !IsSpace(t[|t| - 1])))
  }

  /** `re.sub(r"\s+", " ", s)`: every maximal run of whitespace becomes one space. */
  function Collapse(s: string): (r: string)
    ensures |r| <= |s|
    ensures (r == []) == (s == [])
    ensures s != [] ==> IsSpace(r[0]) == IsSpace(s[0]) && (!IsSpace(s[0]) ==> r[0] == s[0])
    ensures s != [] ==> IsSpace(r[|r| - 1]) == IsSpace(s[|s| - 1])
    ensures SingleSpaced(r)
    decreases |s|
  {
    if s == [] then []
    else if IsSpace(s[0]) then [' '] + Collapse(TrimStart(s))
    else [s[0]] + Collapse(s[1..])
  }

  /**
   * `s.split()`: the maximal runs of non-whitespace characters, in order.
   * This is the reference against which `CleanText` is characterised.
   */
  function Words(s: string): (ws: seq<string>)
    ensures s != [] && !IsSpace(s[0]) ==> |ws| > 0 && ws[0] != [] && ws[0][0] == s[0]
    ensures forall i :: 0 <= i < |ws| ==> ws[i] != [] && NoSpace(ws[i])
  {
    if s == [] then []
    else if IsSpace(s[0]) then Words(s[1..])
    else
      var ws := Words(s[1..]);
      if |s| > 1 && !IsSpace(s[1]) then [[s[0]] + ws[0]] + ws[1..]
      else [[s[0]]] + ws
  }

  /** `" ".join(ws)`. */
  function JoinSpace(ws: seq<string>): string {
    if |ws| == 0 then []
    else if |ws| == 1 then ws[0]
    else ws[0] + [' '] + JoinSpace(ws[1..])
  }

  /** `_clean_text(s)`: `re.sub(r"\s+", " ", s.strip())`. */
  function CleanText(s: string): (r: string)
    ensures IsClean(r)
    ensures Words(r) == Words(s)
  {
    var t := Strip(s);
    WordsOfStrip(s);
    WordsOfCollapse(t);
    Collapse(t)
  }

  lemma {:induction false} WordsOfTrimStart(s: string)
    ensures Words(TrimStart(s)) == Words(s)
  {
    if s != [] && IsSpace(s[0]) {
      WordsOfTrimStart(s[1..]);
    }
  }

  lemma {:induction false} WordsOfAllSpace(s: string)
    requires AllSpace(s)
    ensures Words(s) == []
  {
    if s != [] {
      WordsOfAllSpace(s[1..]);
    }
  }

  lemma {:induction false} WordsOfTrimEnd(s: string)
    ensures Words(TrimEnd(s)) == Words(s)
  {
    if AllSpace(s) {
      WordsOfAllSpace(s);
    } else {
      var t := TrimEnd(s[1..]);
      WordsOfTrimEnd(s[1..]);
      var x := [s[0]] + t;
      assert x[1..] == t;
      if t == [] && |s| > 1 {
        assert IsSpace(s[1]);
      }
    }
  }

  lemma WordsOfStrip(s: string)
    ensures Words(Strip(s)) == Words(s)
  {
    WordsOfTrimStart(s);
    WordsOfTrimEnd(TrimStart(s));
  }

  lemma {:induction false} WordsOfCollapse(s: string)
    ensures Words(Collapse(s)) == Words(s)
    decreases |s|
  {
    if s == [] {
    } else if IsSpace(s[0]) {
      var c := Collapse(TrimStart(s));
      assert ([' '] + c)[1..] == c;
      WordsOfCollapse(TrimStart(s));
      WordsOfTrimStart(s);
    } else {
      var c := Collapse(s[1..]);
      assert ([s[0]] + c)[1..] == c;
      WordsOfCollapse(s[1..]);
    }
  }

  lemma {:induction false} TrimEndKeeps(t: string)
    requires t != [] && !IsSpace(t[|t| - 1])
    ensures TrimEnd(t) == t
  {
    assert !IsSpace(t[|t| - 1]);
    if |t| > 1 {
      TrimEndKeeps(t[1..]);
    }
  }

  lemma TrimStartKeeps(t: string)
    requires t == [] || !IsSpace(t[0])
    ensures TrimStart(t) == t
  {
  }

  lemma {:induction false} CollapseKeepsSingleSpaced(t: string)
    requires SingleSpaced(t)
    ensures Collapse(t) == t
  {
    if t != [] {
      var u := t[1..];
      assert SingleSpaced(u) by {
        assert forall k :: 0 <= k < |u| ==> u[k] == t[k + 1];
      }
      CollapseKeepsSingleSpaced(u);
      if IsSpace(t[0]) {
        assert t[0] == ' ' && (u == [] || !IsSpace(u[0]));
        TrimStartKeeps(u);
        assert TrimStart(t) == u;
      }
      assert t == [t[0]] + u;
    }
  }

  /** A cleaned text is left as it is by `_clean_text`. */
  lemma CleanTextKeepsClean(t: string)
    requires IsClean(t)
    ensures CleanText(t) == t
  {
    if t != [] {
      TrimEndKeeps(t);
    }
    CollapseKeepsSingleSpaced(t);
  }

  /** A text that starts with a non-space keeps something once cleaned. */
  lemma CleanTextNonEmpty(t: string)
    requires t != [] && !IsSpace(t[0])
    ensures CleanText(t) != []
  {
    assert Words(t) != [];
  }

  lemma StripKeeps(t: string)
    requires t != [] && !IsSpace(t[0]) && !IsSpace(t[|t| - 1])
    ensures Strip(t) == t
  {
    TrimEndKeeps(t);
  }

  /** `_clean_text` is idempotent. */
  lemma CleanTextIdempotent(s: string)
    ensures CleanText(CleanText(s)) == CleanText(s)
  {
    CleanTextKeepsClean(CleanText(s));
  }

  lemma {:induction false} WordsOfOneWord(w: string)
    requires w != [] && NoSpace(w)
    ensures Words(w) == [w]
  {
    assert !IsSpace(w[0]);
    if |w| > 1 {
      assert !IsSpace(w[1]);
      WordsOfOneWord(w[1..]);
      assert [w[0]] + w[1..] == w;
    } else {
      assert w[1..] == [] && w == [w[0]];
      assert Words(w) == [[w[0]]] + Words([]);
    }
  }

  lemma {:induction false} WordsOfWordThenSpace(w: string, u: string)
    requires w != [] && NoSpace(w)
    ensures Words(w + [' '] + u) == [w] + Words(u)
  {
    var x := w + [' '] + u;
    assert !IsSpace(w[0]) && x[0] == w[0];
    if |w| == 1 {
      assert x[1..] == [' '] + u;
      assert ([' '] + u)[1..] == u;
      assert IsSpace(x[1]);
      assert Words(x) == [[w[0]]] + Words(x[1..]);
      assert [w[0]] == w;
    } else {
      assert !IsSpace(x[1]);
      assert x[1..] == w[1..] + [' '] + u;
      WordsOfWordThenSpace(w[1..], u);
      assert [w[0]] + w[1..] == w;
    }
  }

  /** Index of the first `' '` of `t` (or `|t|`). */
  function FirstSpace(t: string): (i: nat)
    ensures i <= |t| && (i < |t| ==> t[i] == ' ')
    ensures forall k :: 0 <= k < i ==> t[k] != ' '
  {
    if t == [] || t[0] == ' ' then 0 else 1 + FirstSpace(t[1..])
  }

  lemma {:induction false} JoinOfWordsOfClean(t: string)
    requires IsClean(t)
    ensures JoinSpace(Words(t)) == t
    decreases |t|
  {
    if t != [] {
      var i := FirstSpace(t);
      if i == |t| {
        WordsOfOneWord(t);
      } else {
        var w, t' := t[..i], t[i + 1..];
        assert t == w + [' '] + t';
        WordsOfWordThenSpace(w, t');
        assert t'[0] == t[i + 1];
        JoinOfWordsOfClean(t');
        assert Words(t') != [];
      }
    }
  }

  /** `_clean_text(s)` is `" ".join(s.split())`: it keeps every word, in order, and only respaces. */
  lemma CleanTextIsJoinOfWords(s: string)
    ensures CleanText(s) == JoinSpace(Words(s))
  {
    JoinOfWordsOfClean(CleanText(s));
  }

  /** `s.split(" ")`: pieces between single spaces, empty pieces included. */
  function SplitSpace(s: string): (ws: seq<string>)
    ensures |ws| >= 1
    ensures forall i :: 0 <= i < |ws| ==> ' ' !in ws[i]
    ensures JoinSpace(ws) == s
  {
    if s == [] then [[]]
    else
      var rest := SplitSpace(s[1..]);
      if s[0] == ' ' then
        assert [' '] + s[1..] == s;
        [[]] + rest
      else
        var ws := [[s[0]] + rest[0]] + rest[1..];
        assert ws[1..] == rest[1..];
        assert |rest| > 1 ==> JoinSpace(rest) == rest[0] + [' '] + JoinSpace(rest[1..]);
        assert [s[0]] + s[1..] == s;
        ws
  }

  lemma {:induction false} SplitOfWordThenSpace(w: string, u: string)
    requires ' ' !in w
    ensures SplitSpace(w + [' '] + u) == [w] + SplitSpace(u)
  {
    if w == [] {
      assert ([' '] + u)[1..] == u;
    } else {
      assert (w + [' '] + u)[1..] == w[1..] + [' '] + u;
      SplitOfWordThenSpace(w[1..], u);
      assert [w[0]] + w[1..] == w;
    }
  }

  lemma {:induction false} SplitOfNoSpace(w: string)
    requires ' ' !in w
    ensures SplitSpace(w) == [w]
  {
    if w != [] {
      SplitOfNoSpace(w[1..]);
      assert [w[0]] + w[1..] == w;
    }
  }

  /** `" ".join(ws).split(" ")` gives `ws` back when no piece holds a space. */
  lemma {:induction false} SplitOfJoin(ws: seq<string>)
    requires |ws| >= 1 && forall i :: 0 <= i < |ws| ==> ' ' !in ws[i]
    ensures SplitSpace(JoinSpace(ws)) == ws
  {
    if |ws| == 1 {
      SplitOfNoSpace(ws[0]);
    } else {
      SplitOfJoin(ws[1..]);
      SplitOfWordThenSpace(ws[0], JoinSpace(ws[1..]));
    }
  }

  /** `s.lower()` under the model's case map. */
  function LowerAll(s: string): (r: string)
    ensures |r| == |s| && forall k {:trigger r[k]} :: 0 <= k < |s| ==> r[k] == Lower(s[k])
  {
    if s == [] then [] else [Lower(s[0])] + LowerAll(s[1..])
  }

  /** Lower-casing leaves a text whose characters are all their own lower case as it is. */
  lemma LowerAllFixed(s: string)
    requires forall k :: 0 <= k < |s| ==> Lower(s[k]) == s[k]
    ensures LowerAll(s) == s
  {
  }

  /** `w[:1].upper() + w[1:].lower()`. */
  function TitleWord(w: string): string {
    if w == [] then w else [Upper(w[0])] + LowerAll(w[1..])
  }

  function TitleWords(ws: seq<string>): (ts: seq<string>)
    ensures |ts| == |ws| && forall i :: 0 <= i < |ws| ==> ts[i] == TitleWord(ws[i])
  {
    if ws == [] then [] else [TitleWord(ws[0])] + TitleWords(ws[1..])
  }

  /** A word whose first character is upper case and the rest lower case. */
  predicate IsTitleWord(w: string) {
    w == [] || (Upper(w[0]) == w[0] && forall k :: 1 <= k < |w| ==> Lower(w[k]) == w[k])
  }

  /**
   * Character-level title casing of `t`: a character is upper-cased at the
   * start and after a space, lower-cased everywhere else.
   */
  predicate IsTitleCaseOf(r: string, t: string) {
    |r| == |t| && forall k :: 0 <= k < |t| ==> r[k] == TitleCharAt(t, k)
  }

  /** The character that title casing puts at position `k` of `t`. */
  function TitleCharAt(t: string, k: nat): char
    requires k < |t|
  {
    if k == 0 || t[k - 1] == ' ' then Upper(t[k]) else Lower(t[k])
  }

  lemma TitleWordAt(w: string, k: nat)
    requires k < |w|
    ensures |TitleWord(w)| == |w|
    ensures TitleWord(w)[k] == if k == 0 then Upper(w[k]) else Lower(w[k])
  {
    var tail := LowerAll(w[1..]);
    assert TitleWord(w) == [Upper(w[0])] + tail;
    if k > 0 {
      assert w[1..][k - 1] == w[k];
      assert tail[k - 1] == Lower(w[k]);
    }
  }

  lemma {:induction false} JoinTitleWordsIsTitleCase(t: string)
    ensures IsTitleCaseOf(JoinSpace(TitleWords(SplitSpace(t))), t)
    decreases |t|
  {
    var i := FirstSpace(t);
    var w := t[..i];
    assert ' ' !in w;
    if i == |t| {
      SplitOfNoSpace(t);
      assert JoinSpace(TitleWords(SplitSpace(t))) == TitleWord(t);
      forall k | 0 <= k < |t| ensures TitleWord(t)[k] == TitleCharAt(t, k) {
        TitleWordAt(t, k);
      }
    } else {
      var t' := t[i + 1..];
      assert t == w + [' '] + t';
      SplitOfWordThenSpace(w, t');
      JoinTitleWordsIsTitleCase(t');
      var rest := JoinSpace(TitleWords(SplitSpace(t')));
      assert TitleWords(SplitSpace(t)) == [TitleWord(w)] + TitleWords(SplitSpace(t'));
      assert JoinSpace(TitleWords(SplitSpace(t))) == TitleWord(w) + [' '] + rest;
      TitleCaseOfCons(t, i, rest);
    }
  }

  /** Title casing `t` is title casing its first word, a space, and title casing what follows the space. */
  lemma TitleCaseOfCons(t: string, i: nat, rest: string)
    requires i < |t| && t[i] == ' ' && ' ' !in t[..i] && IsTitleCaseOf(rest, t[i + 1..])
    ensures IsTitleCaseOf(TitleWord(t[..i]) + [' '] + rest, t)
  {
    var w := t[..i];
    var r := TitleWord(w) + [' '] + rest;
    TitleWordLength(w);
    forall k | 0 <= k < |t|
      ensures r[k] == TitleCharAt(t, k)
    {
      if k > i {
        TitleCharShift(t, t[i + 1..], i, k);
        assert r[k] == rest[k - i - 1];
      } else if k == i {
        CaseMapsKeepClasses(' ');
      } else {
        TitleWordAt(w, k);
        assert w[k] == t[k];
        assert k > 0 ==> w[k - 1] == t[k - 1] && t[k - 1] != ' ';
      }
    }
  }

  lemma TitleWordLength(w: string)
    ensures |TitleWord(w)| == |w|
  {
  }

  lemma TitleCharShift(t: string, t': string, i: nat, k: nat)
    requires i < k < |t| && t[i] == ' ' && t' == t[i + 1..]
    ensures TitleCharAt(t, k) == TitleCharAt(t', k - i - 1)
  {
  }

  lemma TitleWordIsTitle(w: string)
    requires ' ' !in w
    ensures ' ' !in TitleWord(w) && IsTitleWord(TitleWord(w))
  {
    if w != [] {
      var r := TitleWord(w);
      CaseMapsKeepClasses(w[0]);
      forall k | 1 <= k < |w| ensures r[k] != ' ' && Lower(r[k]) == r[k] {
        assert w[k] in w;
        CaseMapsKeepClasses(w[k]);
      }
    }
  }

  /** `_title_case(s)`: clean, split on single spaces, capitalise each piece, rejoin. */
  function TitleCase(s: string): (r: string)
    ensures IsTitleCaseOf(r, CleanText(s))
    ensures |SplitSpace(r)| == |SplitSpace(CleanText(s))|
    ensures forall i :: 0 <= i < |SplitSpace(r)| ==> IsTitleWord(SplitSpace(r)[i])
  {
    var ws := SplitSpace(CleanText(s));
    var ts := TitleWords(ws);
    JoinTitleWordsIsTitleCase(CleanText(s));
    forall i | 0 <= i < |ts| ensures ' ' !in ts[i] && IsTitleWord(ts[i]) {
      TitleWordIsTitle(ws[i]);
    }
    SplitOfJoin(ts);
    JoinSpace(ts)
  }

  lemma TitleCharKeepsClasses(t: string, k: nat)
    requires k < |t|
    ensures var d := TitleCharAt(t, k);
      && (d == ' ') == (t[k] == ' ') && IsSpace(d) == IsSpace(t[k]) && Lower(d) == Lower(t[k])
      && IsWordChar(d) == IsWordChar(t[k]) && IsLetter(d) == IsLetter(t[k])
  {
    CaseMapsKeepClasses(t[k]);
  }

  /** A character-level title casing of a cleaned text is itself clean and differs from it only in case. */
  lemma TitleCaseOfClean(r: string, t: string)
    requires IsClean(t) && IsTitleCaseOf(r, t)
    ensures IsClean(r) && LowerAll(r) == LowerAll(t)
    ensures forall k :: 0 <= k < |r| ==> (r[k] == ' ') == (t[k] == ' ')
    ensures forall k :: 0 <= k < |r| ==> IsWordChar(r[k]) == IsWordChar(t[k]) && IsLetter(r[k]) == IsLetter(t[k])
  {
    forall k | 0 <= k < |r|
      ensures (r[k] == ' ') == (t[k] == ' ') && IsSpace(r[k]) == IsSpace(t[k]) && Lower(r[k]) == Lower(t[k])
      ensures IsWordChar(r[k]) == IsWordChar(t[k]) && IsLetter(r[k]) == IsLetter(t[k])
    {
      TitleCharKeepsClasses(t, k);
    }
    assert LowerAll(r) == LowerAll(t);
  }

  /** `_title_case` only changes letter case: it lower-cases to the same text as `_clean_text`. */
  lemma TitleCaseOnlyChangesCase(s: string)
    ensures IsClean(TitleCase(s))
    ensures LowerAll(TitleCase(s)) == LowerAll(CleanText(s))
  {
    TitleCaseOfClean(TitleCase(s), CleanText(s));
  }

  lemma RetitleChar(r2: string, r: string, t: string, k: nat)
    requires IsTitleCaseOf(r2, r) && IsTitleCaseOf(r, t) && k < |t|
    requires forall j :: 0 <= j < |r| ==> (r[j] == ' ') == (t[j] == ' ')
    ensures r2[k] == r[k]
  {
    CaseMapsKeepClasses(t[k]);
    assert r2[k] == TitleCharAt(r, k) && r[k] == TitleCharAt(t, k);
    if k > 0 {
      assert (r[k - 1] == ' ') == (t[k - 1] == ' ');
    }
  }

  /** Title casing a title-cased clean text again changes nothing. */
  lemma RetitleIsIdentity(r2: string, r: string, t: string)
    requires IsClean(t) && IsTitleCaseOf(r, t) && IsTitleCaseOf(r2, r)
    ensures r2 == r
  {
    TitleCaseOfClean(r, t);
    forall k | 0 <= k < |r| ensures r2[k] == r[k] {
      RetitleChar(r2, r, t, k);
    }
  }

  /** Applying `_title_case` twice gives the same result as applying it once. */
  lemma TitleCaseIdempotent(s: string)
    ensures TitleCase(TitleCase(s)) == TitleCase(s)
  {
    var r := TitleCase(s);
    TitleCaseOnlyChangesCase(s);
    CleanTextKeepsClean(r);
    RetitleIsIdentity(TitleCase(r), r, CleanText(s));
  }
}
