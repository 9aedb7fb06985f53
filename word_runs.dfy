/**
 * The maximal runs of word characters (`\w+`) of a text, lower-cased. A
 * `\b...\b` pattern made of letters can only match one whole run, so these
 * runs are what the stopword split of `_extract_airline` looks at; cleaning
 * and title casing keep them, up to case.
 */
module WordRuns {
  import opened Chars
  import opened Text

  /** The end of the maximal run of word characters from `i`. */
  function WordRunEnd(s: string, i: nat): (e: nat)
    requires i <= |s|
    ensures i <= e <= |s|
    ensures forall k {:trigger IsWordChar(s[k])} :: i <= k < e ==> IsWordChar(s[k])
    ensures e == |s| || !IsWordChar(s[e])
    decreases |s| - i
  {
    if i < |s| && IsWordChar(s[i]) then WordRunEnd(s, i + 1) else i
  }

  /** A run that ends where the word characters stop is the maximal one. */
  lemma RunEndUnique(s: string, i: nat, n: nat)
    requires i <= n <= |s| && (forall k :: i <= k < n ==> IsWordChar(s[k])) && (n == |s| || !IsWordChar(s[n]))
    ensures WordRunEnd(s, i) == n
  {
  }

  /** The lower-cased maximal runs of word characters of `s`, in order. */
  function LRuns(s: string): (rs: seq<string>)
    ensures s != [] && IsWordChar(s[0]) ==> |rs| > 0 && rs[0] == LowerAll(s[..WordRunEnd(s, 0)])
    decreases |s|
  {
    if s == [] then []
    else if !IsWordChar(s[0]) then LRuns(s[1..])
    else
      var e := WordRunEnd(s, 0);
      [LowerAll(s[..e])] + LRuns(s[e..])
  }

  /** Putting one character in front of a text: it is skipped, starts a run, or joins the first run. */
  lemma LRunsCons(c: char, x: string)
    ensures LRuns([c] + x) ==
      if !IsWordChar(c) then LRuns(x)
      else if x != [] && IsWordChar(x[0]) then [[Lower(c)] + LRuns(x)[0]] + LRuns(x)[1..]
      else [[Lower(c)]] + LRuns(x)
  {
    var s := [c] + x;
    assert s[1..] == x;
    if !IsWordChar(c) {
    } else if x != [] && IsWordChar(x[0]) {
      LRunsJoin(c, x);
    } else {
      RunEndUnique(s, 0, 1);
      assert s[..1] == [c];
      assert LowerAll(s[..1]) == [Lower(c)];
      assert LRuns(s) == [LowerAll(s[..1])] + LRuns(s[1..]);
    }
  }

  /** A word character in front of a run joins it. */
  lemma LRunsJoin(c: char, x: string)
    requires IsWordChar(c) && x != [] && IsWordChar(x[0])
    ensures LRuns([c] + x) == [[Lower(c)] + LRuns(x)[0]] + LRuns(x)[1..]
  {
    var s := [c] + x;
    var e' := WordRunEnd(x, 0);
    RunEndUnique(s, 0, e' + 1);
    assert s[..e' + 1] == [c] + x[..e'];
    assert s[e' + 1..] == x[e'..];
    LowerAllCons(c, x[..e']);
    LRunsOfWordStart(s);
    LRunsOfWordStart(x);
  }

  /** A text starting with a word character: its first run, then the runs after it. */
  lemma LRunsOfWordStart(s: string)
    requires s != [] && IsWordChar(s[0])
    ensures LRuns(s) == [LowerAll(s[..WordRunEnd(s, 0)])] + LRuns(s[WordRunEnd(s, 0)..])
  {
  }

  lemma LowerAllCons(c: char, t: string)
    ensures LowerAll([c] + t) == [Lower(c)] + LowerAll(t)
  {
  }

  lemma {:induction false} LRunsOfTrimStart(s: string)
    ensures LRuns(TrimStart(s)) == LRuns(s)
  {
    if s != [] && IsSpace(s[0]) {
      CaseMapsKeepClasses(s[0]);
      LRunsOfTrimStart(s[1..]);
    }
  }

  lemma {:induction false} LRunsOfAllSpace(s: string)
    requires AllSpace(s)
    ensures LRuns(s) == []
  {
    if s != [] {
      CaseMapsKeepClasses(s[0]);
      LRunsOfAllSpace(s[1..]);
    }
  }

  lemma {:induction false} LRunsOfTrimEnd(s: string)
    ensures LRuns(TrimEnd(s)) == LRuns(s)
  {
    if AllSpace(s) {
      LRunsOfAllSpace(s);
    } else {
      var t := TrimEnd(s[1..]);
      LRunsOfTrimEnd(s[1..]);
      LRunsCons(s[0], t);
      LRunsCons(s[0], s[1..]);
      assert [s[0]] + s[1..] == s;
      if t == [] && |s| > 1 {
        assert IsSpace(s[1]);
        CaseMapsKeepClasses(s[1]);
      }
      if t != [] {
        assert t[0] == s[1];
      }
    }
  }

  /** `str.strip()` keeps the word runs. */
  lemma LRunsOfStrip(s: string)
    ensures LRuns(Strip(s)) == LRuns(s)
  {
    LRunsOfTrimStart(s);
    LRunsOfTrimEnd(TrimStart(s));
  }

  lemma {:induction false} LRunsOfCollapse(s: string)
    ensures LRuns(Collapse(s)) == LRuns(s)
    decreases |s|
  {
    if s == [] {
    } else if IsSpace(s[0]) {
      var c := Collapse(TrimStart(s));
      CaseMapsKeepClasses(' ');
      LRunsCons(' ', c);
      LRunsOfCollapse(TrimStart(s));
      LRunsOfTrimStart(s);
    } else {
      var c := Collapse(s[1..]);
      LRunsCons(s[0], c);
      LRunsCons(s[0], s[1..]);
      assert [s[0]] + s[1..] == s;
      LRunsOfCollapse(s[1..]);
      if |s| > 1 {
        CaseMapsKeepClasses(s[1]);
        CaseMapsKeepClasses(c[0]);
      }
    }
  }

  /** `_clean_text` keeps the word runs. */
  lemma LRunsOfCleanText(s: string)
    ensures LRuns(CleanText(s)) == LRuns(s)
  {
    LRunsOfStrip(s);
    LRunsOfCollapse(Strip(s));
  }

  /** Texts equal up to case have the same word-run ends. */
  lemma {:induction false} SameRunEnd(a: string, b: string, i: nat)
    requires i <= |a| && LowerAll(a) == LowerAll(b)
    ensures WordRunEnd(a, i) == WordRunEnd(b, i)
    decreases |a| - i
  {
    if i < |a| {
      assert LowerAll(a)[i] == LowerAll(b)[i];
      assert Lower(a[i]) == Lower(b[i]);
      CaseMapsKeepClasses(a[i]);
      CaseMapsKeepClasses(b[i]);
      SameRunEnd(a, b, i + 1);
    }
  }

  /** Texts equal up to case have the same lower-cased word runs. */
  lemma {:induction false} LRunsOfRecase(a: string, b: string)
    requires LowerAll(a) == LowerAll(b)
    ensures LRuns(a) == LRuns(b)
    decreases |a|
  {
    if a != [] {
      assert LowerAll(a)[0] == LowerAll(b)[0];
      assert Lower(a[0]) == Lower(b[0]);
      CaseMapsKeepClasses(a[0]);
      CaseMapsKeepClasses(b[0]);
      if !IsWordChar(a[0]) {
        assert LowerAll(a[1..]) == LowerAll(a)[1..];
        assert LowerAll(b[1..]) == LowerAll(b)[1..];
        LRunsOfRecase(a[1..], b[1..]);
      } else {
        SameRunEnd(a, b, 0);
        var e := WordRunEnd(a, 0);
        assert LowerAll(a[..e]) == LowerAll(a)[..e];
        assert LowerAll(b[..e]) == LowerAll(b)[..e];
        assert LowerAll(a[e..]) == LowerAll(a)[e..];
        assert LowerAll(b[e..]) == LowerAll(b)[e..];
        LRunsOfRecase(a[e..], b[e..]);
      }
    }
  }

  /** From a position not preceded by a word character, the runs are a tail of all the runs. */
  lemma {:induction false} LRunsSuffix(t: string, k: nat)
    requires k <= |t| && (k == 0 || !IsWordChar(t[k - 1]))
    ensures |LRuns(t[k..])| <= |LRuns(t)| && LRuns(t)[|LRuns(t)| - |LRuns(t[k..])|..] == LRuns(t[k..])
    decreases |t|
  {
    if k > 0 {
      if !IsWordChar(t[0]) {
        assert t[1..][k - 1..] == t[k..];
        LRunsSuffix(t[1..], k - 1);
      } else {
        var e := WordRunEnd(t, 0);
        assert e < k;
        assert t[e..][k - e..] == t[k..];
        LRunsSuffix(t[e..], k - e);
      }
    }
  }
}
