/**
 * `_extract_date_and_remove` of nlp_parser.py: find one date, numeric
 * `d-m-yyyy` first and the Spanish `D de <mes>[ de YYYY]` form second, and
 * cut its span out of the message.
 */
module DateExtraction {
  import opened Wrappers
  import opened Chars
  import opened Text
  import opened Lexicon

  /** A match of `\b(\d{1,2})-(\d{1,2})-(\d{4})\b` spanning `[start, end)`. */
  datatype NumericMatch = NumericMatch(start: nat, end: nat, day: string, month: string, year: string)

  /**
   * A match of the Spanish pattern; `monthText` is the month as written,
   * before `.lower()`, starting at `monthStart`, and `monthIndex` the
   * alternative of `_MONTHS` it matched.
   */
  datatype SpanishMatch =
    SpanishMatch(start: nat, end: nat, day: string, monthStart: nat, monthText: string, monthIndex: nat, year: Option<string>)

  /** The value both halves of the source return: the raw date text (or None) and the remaining message. */
  datatype DateResult = DateResult(date: Option<string>, text: string)

  /**
   * `m` spells a match of `\b(\d{1,2})-(\d{1,2})-(\d{4})\b`: a word
   * boundary, one or two digits, a dash, one or two digits, a dash, four
   * digits and a word boundary.
   */
  predicate ValidNumeric(s: string, m: NumericMatch) {
    && 1 <= |m.day| <= 2 && 1 <= |m.month| <= 2 && |m.year| == 4
    && AllDigits(m.day) && AllDigits(m.month) && AllDigits(m.year)
    && m.end == m.start + |m.day| + |m.month| + 6 && m.end <= |s|
    && s[m.start..m.end] == m.day + "-" + m.month + "-" + m.year
    && BoundaryAt(s, m.start) && BoundaryAt(s, m.end)
  }

  /** The numeric pattern tried at position `i`. */
  function NumericAt(s: string, i: nat): (r: Option<NumericMatch>)
    requires i <= |s|
    ensures r.Some? ==> r.value.start == i && ValidNumeric(s, r.value)
  {
    if !BoundaryAt(s, i) then None
    else
      var n1 := DigitsThen(s, i, true);
      if n1 == 0 then None
      else
        var j := i + n1 + 1;
        var n2 := DigitsThen(s, j, true);
        if n2 == 0 then None
        else
          var k := j + n2 + 1;
          if k + 4 <= |s| && AllDigits(s[k..k + 4]) && BoundaryAt(s, k + 4) then
            var m := NumericMatch(i, k + 4, s[i..i + n1], s[j..j + n2], s[k..k + 4]);
            DashedSlices(s, i, j, k);
            Some(m)
          else None
  }

  /** Every match the numeric pattern allows at a position is the one `NumericAt` finds there. */
  lemma NumericAtComplete(s: string, m: NumericMatch)
    requires ValidNumeric(s, m)
    ensures NumericAt(s, m.start) == Some(m)
  {
    var i, n1, n2 := m.start, |m.day|, |m.month|;
    var j := i + n1 + 1;
    var k := j + n2 + 1;
    DashedFields(s, m);
    DigitsBeforeDash(s, i, m.day);
    DigitsBeforeDash(s, j, m.month);
  }

  /** Where the three fields and the two dashes of a numeric match lie in `s`. */
  lemma DashedFields(s: string, m: NumericMatch)
    requires ValidNumeric(s, m)
    ensures var j := m.start + |m.day| + 1; var k := j + |m.month| + 1;
      && s[m.start..j - 1] == m.day && s[j - 1] == '-'
      && s[j..k - 1] == m.month && s[k - 1] == '-'
      && s[k..k + 4] == m.year
  {
    var j := m.start + |m.day| + 1;
    var k := j + |m.month| + 1;
    var t := s[m.start..m.end];
    DashedParts(t, m.day, m.month, m.year);
    SliceOfSlice(s, m.start, m.end, 0, |m.day|);
    SliceOfSlice(s, m.start, m.end, |m.day| + 1, |m.day| + 1 + |m.month|);
    SliceOfSlice(s, m.start, m.end, |m.day| + |m.month| + 2, |t|);
    assert s[j - 1] == t[|m.day|] && s[k - 1] == t[|m.day| + 1 + |m.month|];
  }

  /** One or two digits followed by a dash are what `DigitsThen` reads. */
  lemma DigitsBeforeDash(s: string, i: nat, d: string)
    requires 1 <= |d| <= 2 && AllDigits(d) && i + |d| < |s| && s[i..i + |d|] == d && s[i + |d|] == '-'
    ensures DigitsThen(s, i, true) == |d|
  {
    assert s[i] == d[0];
    if |d| == 2 {
      assert s[i + 1] == d[1];
    }
  }

  /** `re.search` with the numeric pattern from position `from`: the leftmost match. */
  function SearchNumeric(s: string, from: nat): (r: Option<NumericMatch>)
    requires from <= |s|
    ensures r.Some? ==> from <= r.value.start <= |s| && NumericAt(s, r.value.start) == r
    ensures forall j :: from <= j <= |s| && (r.None? || j < r.value.start) ==> NumericAt(s, j).None?
    decreases |s| - from
  {
    var here := NumericAt(s, from);
    if here.Some? then here
    else if from == |s| then None
    else SearchNumeric(s, from + 1)
  }

  /** `s[a..b]` fully matches `\s+de\s+` under `re.IGNORECASE`: whitespace from `a`, `de`, whitespace up to `b`. */
  predicate SpacedDe(s: string, a: nat, b: nat) {
    a <= |s| && var p := SpaceRunEnd(s, a);
    a < p && MatchesCI(s, p, "de") && p + 2 < b <= |s| && Spaces(s, p + 2, b)
  }

  /** `s[e..end]` is what `(?:\s+de\s+(\d{4}))?` matched, capturing `y`: nothing, or the clause with its year. */
  predicate YearPart(s: string, e: nat, end: nat, y: Option<string>) {
    && (y.None? ==> end == e)
    && (y.Some? ==> |y.value| == 4 && AllDigits(y.value) && e + 4 < end <= |s|
                    && SpacedDe(s, e, end - 4) && s[end - 4..end] == y.value)
  }

  /** Every alternative is a non-empty word of lower-case letters, as every month of `_MONTHS` is. */
  predicate LowerWords(ms: seq<string>) {
    forall j :: 0 <= j < |ms| ==> ms[j] != [] && forall k :: 0 <= k < |ms[j]| ==> IsLowerLetter(ms[j][k])
  }

  lemma MonthsAreLowerWords()
    ensures LowerWords(Months)
  {
  }

  /**
   * `m` spells a match of `\b(\d{1,2})\s+de\s+(<months>)(?:\s+de\s+(\d{4}))?\b`
   * under `re.IGNORECASE`, with the month alternatives `ms`.
   */
  predicate ValidSpanish(s: string, ms: seq<string>, m: SpanishMatch) {
    && m.start <= |s| && BoundaryAt(s, m.start)
    && 1 <= |m.day| <= 2 && AllDigits(m.day) && m.start + |m.day| <= |s| && s[m.start..m.start + |m.day|] == m.day
    && SpacedDe(s, m.start + |m.day|, m.monthStart)
    && m.monthIndex < |ms| && |m.monthText| == |ms[m.monthIndex]| && MatchesCI(s, m.monthStart, ms[m.monthIndex])
    && m.monthText == s[m.monthStart..m.monthStart + |m.monthText|]
    && YearPart(s, m.monthStart + |m.monthText|, m.end, m.year)
    && m.end <= |s| && BoundaryAt(s, m.end)
  }

  /** `\s+de\s+` under `re.IGNORECASE` from `a`: the position just after it. */
  function DeAfter(s: string, a: nat): (r: Option<nat>)
    requires a <= |s|
    ensures r.Some? ==> a < r.value <= |s| && SpacedDe(s, a, r.value) && (r.value == |s| || !IsSpace(s[r.value]))
  {
    if a < |s| && IsSpace(s[a]) then
      var p := SpaceRunEnd(s, a);
      if MatchesCI(s, p, "de") && p + 2 < |s| && IsSpace(s[p + 2]) then Some(SpaceRunEnd(s, p + 2)) else None
    else None
  }

  /** The greedy connector ends where the whitespace after `de` ends. */
  lemma DeAfterComplete(s: string, a: nat, b: nat)
    requires SpacedDe(s, a, b) && b < |s| && !IsSpace(s[b])
    ensures DeAfter(s, a) == Some(b)
  {
    var p := SpaceRunEnd(s, a);
    assert IsSpace(s[a]) && IsSpace(s[p + 2]);
    SpaceRunEndAt(s, p + 2, b);
  }

  /** `(?:\s+de\s+(\d{4}))` at `e`: the start of the four year digits, if the clause matches. */
  function YearClause(s: string, e: nat): (r: Option<nat>)
    requires e <= |s|
    ensures r.Some? ==> e < r.value && r.value + 4 <= |s| && AllDigits(s[r.value..r.value + 4]) && SpacedDe(s, e, r.value)
  {
    match DeAfter(s, e)
    case Some(q) => if q + 4 <= |s| && AllDigits(s[q..q + 4]) then Some(q) else None
    case None => None
  }

  /**
   * `(?:\s+de\s+(\d{4}))?\b` after a month name ending at `e`: the optional
   * year clause is tried first, and dropped again when no word boundary
   * follows the year. Gives the end of the match and the captured year.
   */
  function AfterMonth(s: string, e: nat): (r: Option<(nat, Option<string>)>)
    requires e <= |s|
    ensures r.Some? ==> r.value.0 <= |s| && BoundaryAt(s, r.value.0) && YearPart(s, e, r.value.0, r.value.1)
  {
    var y := YearClause(s, e);
    if y.Some? && BoundaryAt(s, y.value + 4) then Some((y.value + 4, Some(s[y.value..y.value + 4])))
    else if BoundaryAt(s, e) then Some((e, None))
    else None
  }

  /**
   * The optional part matches whenever some way of matching it does, and the
   * greedy `?` keeps the year whenever a year clause followed by `\b` is there.
   */
  lemma AfterMonthComplete(s: string, e: nat, end: nat, y: Option<string>)
    requires e <= end <= |s| && YearPart(s, e, end, y) && BoundaryAt(s, end)
    ensures AfterMonth(s, e).Some?
    ensures y.Some? ==> AfterMonth(s, e) == Some((end, y))
  {
    if y.Some? {
      assert IsDigit(s[end - 4]) by { assert s[end - 4] == y.value[0]; }
      CaseMapsKeepClasses(s[end - 4]);
      DeAfterComplete(s, e, end - 4);
      assert YearClause(s, e) == Some(end - 4);
    }
  }

  /** `m` is a Spanish match at `i` with `n` day digits and the month, one of the alternatives `ms`, starting at `q`. */
  predicate MonthMatch(s: string, i: nat, n: nat, q: nat, ms: seq<string>, m: SpanishMatch)
    requires i + n <= q <= |s|
  {
    && m.start == i && m.monthStart == q && m.day == s[i..i + n]
    && m.monthIndex < |ms| && |m.monthText| == |ms[m.monthIndex]| && MatchesCI(s, q, ms[m.monthIndex])
    && q + |m.monthText| <= |s| && m.monthText == s[q..q + |m.monthText|]
    && m.end <= |s| && BoundaryAt(s, m.end) && YearPart(s, q + |m.monthText|, m.end, m.year)
  }

  /** The month alternatives `ms` (`_MONTHS` in the pattern) tried in order from the `k`-th, at position `q`. */
  function MonthFrom(s: string, i: nat, n: nat, q: nat, ms: seq<string>, k: nat): (r: Option<SpanishMatch>)
    requires i + n <= q <= |s|
    ensures r.Some? ==> r.value.start == i && r.value.monthStart == q && k <= r.value.monthIndex < |ms|
    decreases |ms| - k
  {
    if k >= |ms| then None
    else if MatchesCI(s, q, ms[k]) then
      match AfterMonth(s, q + |ms[k]|)
      case Some((end, y)) => Some(SpanishMatch(i, end, s[i..i + n], q, s[q..q + |ms[k]|], k, y))
      case None => MonthFrom(s, i, n, q, ms, k + 1)
    else MonthFrom(s, i, n, q, ms, k + 1)
  }

  /** Whatever month the alternation takes matches at `q` and is followed by the year clause and a boundary. */
  lemma {:induction false} MonthFromSound(s: string, i: nat, n: nat, q: nat, ms: seq<string>, k: nat)
    requires i + n <= q <= |s|
    ensures var r := MonthFrom(s, i, n, q, ms, k); r.Some? ==> MonthMatch(s, i, n, q, ms, r.value)
    decreases |ms| - k
  {
    if k < |ms| {
      MonthFromStep(s, i, n, q, ms, k);
      var a := if MatchesCI(s, q, ms[k]) then AfterMonth(s, q + |ms[k]|) else None;
      if a.Some? {
        MonthHit(s, i, n, q, ms, k, a.value.0, a.value.1);
      } else {
        MonthFromSound(s, i, n, q, ms, k + 1);
      }
    }
  }

  /** The `k`-th month matching at `q`, followed by the year clause and a boundary, makes a month match. */
  lemma MonthHit(s: string, i: nat, n: nat, q: nat, ms: seq<string>, k: nat, end: nat, y: Option<string>)
    requires i + n <= q <= |s| && k < |ms| && MatchesCI(s, q, ms[k])
    requires AfterMonth(s, q + |ms[k]|) == Some((end, y))
    ensures MonthMatch(s, i, n, q, ms, SpanishMatch(i, end, s[i..i + n], q, s[q..q + |ms[k]|], k, y))
  {
  }

  /**
   * Tried from the `k`-th alternative on, the alternation finds a month
   * wherever a Spanish match `m` has one: it takes the first alternative the
   * rest of the pattern can follow, at the latest that of `m`, and with that
   * one it keeps a year that is there.
   */
  lemma MonthFromComplete(s: string, ms: seq<string>, m: SpanishMatch, k: nat)
    requires ValidSpanish(s, ms, m) && m.start + |m.day| <= m.monthStart && k <= m.monthIndex
    ensures var r := MonthFrom(s, m.start, |m.day|, m.monthStart, ms, k);
      && r.Some? && r.value.monthIndex <= m.monthIndex
      && (r.value.monthIndex == m.monthIndex && m.year.Some? ==> r.value.end == m.end && r.value.year == m.year)
  {
    var i, n, q, j := m.start, |m.day|, m.monthStart, m.monthIndex;
    AfterMonthComplete(s, q + |ms[j]|, m.end, m.year);
    MonthFromStep(s, i, n, q, ms, j);
    MonthFromFinds(s, i, n, q, ms, k, j);
  }

  /** Induction over the alternatives: the first one from `k` on that matches with its rest is taken, at the latest the `j`-th. */
  lemma {:induction false} MonthFromFinds(s: string, i: nat, n: nat, q: nat, ms: seq<string>, k: nat, j: nat)
    requires i + n <= q <= |s| && k <= j < |ms|
    requires MonthFrom(s, i, n, q, ms, j).Some? && MonthFrom(s, i, n, q, ms, j).value.monthIndex == j
    ensures var r := MonthFrom(s, i, n, q, ms, k);
      && r.Some? && r.value.monthIndex <= j
      && (r.value.monthIndex == j ==> r == MonthFrom(s, i, n, q, ms, j))
    decreases j - k
  {
    if k < j {
      MonthFromCases(s, i, n, q, ms, k);
      if MonthFrom(s, i, n, q, ms, k) == MonthFrom(s, i, n, q, ms, k + 1) {
        MonthFromFinds(s, i, n, q, ms, k + 1, j);
      }
    }
  }

  /** The alternation either takes the `k`-th month or goes on as from the next one. */
  lemma MonthFromCases(s: string, i: nat, n: nat, q: nat, ms: seq<string>, k: nat)
    requires i + n <= q <= |s| && k < |ms|
    ensures var r := MonthFrom(s, i, n, q, ms, k);
      r == MonthFrom(s, i, n, q, ms, k + 1) || (r.Some? && r.value.monthIndex == k)
  {
    MonthFromStep(s, i, n, q, ms, k);
  }

  /** One step of the alternation: the `k`-th month is taken when it and the rest match, else the next one is tried. */
  lemma MonthFromStep(s: string, i: nat, n: nat, q: nat, ms: seq<string>, k: nat)
    requires i + n <= q <= |s| && k < |ms|
    ensures var a := if MatchesCI(s, q, ms[k]) then AfterMonth(s, q + |ms[k]|) else None;
      var r := MonthFrom(s, i, n, q, ms, k);
      && (a.Some? ==> r.Some? && r.value.monthIndex == k && r.value.end == a.value.0 && r.value.year == a.value.1)
      && (a.None? ==> r == MonthFrom(s, i, n, q, ms, k + 1))
  {
  }

  /** The Spanish pattern `\b(\d{1,2})\s+de\s+(<months>)(?:\s+de\s+(\d{4}))?\b`, case-insensitive, at `i`, with the month alternatives `ms`. */
  function SpanishAt(s: string, i: nat, ms: seq<string>): (r: Option<SpanishMatch>)
    requires i <= |s|
    ensures r.Some? ==> r.value.start == i && ValidSpanish(s, ms, r.value)
  {
    if !BoundaryAt(s, i) then None
    else
      var n := DigitsThen(s, i, false);
      if n == 0 then None
      else
        match DeAfter(s, i + n)
        case None => None
        case Some(q) =>
          var r := MonthFrom(s, i, n, q, ms, 0);
          if r.Some? then
            MonthFromSound(s, i, n, q, ms, 0);
            SpanishSound(s, i, n, q, ms, r.value);
            r
          else r
  }

  /** A month match after `\b`, the day digits and `\s+de\s+` is a Spanish match. */
  lemma SpanishSound(s: string, i: nat, n: nat, q: nat, ms: seq<string>, m: SpanishMatch)
    requires i <= |s| && BoundaryAt(s, i) && n == DigitsThen(s, i, false) && n > 0
    requires SpacedDe(s, i + n, q) && i + n <= q <= |s| && MonthMatch(s, i, n, q, ms, m)
    ensures ValidSpanish(s, ms, m)
  {
    assert |s[i..i + n]| == n;
  }

  /**
   * Wherever the Spanish pattern can match, `SpanishAt` finds a match at the
   * same place and with the same month position, using the first month
   * alternative that works; with the same alternative it is that match
   * whenever that match has a year, as the greedy `?` prefers the year.
   */
  lemma SpanishAtComplete(s: string, ms: seq<string>, m: SpanishMatch)
    requires LowerWords(ms) && ValidSpanish(s, ms, m)
    ensures var r := SpanishAt(s, m.start, ms);
      && r.Some? && r.value.monthStart == m.monthStart && r.value.monthIndex <= m.monthIndex
      && (r.value.monthIndex == m.monthIndex && m.year.Some? ==> r.value == m)
  {
    SpanishHead(s, ms, m);
    SpanishConnector(s, ms, m);
    SpanishAtFinds(s, ms, m);
    var r := SpanishAt(s, m.start, ms).value;
    if r.monthIndex == m.monthIndex && m.year.Some? {
      SameMonthMatch(s, ms, m, r);
    }
  }

  /** `SpanishAtComplete` once the day digits and the connector of `m` are read. */
  lemma SpanishAtFinds(s: string, ms: seq<string>, m: SpanishMatch)
    requires ValidSpanish(s, ms, m) && DigitsThen(s, m.start, false) == |m.day|
    requires m.start + |m.day| <= |s| && DeAfter(s, m.start + |m.day|) == Some(m.monthStart)
    ensures m.start + |m.day| <= m.monthStart
    ensures var r := SpanishAt(s, m.start, ms);
      && r.Some? && r.value.monthStart == m.monthStart && r.value.monthIndex <= m.monthIndex
      && MonthMatch(s, m.start, |m.day|, m.monthStart, ms, r.value)
      && (r.value.monthIndex == m.monthIndex && m.year.Some? ==> r.value.end == m.end && r.value.year == m.year)
  {
    var i, n, q := m.start, |m.day|, m.monthStart;
    SpanishAtSteps(s, i, n, q, ms);
    MonthFromComplete(s, ms, m, 0);
    MonthFromSound(s, i, n, q, ms, 0);
  }

  /** When each test of `SpanishAt` passes, it tries the months at `q`. */
  lemma SpanishAtSteps(s: string, i: nat, n: nat, q: nat, ms: seq<string>)
    requires i <= |s| && BoundaryAt(s, i) && DigitsThen(s, i, false) == n && n > 0 && DeAfter(s, i + n) == Some(q)
    ensures i + n <= q <= |s| && SpanishAt(s, i, ms) == MonthFrom(s, i, n, q, ms, 0)
  {
  }

  /** The month as written lower-cases to the alternative it matched. */
  lemma MonthTextLowers(s: string, ms: seq<string>, m: SpanishMatch)
    requires ValidSpanish(s, ms, m)
    ensures LowerAll(m.monthText) == ms[m.monthIndex]
  {
    var w := ms[m.monthIndex];
    forall k | 0 <= k < |w|
      ensures LowerAll(m.monthText)[k] == w[k]
    {
      assert m.monthText[k] == s[m.monthStart + k];
    }
  }

  /** A month match with the same alternative, end and year as a Spanish match at the same place is that match. */
  lemma SameMonthMatch(s: string, ms: seq<string>, m: SpanishMatch, r: SpanishMatch)
    requires ValidSpanish(s, ms, m) && m.start + |m.day| <= m.monthStart
    requires MonthMatch(s, m.start, |m.day|, m.monthStart, ms, r)
    requires r.monthIndex == m.monthIndex && r.end == m.end && r.year == m.year
    ensures r == m
  {
  }

  /** The day digits of a Spanish match are what `SpanishAt` reads. */
  lemma SpanishHead(s: string, ms: seq<string>, m: SpanishMatch)
    requires ValidSpanish(s, ms, m)
    ensures DigitsThen(s, m.start, false) == |m.day|
  {
    var i := m.start;
    assert s[i] == m.day[0];
    CaseMapsKeepClasses(s[i + |m.day|]);
    if |m.day| == 2 {
      assert s[i + 1] == m.day[1];
    }
  }

  /** The `\s+de\s+` of a Spanish match is what `SpanishAt` reads, up to the month. */
  lemma SpanishConnector(s: string, ms: seq<string>, m: SpanishMatch)
    requires LowerWords(ms) && ValidSpanish(s, ms, m)
    ensures m.start + |m.day| <= |s| && DeAfter(s, m.start + |m.day|) == Some(m.monthStart)
  {
    MonthStartsWord(s, m.monthStart, ms[m.monthIndex]);
    DeAfterComplete(s, m.start + |m.day|, m.monthStart);
  }

  /** A case-insensitive match of a lower-case word starts with a letter, which is not whitespace. */
  lemma MonthStartsWord(s: string, q: nat, w: string)
    requires w != [] && IsLowerLetter(w[0]) && MatchesCI(s, q, w)
    ensures q < |s| && !IsSpace(s[q])
  {
    assert Lower(s[q + 0]) == w[0];
    CaseMapsKeepClasses(s[q]);
  }

  /** `re.search` with the Spanish pattern from position `from`: the leftmost match. */
  function SearchSpanish(s: string, from: nat, ms: seq<string>): (r: Option<SpanishMatch>)
    requires from <= |s|
    ensures r.Some? ==> from <= r.value.start <= |s| && SpanishAt(s, r.value.start, ms) == r
    ensures forall j :: from <= j <= |s| && (r.None? || j < r.value.start) ==> SpanishAt(s, j, ms).None?
    decreases |s| - from
  {
    var here := SpanishAt(s, from, ms);
    if here.Some? then here
    else if from == |s| then None
    else SearchSpanish(s, from + 1, ms)
  }

  /**
   * `re.search` with the numeric pattern reports `m` exactly when `m` is a
   * match of the pattern and no match of it starts earlier.
   */
  lemma SearchNumericLeftmost(s: string, m: NumericMatch)
    ensures SearchNumeric(s, 0) == Some(m) <==> ValidNumeric(s, m) && forall m' :: ValidNumeric(s, m') ==> m.start <= m'.start
  {
    if SearchNumeric(s, 0) == Some(m) {
      forall m' | ValidNumeric(s, m')
        ensures m.start <= m'.start
      {
        NumericAtComplete(s, m');
      }
    }
    if ValidNumeric(s, m) && forall m' :: ValidNumeric(s, m') ==> m.start <= m'.start {
      NumericAtComplete(s, m);
    }
  }

  /** The numeric search finds nothing exactly when the pattern matches nowhere. */
  lemma SearchNumericNone(s: string)
    ensures SearchNumeric(s, 0).None? <==> forall m :: !ValidNumeric(s, m)
  {
    if exists m :: ValidNumeric(s, m) {
      var m :| ValidNumeric(s, m);
      NumericAtComplete(s, m);
    }
  }

  /**
   * `re.search` with the Spanish pattern finds nothing exactly when the
   * pattern matches nowhere; otherwise its match starts at the leftmost
   * place the pattern matches, and there it is what `SpanishAtComplete`
   * says the pattern picks.
   */
  lemma SearchSpanishLeftmost(s: string, ms: seq<string>)
    requires LowerWords(ms)
    ensures SearchSpanish(s, 0, ms).None? <==> forall m :: !ValidSpanish(s, ms, m)
    ensures SearchSpanish(s, 0, ms).Some? ==> var r := SearchSpanish(s, 0, ms).value;
      && ValidSpanish(s, ms, r)
      && forall m :: ValidSpanish(s, ms, m) ==>
           && r.start <= m.start
           && (m.start == r.start ==> r.monthStart == m.monthStart && r.monthIndex <= m.monthIndex)
           && (m.start == r.start && r.monthIndex == m.monthIndex && m.year.Some? ==> r == m)
  {
    forall m | ValidSpanish(s, ms, m)
      ensures SearchSpanish(s, 0, ms).Some? && SearchSpanish(s, 0, ms).value.start <= m.start
      ensures m.start == SearchSpanish(s, 0, ms).value.start ==> SpanishAt(s, m.start, ms) == SearchSpanish(s, 0, ms)
    {
      SpanishAtComplete(s, ms, m);
    }
    forall m | ValidSpanish(s, ms, m)
      ensures var r := SearchSpanish(s, 0, ms).value;
        && (m.start == r.start ==> r.monthStart == m.monthStart && r.monthIndex <= m.monthIndex)
        && (m.start == r.start && r.monthIndex == m.monthIndex && m.year.Some? ==> r == m)
    {
      SpanishAtComplete(s, ms, m);
    }
  }

  /** `f"{day} de {month}" + (f" de {year}" if year else "")` with the month lower-cased. */
  function SpanishDateText(m: SpanishMatch): string {
    m.day + " de " + LowerAll(m.monthText) + (if m.year.Some? then " de " + m.year.value else "")
  }

  /** `msg[:start] + " " + msg[end:]`, re-cleaned. */
  function CutSpan(msg: string, start: nat, end: nat): string
    requires start <= end <= |msg|
  {
    CleanText(msg[..start] + " " + msg[end..])
  }

  /** `_extract_date_and_remove(msg)`. */
  function ExtractDateAndRemove(msg: string): (r: DateResult)
    ensures r.date.None? <==> SearchNumeric(msg, 0).None? && SearchSpanish(msg, 0, Months).None?
    ensures r.date.None? ==> r.text == msg
    ensures SearchNumeric(msg, 0).Some? ==>
      var m := SearchNumeric(msg, 0).value;
      && r.date == Some(msg[m.start..m.end])
      && r.text == CutSpan(msg, m.start, m.end)
      && Words(r.text) == Words(msg[..m.start]) + Words(msg[m.end..])
    ensures SearchNumeric(msg, 0).None? && SearchSpanish(msg, 0, Months).Some? ==>
      var m := SearchSpanish(msg, 0, Months).value;
      && r.date == Some(m.day + " de " + LowerAll(m.monthText) + (if m.year.Some? then " de " + m.year.value else ""))
      && m.monthIndex < |Months| && LowerAll(m.monthText) == Months[m.monthIndex]
      && r.text == CutSpan(msg, m.start, m.end)
      && Words(r.text) == Words(msg[..m.start]) + Words(msg[m.end..])
  {
    match SearchNumeric(msg, 0)
    case Some(m) =>
      WordsAroundSpace(msg[..m.start], msg[m.end..]);
      DateResult(Some(m.day + "-" + m.month + "-" + m.year), CutSpan(msg, m.start, m.end))
    case None =>
      match SearchSpanish(msg, 0, Months)
      case None => DateResult(None, msg)
      case Some(m) =>
        WordsAroundSpace(msg[..m.start], msg[m.end..]);
        MonthTextLowers(msg, Months, m);
        DateResult(Some(SpanishDateText(m)), CutSpan(msg, m.start, m.end))
  }

  /** A date is taken out exactly when the numeric or the Spanish pattern matches somewhere in the message. */
  lemma DateFoundIffPattern(msg: string)
    ensures ExtractDateAndRemove(msg).date.None? <==>
      (forall m :: !ValidNumeric(msg, m)) && (forall m :: !ValidSpanish(msg, Months, m))
  {
    SearchNumericNone(msg);
    MonthsAreLowerWords();
    SearchSpanishLeftmost(msg, Months);
  }

  /** Joining two texts with a space joins their word lists. */
  lemma {:induction false} WordsAroundSpace(a: string, b: string)
    ensures Words(a + " " + b) == Words(a) + Words(b)
  {
    if a == [] {
      assert (a + " " + b)[1..] == b;
    } else {
      var x := a + " " + b;
      assert x[1..] == a[1..] + " " + b;
      WordsAroundSpace(a[1..], b);
      if !IsSpace(a[0]) && |a| > 1 && !IsSpace(a[1]) {
        assert Words(a[1..]) != [];
      }
    }
  }
}
