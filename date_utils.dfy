/**
 * `normalize_date_es` of date_utils.py: canonicalise the parser's raw date
 * text to `dd-mm-yyyy`. The current year, read from the clock by the caller,
 * is the parameter `defaultYear`.
 */
module DateUtils {
  import opened Wrappers
  import opened Chars
  import opened Text
  import opened Numerals
  import Lexicon

  /** `_MONTH_TO_NUM`: both Spanish spellings of September map to 9. */
  const MonthToNum: map<string, nat> :=
    map["enero" := 1, "febrero" := 2, "marzo" := 3, "abril" := 4, "mayo" := 5, "junio" := 6,
        "julio" := 7, "agosto" := 8, "septiembre" := 9, "setiembre" := 9,
        "octubre" := 10, "noviembre" := 11, "diciembre" := 12]

  /** Every month number in the table is a calendar month. */
  lemma MonthNumbersInRange(name: string)
    requires name in MonthToNum
    ensures 1 <= MonthToNum[name] <= 12
  {
  }

  /** The parser's `_MONTHS` alternation and the keys of `_MONTH_TO_NUM` name the same thirteen months. */
  lemma MonthTablesAgree()
    ensures forall j :: 0 <= j < |Lexicon.Months| ==> Lexicon.Months[j] in MonthToNum
    ensures forall name :: name in MonthToNum ==> name in Lexicon.Months
  {
  }

  /** Every key of `_MONTH_TO_NUM` is a non-empty word of lower-case letters, as the Spanish pattern's month group requires. */
  lemma MonthKeysAreLowerWords(name: string)
    requires name in MonthToNum
    ensures name != [] && forall k :: 0 <= k < |name| ==> IsLowerLetter(name[k])
  {
  }

  /** Each alternative of `_MONTHS` is a key of `_MONTH_TO_NUM` that the Spanish pattern's month group can capture. */
  lemma MonthAlternativeIsKey(j: nat)
    requires j < |Lexicon.Months|
    ensures Lexicon.Months[j] in MonthToNum
    ensures Lexicon.Months[j] != [] && forall k :: 0 <= k < |Lexicon.Months[j]| ==> IsLowerLetter(Lexicon.Months[j][k])
  {
    MonthTablesAgree();
    MonthKeysAreLowerWords(Lexicon.Months[j]);
  }

  /** The end of the maximal run of `[a-záéíóúñ]` (lower case only) from `i`. */
  function LowerLetterRunEnd(s: string, i: nat): (e: nat)
    requires i <= |s|
    ensures i <= e <= |s|
    ensures forall k {:trigger IsLowerLetter(s[k])} :: i <= k < e ==> IsLowerLetter(s[k])
    ensures e == |s| || !IsLowerLetter(s[e])
    decreases |s| - i
  {
    if i < |s| && IsLowerLetter(s[i]) then LowerLetterRunEnd(s, i + 1) else i
  }

  /** `re.fullmatch(r"(\d{1,2})-(\d{1,2})-(\d{4})", s)`: the three digit groups. */
  function NumericFull(s: string): (r: Option<(string, string, string)>)
    ensures r.Some? ==> var (d, mo, y) := r.value;
      && 1 <= |d| <= 2 && 1 <= |mo| <= 2 && |y| == 4
      && AllDigits(d) && AllDigits(mo) && AllDigits(y)
      && s == d + "-" + mo + "-" + y
  {
    var n1 := DigitsThen(s, 0, true);
    if n1 == 0 then None
    else
      var j := n1 + 1;
      var n2 := DigitsThen(s, j, true);
      if n2 == 0 then None
      else
        var k := j + n2 + 1;
        if |s| == k + 4 && AllDigits(s[k..]) then
          DashedSlices(s, 0, j, k);
          assert s[0..k + 4] == s;
          Some((s[..n1], s[j..j + n2], s[k..]))
        else None
  }

  /** `s[a..b]` fully matches `\s+de\s+`: whitespace from `a`, then `de`, then whitespace up to `b`. */
  predicate SpacedDe(s: string, a: nat, b: nat) {
    a <= |s| && var p := SpaceRunEnd(s, a);
    a < p && p + 2 < b <= |s| && s[p..p + 2] == "de" && Spaces(s, p + 2, b)
  }

  /** `\s+de\s+` from `i`: the position just after it. */
  function DeFrom(s: string, i: nat): (r: Option<nat>)
    requires i <= |s|
    ensures r.Some? ==> i + 4 <= r.value <= |s| && SpacedDe(s, i, r.value) && (r.value == |s| || !IsSpace(s[r.value]))
  {
    if i < |s| && IsSpace(s[i]) then
      var p := SpaceRunEnd(s, i);
      if p + 2 < |s| && s[p..p + 2] == "de" && IsSpace(s[p + 2]) then Some(SpaceRunEnd(s, p + 2)) else None
    else None
  }

  /** The greedy connector ends where the whitespace after `de` ends. */
  lemma DeFromComplete(s: string, i: nat, q: nat)
    requires SpacedDe(s, i, q) && (q == |s| || !IsSpace(s[q]))
    ensures DeFrom(s, i) == Some(q)
  {
    var p := SpaceRunEnd(s, i);
    assert IsSpace(s[i]) && IsSpace(s[p + 2]);
    if q < |s| {
      SpaceRunEndAt(s, p + 2, q);
    } else {
      SpaceRunEndToEnd(s, p + 2);
    }
  }

  /** A run of whitespace to the end of `s` is taken whole. */
  lemma SpaceRunEndToEnd(s: string, k: nat)
    requires k <= |s| && forall j :: k <= j < |s| ==> IsSpace(s[j])
    ensures SpaceRunEnd(s, k) == |s|
    decreases |s| - k
  {
    if k < |s| {
      SpaceRunEndToEnd(s, k + 1);
    }
  }

  /** `\s+de\s+(\d{4})` from `e` to the very end of `s`: the year digits. */
  function YearToEnd(s: string, e: nat): (r: Option<string>)
    requires e <= |s|
    ensures r.Some? ==> |r.value| == 4 && AllDigits(r.value) && e + 4 < |s| && s[|s| - 4..] == r.value
    ensures r.Some? ==> SpacedDe(s, e, |s| - 4)
  {
    match DeFrom(s, e)
    case Some(q) => if q + 4 == |s| && AllDigits(s[q..]) then Some(s[q..]) else None
    case None => None
  }

  /** `s[e..]` is ` de <yyyy>` with any whitespace runs around `de`: the year clause matches to the end. */
  lemma YearToEndComplete(s: string, e: nat, y: string)
    requires e + 4 <= |s| && SpacedDe(s, e, |s| - 4) && s[|s| - 4..] == y && |y| == 4 && AllDigits(y)
    ensures YearToEnd(s, e) == Some(y)
  {
    assert IsDigit(s[|s| - 4]) by { assert s[|s| - 4] == y[0]; }
    CaseMapsKeepClasses(s[|s| - 4]);
    DeFromComplete(s, e, |s| - 4);
  }

  /**
   * `re.fullmatch(r"(\d{1,2})\s+de\s+([a-záéíóúñ]+)(?:\s+de\s+(\d{4}))?", s)`:
   * the day digits, the month word and the year digits if present. The
   * letter run can only end where a space or the end of the text follows,
   * so its greedy length is the only viable one.
   */
  function SpanishFull(s: string): (r: Option<(string, string, Option<string>)>)
    ensures r.Some? ==> var (d, name, y) := r.value;
      && 1 <= |d| <= 2 && AllDigits(d) && name != []
      && (forall k :: 0 <= k < |name| ==> IsLowerLetter(name[k]))
      && (y.Some? ==> |y.value| == 4 && AllDigits(y.value))
    ensures r.Some? ==> var (d, name, y) := r.value;
      && |d| <= |s| && s[..|d|] == d
      && exists q :: SpanishParts(s, d, q, name, y)
  {
    var n := DigitsThen(s, 0, false);
    if n == 0 then None
    else
      match DeFrom(s, n)
      case None => None
      case Some(q) =>
        var e := LowerLetterRunEnd(s, q);
        if e == q then None
        else if e == |s| then
          SpanishPartsIntro(s, n, q, e, None);
          Some((s[..n], s[q..e], None))
        else
          match YearToEnd(s, e)
          case Some(y) =>
            SpanishPartsIntro(s, n, q, e, Some(y));
            Some((s[..n], s[q..e], Some(y)))
          case None => None
  }

  /** The positions `SpanishFull` finds spell the parts it returns. */
  lemma SpanishPartsIntro(s: string, n: nat, q: nat, e: nat, y: Option<string>)
    requires n <= q <= e <= |s| && SpacedDe(s, n, q)
    requires y.None? ==> e == |s|
    requires y.Some? ==> e < |s| && YearToEnd(s, e) == y
    ensures SpanishParts(s, s[..n], q, s[q..e], y)
  {
    assert |s[..n]| == n && |s[q..e]| == e - q;
  }

  /**
   * After the day digits `d`, `s` is `\s+de\s+`, the month word `name` from
   * `q`, and either the end or `\s+de\s+` and the year digits `y` to the end.
   */
  predicate SpanishParts(s: string, d: string, q: nat, name: string, y: Option<string>) {
    && SpacedDe(s, |d|, q) && q + |name| <= |s| && s[q..q + |name|] == name
    && (y.None? ==> q + |name| == |s|)
    && (y.Some? ==> q + |name| + 4 <= |s| && SpacedDe(s, q + |name|, |s| - 4) && s[|s| - 4..] == y.value)
  }

  /**
   * Every text the Spanish pattern fully matches is read back as its parts,
   * whatever whitespace runs surround each `de`, and is not a numeric date.
   */
  lemma SpanishFullComplete(s: string, d: string, q: nat, name: string, y: Option<string>)
    requires 1 <= |d| <= 2 && AllDigits(d) && |d| <= |s| && s[..|d|] == d
    requires name != [] && (forall k :: 0 <= k < |name| ==> IsLowerLetter(name[k]))
    requires y.Some? ==> |y.value| == 4 && AllDigits(y.value)
    requires SpanishParts(s, d, q, name, y)
    ensures NumericFull(s) == None
    ensures SpanishFull(s) == Some((d, name, y))
  {
    var e := q + |name|;
    SpanishDay(s, d);
    assert s[q] == name[0];
    CaseMapsKeepClasses(name[0]);
    DeFromComplete(s, |d|, q);
    LetterRunOfSpaced(s, q, name);
    if y.Some? {
      YearToEndComplete(s, e, y.value);
    }
    SpanishFullSteps(s, |d|, q, e, y);
  }

  /** `SpanishFull` from where each part of the pattern ends. */
  lemma SpanishFullSteps(s: string, n: nat, q: nat, e: nat, y: Option<string>)
    requires 0 < n <= q < e <= |s| && DigitsThen(s, 0, false) == n
    requires DeFrom(s, n) == Some(q) && LowerLetterRunEnd(s, q) == e
    requires y.None? ==> e == |s|
    requires y.Some? ==> e < |s| && YearToEnd(s, e) == y
    ensures SpanishFull(s) == Some((s[..n], s[q..e], y))
  {
  }

  /** A day of one or two digits followed by whitespace: its digits, and no numeric date. */
  lemma SpanishDay(s: string, d: string)
    requires 1 <= |d| <= 2 && AllDigits(d) && |d| < |s| && s[..|d|] == d && IsSpace(s[|d|])
    ensures DigitsThen(s, 0, false) == |d| && NumericFull(s) == None
  {
    assert forall k :: 0 <= k < |d| ==> s[k] == d[k];
    CaseMapsKeepClasses(s[|d|]);
  }

  /** The lower-case letter run from `q` is `name` when whitespace or the end follows it. */
  lemma LetterRunOfSpaced(s: string, q: nat, name: string)
    requires q + |name| <= |s| && s[q..q + |name|] == name
    requires forall k :: 0 <= k < |name| ==> IsLowerLetter(name[k])
    requires q + |name| == |s| || IsSpace(s[q + |name|])
    ensures LowerLetterRunEnd(s, q) == q + |name|
    decreases |name|
  {
    if name != [] {
      assert s[q] == name[0];
      assert s[q + 1..q + 1 + |name[1..]|] == name[1..];
      LetterRunOfSpaced(s, q + 1, name[1..]);
    }
  }

  /** `dd-mm-` followed by a year field, with the day in 1..31 and the month in 1..12. */
  predicate HasDayAndMonth(t: string) {
    && |t| >= 10 && t[2] == '-' && t[5] == '-'
    && AllDigits(t[..2]) && AllDigits(t[3..5])
    && 1 <= Value(t[..2]) <= 31 && 1 <= Value(t[3..5]) <= 12
  }

  /** A `dd-mm-yyyy` text with the day in 1..31 and the month in 1..12. */
  predicate IsCanonicalDate(t: string) {
    HasDayAndMonth(t) && |t| == 10 && AllDigits(t[6..])
  }

  /** `f"{d:02d}-{m:02d}-{y:04d}"` for a day and a month in range. */
  function FormatDate(d: int, m: int, y: int): (t: string)
    requires 1 <= d <= 31 && 1 <= m <= 12
    ensures HasDayAndMonth(t) && Value(t[..2]) == d && Value(t[3..5]) == m && t[6..] == FormatInt(y, 4)
  {
    TwoDigits(d);
    TwoDigits(m);
    FormatIntWidth(y, 4);
    var a, b, c := FormatInt(d, 2), FormatInt(m, 2), FormatInt(y, 4);
    FieldsOfDate(a, b, c);
    a + "-" + b + "-" + c
  }

  /** The fields of `a-b-c` for two-character `a` and `b` and a year field of at least four characters. */
  lemma FieldsOfDate(a: string, b: string, c: string)
    requires |a| == 2 && |b| == 2 && |c| >= 4
    ensures var t := a + "-" + b + "-" + c;
      |t| >= 10 && t[2] == '-' && t[5] == '-' && t[..2] == a && t[3..5] == b && t[6..] == c
  {
  }

  /** The year field of a Spanish date has four digits when the year is written or the default is in 0..9999. */
  lemma YearFieldFits(y: Option<string>, defaultYear: int)
    requires y.Some? ==> |y.value| == 4 && AllDigits(y.value)
    ensures var t := FormatInt(if y.Some? then Value(y.value) else defaultYear, 4);
      && (y.Some? ==> t == y.value)
      && (y.Some? || 0 <= defaultYear <= 9999 ==> |t| == 4 && AllDigits(t))
  {
    if y.Some? {
      FormatValueRoundTrip(y.value);
    } else if 0 <= defaultYear <= 9999 {
      FourDigits(defaultYear);
    }
  }

  /** A year in 0..9999 formats to four digits that read back as it. */
  lemma FourDigits(y: int)
    requires 0 <= y <= 9999
    ensures var t := FormatInt(y, 4); |t| == 4 && AllDigits(t) && Value(t) == y
  {
    assert Pow10(4) == 10000;
    FormatFits(y, 4);
  }

  /**
   * `normalize_date_es(date_text, default_year)`: nothing for a missing or
   * empty text; otherwise the stripped, lower-cased text goes to the numeric
   * branch when it fully matches `dd-mm-yyyy`, else to the Spanish branch
   * when it fully matches `d de <month>[ de yyyy]`, and to nothing when it
   * matches neither.
   */
  function NormalizeDateEs(dateText: Option<string>, defaultYear: int): (r: Option<string>)
    ensures dateText.None? || dateText.value == [] ==> r.None?
    ensures dateText.Some? && dateText.value != [] ==> var t := LowerAll(Strip(dateText.value));
      && (NumericFull(t).Some? ==> r == FromNumeric(NumericFull(t).value.0, NumericFull(t).value.1, NumericFull(t).value.2))
      && (NumericFull(t).None? && SpanishFull(t).Some? ==>
            r == FromSpanish(SpanishFull(t).value.0, SpanishFull(t).value.1, SpanishFull(t).value.2, defaultYear))
      && (NumericFull(t).None? && SpanishFull(t).None? ==> r.None?)
    ensures r.Some? ==> HasDayAndMonth(r.value)
    ensures r.Some? && 0 <= defaultYear <= 9999 ==> IsCanonicalDate(r.value)
  {
    if dateText.None? || dateText.value == [] then None
    else NormalizeStripped(LowerAll(Strip(dateText.value)), defaultYear)
  }

  /** The two full-match attempts on the stripped, lower-cased text `s`. */
  function NormalizeStripped(s: string, defaultYear: int): (r: Option<string>)
    ensures r.Some? ==> HasDayAndMonth(r.value)
    ensures r.Some? && 0 <= defaultYear <= 9999 ==> IsCanonicalDate(r.value)
  {
    match NumericFull(s)
    case Some((d, mo, y)) => FromNumeric(d, mo, y)
    case None =>
      match SpanishFull(s)
      case None => None
      case Some((d, name, y)) => FromSpanish(d, name, y, defaultYear)
  }

  /** The numeric branch: the day and month are range-checked, the year kept. */
  function FromNumeric(d: string, mo: string, y: string): (r: Option<string>)
    requires AllDigits(d) && AllDigits(mo) && |y| == 4 && AllDigits(y)
    ensures r.Some? <==> 1 <= Value(d) <= 31 && 1 <= Value(mo) <= 12
    ensures r.Some? ==>
      IsCanonicalDate(r.value) && Value(r.value[..2]) == Value(d) && Value(r.value[3..5]) == Value(mo) && r.value[6..] == y
    ensures r.Some? && |d| == 2 && |mo| == 2 ==> r.value == d + "-" + mo + "-" + y
  {
    if 1 <= Value(d) <= 31 && 1 <= Value(mo) <= 12 then
      NumericFormat(d, mo, y);
      Some(FormatDate(Value(d), Value(mo), Value(y)))
    else None
  }

  /** The text `FromNumeric` writes: a canonical date keeping the year digits, and the input itself when both fields have two digits. */
  lemma NumericFormat(d: string, mo: string, y: string)
    requires AllDigits(d) && AllDigits(mo) && |y| == 4 && AllDigits(y)
    requires 1 <= Value(d) <= 31 && 1 <= Value(mo) <= 12
    ensures var o := FormatDate(Value(d), Value(mo), Value(y));
      IsCanonicalDate(o) && o[6..] == y && (|d| == 2 && |mo| == 2 ==> o == d + "-" + mo + "-" + y)
  {
    var o := FormatDate(Value(d), Value(mo), Value(y));
    FormatValueRoundTrip(y);
    assert o[6..] == y;
    if |d| == 2 && |mo| == 2 {
      TwoDigitsRoundTrip(d, o[..2]);
      TwoDigitsRoundTrip(mo, o[3..5]);
      DateOfFields(o, d, mo, y);
    }
  }

  /** A `dd-mm-yyyy` text is its three fields joined by dashes. */
  lemma DateOfFields(o: string, d: string, mo: string, y: string)
    requires |o| == 10 && o[2] == '-' && o[5] == '-'
    requires o[..2] == d && o[3..5] == mo && o[6..] == y
    ensures o == d + "-" + mo + "-" + y
  {
    assert o == o[..2] + "-" + o[3..5] + "-" + o[6..];
  }

  /** Two two-digit texts with the same value are the same text. */
  lemma TwoDigitsRoundTrip(a: string, b: string)
    requires |a| == 2 && |b| == 2 && AllDigits(a) && AllDigits(b) && Value(a) == Value(b)
    ensures a == b
  {
    FormatValueRoundTrip(a);
    FormatValueRoundTrip(b);
  }

  /** The Spanish branch: the month is looked up, the day range-checked, the year defaulted. */
  function FromSpanish(d: string, name: string, y: Option<string>, defaultYear: int): (r: Option<string>)
    requires AllDigits(d)
    requires y.Some? ==> |y.value| == 4 && AllDigits(y.value)
    ensures r.Some? <==> name in MonthToNum && 1 <= Value(d) <= 31
    ensures r.Some? ==>
      HasDayAndMonth(r.value) && Value(r.value[..2]) == Value(d) && Value(r.value[3..5]) == MonthToNum[name]
      && r.value[6..] == (if y.Some? then y.value else FormatInt(defaultYear, 4))
    ensures r.Some? && (y.Some? || 0 <= defaultYear <= 9999) ==> IsCanonicalDate(r.value)
  {
    var day := Value(d);
    var year := if y.Some? then Value(y.value) else defaultYear;
    // `if not month`: the table holds no zero, so only a missing key is rejected.
    if name !in MonthToNum then None
    else if !(1 <= day <= 31) then None
    else
      MonthNumbersInRange(name);
      YearFieldFits(y, defaultYear);
      Some(FormatDate(day, MonthToNum[name], year))
  }

  /** Two-digit fields: a day or month formats to exactly two digits that read back as it. */
  lemma TwoDigits(n: int)
    requires 1 <= n <= 31
    ensures var t := FormatInt(n, 2); |t| == 2 && AllDigits(t) && Value(t) == n
  {
    assert Pow10(2) == 100;
    FormatFits(n, 2);
  }

  /** The optional ` de <yyyy>` tail of a Spanish date. */
  function YearSuffix(y: Option<string>): string {
    if y.Some? then " de " + y.value else ""
  }

  /** A text of digits, dashes, whitespace and lower-case letters is its own lower-casing. */
  lemma LowerAllKeeps(s: string)
    requires forall k :: 0 <= k < |s| ==> IsDigit(s[k]) || s[k] == '-' || IsSpace(s[k]) || IsLowerLetter(s[k])
    ensures LowerAll(s) == s
  {
    forall k | 0 <= k < |s|
      ensures Lower(s[k]) == s[k]
    {
      CaseMapsKeepClasses(s[k]);
    }
    LowerAllFixed(s);
  }

  /** `d-mo-y` with digit groups of the right sizes is read back as those groups, in both directions. */
  lemma NumericFullOfParts(d: string, mo: string, y: string)
    requires 1 <= |d| <= 2 && 1 <= |mo| <= 2 && |y| == 4 && AllDigits(d) && AllDigits(mo) && AllDigits(y)
    ensures NumericFull(d + "-" + mo + "-" + y) == Some((d, mo, y))
  {
    var s := d + "-" + mo + "-" + y;
    assert s[..|d|] == d && s[|d|] == '-';
    assert DigitsThen(s, 0, true) == |d|;
    var j := |d| + 1;
    assert s[j..j + |mo|] == mo && s[j + |mo|] == '-';
    assert DigitsThen(s, j, true) == |mo|;
    assert s[j + |mo| + 1..] == y;
  }

  /** `d de name[ de y]` is read back as its parts, and is not a numeric date. */
  lemma SpanishFullOfParts(d: string, name: string, y: Option<string>)
    requires 1 <= |d| <= 2 && AllDigits(d) && name != [] && (forall k :: 0 <= k < |name| ==> IsLowerLetter(name[k]))
    requires y.Some? ==> |y.value| == 4 && AllDigits(y.value)
    ensures NumericFull(d + " de " + name + YearSuffix(y)) == None
    ensures SpanishFull(d + " de " + name + YearSuffix(y)) == Some((d, name, y))
  {
    ConcatAssoc(d + " de ", name, YearSuffix(y));
    SpanishFullOfText(d + " de " + name + YearSuffix(y), d, name, y);
  }

  lemma ConcatAssoc(a: string, b: string, c: string)
    ensures a + b + c == a + (b + c)
  {
  }

  /** `SpanishFullOfParts` on the text `s` the parts spell. */
  lemma SpanishFullOfText(s: string, d: string, name: string, y: Option<string>)
    requires 1 <= |d| <= 2 && AllDigits(d) && name != [] && (forall k :: 0 <= k < |name| ==> IsLowerLetter(name[k]))
    requires y.Some? ==> |y.value| == 4 && AllDigits(y.value)
    requires s == d + " de " + (name + YearSuffix(y))
    ensures NumericFull(s) == None && SpanishFull(s) == Some((d, name, y))
  {
    SpanishTextSlices(s, d, name, y);
    SpanishFullOfSlices(s, d, name, y);
  }

  /** Where each part of `d de name[ de y]` sits in the text. */
  lemma SpanishTextSlices(s: string, d: string, name: string, y: Option<string>)
    requires s == d + " de " + (name + YearSuffix(y))
    ensures |d| + 4 + |name| <= |s| && s[..|d|] == d && s[|d|..|d| + 4] == " de "
    ensures s[|d| + 4..|d| + 4 + |name|] == name && s[|d| + 4 + |name|..] == YearSuffix(y)
  {
  }

  /** A text laid out as `d de name[ de y]` is read back as those parts. */
  lemma SpanishFullOfSlices(s: string, d: string, name: string, y: Option<string>)
    requires 1 <= |d| <= 2 && AllDigits(d) && name != [] && (forall k :: 0 <= k < |name| ==> IsLowerLetter(name[k]))
    requires y.Some? ==> |y.value| == 4 && AllDigits(y.value)
    requires |d| + 4 + |name| <= |s| && s[..|d|] == d && s[|d|..|d| + 4] == " de "
    requires s[|d| + 4..|d| + 4 + |name|] == name && s[|d| + 4 + |name|..] == YearSuffix(y)
    ensures NumericFull(s) == None && SpanishFull(s) == Some((d, name, y))
  {
    SpanishPartsOfSlices(s, d, name, y);
    SpanishFullComplete(s, d, |d| + 4, name, y);
  }

  /** Single spaces around each `de` are whitespace runs: the layout is one the pattern matches. */
  lemma SpanishPartsOfSlices(s: string, d: string, name: string, y: Option<string>)
    requires y.Some? ==> |y.value| == 4
    requires |d| + 4 + |name| <= |s| && s[|d|..|d| + 4] == " de "
    requires s[|d| + 4..|d| + 4 + |name|] == name && s[|d| + 4 + |name|..] == YearSuffix(y)
    ensures SpanishParts(s, d, |d| + 4, name, y)
  {
    SpacedDeAt(s, |d|);
    if y.Some? {
      YearSuffixAt(s, |d| + 4 + |name|, y.value);
    }
  }

  /** A ` de <yyyy>` tail from `e` is the connector followed by the year digits at the end. */
  lemma YearSuffixAt(s: string, e: nat, y: string)
    requires e <= |s| && s[e..] == " de " + y && |y| == 4
    ensures e + 8 == |s| && SpacedDe(s, e, |s| - 4) && s[|s| - 4..] == y
  {
    assert s[e..e + 4] == " de ";
    assert s[e + 4..] == y;
    SpacedDeAt(s, e);
  }

  /** The literal ` de ` is a `\s+de\s+` connector. */
  lemma SpacedDeAt(s: string, a: nat)
    requires a + 4 <= |s| && s[a..a + 4] == " de "
    ensures SpacedDe(s, a, a + 4)
  {
    assert s[a] == ' ' && s[a + 1] == 'd' && s[a + 2] == 'e' && s[a + 3] == ' ';
    assert SpaceRunEnd(s, a + 1) == a + 1;
  }

  /** A text whose ends are not whitespace and which has no upper-case letter is its own `strip().lower()`. */
  lemma Settled(s: string)
    requires s != [] && !IsSpace(s[0]) && !IsSpace(s[|s| - 1])
    requires forall k :: 0 <= k < |s| ==> IsDigit(s[k]) || s[k] == '-' || IsSpace(s[k]) || IsLowerLetter(s[k])
    ensures LowerAll(Strip(s)) == s
  {
    StripKeeps(s);
    LowerAllKeeps(s);
  }

  /** A `d-mo-yyyy` text goes to the numeric branch with its own digit groups. */
  lemma NumericDateForm(d: string, mo: string, y: string, defaultYear: int)
    requires 1 <= |d| <= 2 && 1 <= |mo| <= 2 && |y| == 4 && AllDigits(d) && AllDigits(mo) && AllDigits(y)
    ensures NormalizeDateEs(Some(d + "-" + mo + "-" + y), defaultYear) == FromNumeric(d, mo, y)
  {
    var s := d + "-" + mo + "-" + y;
    NumericIsSettled(d, mo, y);
    NumericFullOfParts(d, mo, y);
    SettledNumeric(s, d, mo, y, defaultYear);
  }

  /** A stripped, lower-case text that fully matches the numeric pattern goes to the numeric branch. */
  lemma SettledNumeric(s: string, d: string, mo: string, y: string, defaultYear: int)
    requires s != [] && LowerAll(Strip(s)) == s && NumericFull(s) == Some((d, mo, y))
    ensures NormalizeDateEs(Some(s), defaultYear) == FromNumeric(d, mo, y)
  {
  }

  /** A numeric date text is already stripped and lower-case. */
  lemma NumericIsSettled(d: string, mo: string, y: string)
    requires 1 <= |d| && |y| == 4 && AllDigits(d) && AllDigits(mo) && AllDigits(y)
    ensures LowerAll(Strip(d + "-" + mo + "-" + y)) == d + "-" + mo + "-" + y
  {
    var s := d + "-" + mo + "-" + y;
    assert s[0] == d[0] && s[|s| - 1] == y[3];
    CaseMapsKeepClasses(d[0]);
    CaseMapsKeepClasses(y[3]);
    Settled(s);
  }

  /** A Spanish date text as the parser writes it is already stripped and lower-case. */
  lemma SpanishIsSettled(d: string, name: string, y: Option<string>)
    requires 1 <= |d| <= 2 && AllDigits(d) && name != [] && (forall k :: 0 <= k < |name| ==> IsLowerLetter(name[k]))
    requires y.Some? ==> |y.value| == 4 && AllDigits(y.value)
    ensures LowerAll(Strip(d + " de " + name + YearSuffix(y))) == d + " de " + name + YearSuffix(y)
  {
    var s := d + " de " + name + YearSuffix(y);
    assert s[0] == d[0];
    CaseMapsKeepClasses(d[0]);
    if y.Some? {
      assert s[|s| - 1] == y.value[3];
      CaseMapsKeepClasses(y.value[3]);
    } else {
      assert s[|s| - 1] == name[|name| - 1];
      CaseMapsKeepClasses(name[|name| - 1]);
    }
    Settled(s);
  }

  /** A Spanish date as the parser writes it goes to the Spanish branch with its own parts. */
  lemma SpanishDateForm(d: string, name: string, y: Option<string>, defaultYear: int)
    requires 1 <= |d| <= 2 && AllDigits(d) && name != [] && (forall k :: 0 <= k < |name| ==> IsLowerLetter(name[k]))
    requires y.Some? ==> |y.value| == 4 && AllDigits(y.value)
    ensures NormalizeDateEs(Some(d + " de " + name + YearSuffix(y)), defaultYear) == FromSpanish(d, name, y, defaultYear)
  {
    var s := d + " de " + name + YearSuffix(y);
    SpanishIsSettled(d, name, y);
    SpanishFullOfParts(d, name, y);
    assert NormalizeStripped(s, defaultYear) == FromSpanish(d, name, y, defaultYear);
  }

  /** Both spellings of September give the same date. */
  lemma SeptemberSpellings(d: string, y: Option<string>, defaultYear: int)
    requires AllDigits(d)
    requires y.Some? ==> |y.value| == 4 && AllDigits(y.value)
    ensures FromSpanish(d, "septiembre", y, defaultYear) == FromSpanish(d, "setiembre", y, defaultYear)
  {
    assert "septiembre" in MonthToNum && "setiembre" in MonthToNum;
    assert MonthToNum["septiembre"] == MonthToNum["setiembre"];
  }

  /** Lower-casing a stripped text leaves it stripped and lower-case. */
  lemma LowerStripSettled(t: string)
    ensures LowerAll(Strip(LowerAll(Strip(t)))) == LowerAll(Strip(t))
  {
    var v := Strip(t);
    var u := LowerAll(v);
    if u != [] {
      CaseMapsKeepClasses(v[0]);
      CaseMapsKeepClasses(v[|v| - 1]);
      StripKeeps(u);
    }
    forall k | 0 <= k < |u|
      ensures Lower(u[k]) == u[k]
    {
      CaseMapsKeepClasses(v[k]);
    }
  }

  /** Surrounding whitespace and letter case of the date text do not matter. */
  lemma NormalizeIgnoresSpaceAndCase(t: string, defaultYear: int)
    ensures NormalizeDateEs(Some(t), defaultYear) == NormalizeDateEs(Some(LowerAll(Strip(t))), defaultYear)
  {
    var u := LowerAll(Strip(t));
    LowerStripSettled(t);
    if u == [] {
      assert NormalizeStripped(u, defaultYear) == None;
    } else {
      assert NormalizeDateEs(Some(u), defaultYear) == NormalizeStripped(u, defaultYear);
    }
  }

  /** A canonical `dd-mm-yyyy` date normalises to itself, whatever the default year. */
  lemma CanonicalIsFixed(o: string, defaultYear: int)
    requires IsCanonicalDate(o)
    ensures NormalizeDateEs(Some(o), defaultYear) == Some(o)
  {
    var d, mo, y := o[..2], o[3..5], o[6..];
    assert o == d + "-" + mo + "-" + y;
    NumericDateForm(d, mo, y, defaultYear);
  }

  /** With a four-digit default year, a normalised date normalises to itself, whatever the default year then. */
  lemma NormalizeIdempotent(t: Option<string>, defaultYear: int, laterYear: int)
    requires 0 <= defaultYear <= 9999
    ensures var r := NormalizeDateEs(t, defaultYear);
      r.Some? ==> NormalizeDateEs(r, laterYear) == r
  {
    var r := NormalizeDateEs(t, defaultYear);
    if r.Some? {
      CanonicalIsFixed(r.value, laterYear);
    }
  }
}
