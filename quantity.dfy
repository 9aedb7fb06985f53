/**
 * `_extract_quantity` of nlp_parser.py: a number of tickets or travellers,
 * given as one or two digits or as a Spanish number word, directly followed
 * by one of the ticket keywords. The digit form is searched first over the
 * whole message; the word form only when no digit form matches anywhere.
 */
module Quantity {
  import opened Wrappers
  import opened Chars
  import opened Text
  import opened Numerals
  import opened Lexicon

  /** The stems of `(?:billetes?|pasajes?|tickets?|personas?|boletos?)`, in pattern order. */
  const Keywords: seq<string> := ["billete", "pasaje", "ticket", "persona", "boleto"]

  /** `w s?\b` at `p`: the stem, then the plural `s` if it is there and a boundary follows it, else a boundary right after the stem. */
  predicate StemAt(s: string, p: nat, w: string)
    requires p <= |s|
  {
    && MatchesCI(s, p, w)
    && ((p + |w| < |s| && Lower(s[p + |w|]) == 's' && BoundaryAt(s, p + |w| + 1)) || BoundaryAt(s, p + |w|))
  }

  /** The keyword alternation followed by `\b`, trying the stems `ks` in order. */
  predicate KeywordFrom(s: string, p: nat, ks: seq<string>)
    requires p <= |s|
  {
    ks != [] && (StemAt(s, p, ks[0]) || KeywordFrom(s, p, ks[1..]))
  }

  /** `\s*KW\b` at `p`. Keywords start with a letter, so only the greedy whitespace run can precede one. */
  predicate QuantTail(s: string, p: nat)
    requires p <= |s|
  {
    KeywordFrom(s, SpaceRunEnd(s, p), Keywords)
  }

  /** One or two digits at `i` forming a whole word: no word character on either side. */
  predicate WholeDigits(s: string, i: nat, n: nat) {
    && 1 <= n <= 2 && i + n <= |s| && AllDigits(s[i..i + n])
    && (i == 0 || !IsWordChar(s[i - 1])) && (i + n == |s| || !IsWordChar(s[i + n]))
  }

  /**
   * `\b(\d{1,2})\b` at `i`: the length of the digit group, or 0. Two digits
   * are tried first; one digit is tried after, and then the boundary after
   * it fails whenever a second digit follows.
   */
  function DigitGroupAt(s: string, i: nat): (n: nat)
    requires i <= |s|
    ensures n == 0 || WholeDigits(s, i, n)
    ensures forall m :: WholeDigits(s, i, m) ==> n == m
  {
    if i < |s| && IsDigit(s[i]) && BoundaryAt(s, i) then
      if i + 1 < |s| && IsDigit(s[i + 1]) then (if BoundaryAt(s, i + 2) then 2 else 0)
      else if BoundaryAt(s, i + 1) then 1 else 0
    else 0
  }

  /** The digit pattern `\b(\d{1,2})\b\s*KW\b` at `i`: the digits it captures. */
  function DigitQuantityAt(s: string, i: nat): (r: Option<string>)
    requires i <= |s|
    ensures r.Some? <==> exists n :: WholeDigits(s, i, n) && QuantTail(s, i + n)
    ensures r.Some? ==> 1 <= |r.value| <= 2 && AllDigits(r.value) && WholeDigits(s, i, |r.value|) && s[i..i + |r.value|] == r.value
  {
    var n := DigitGroupAt(s, i);
    if n > 0 && QuantTail(s, i + n) then Some(s[i..i + n]) else None
  }

  /** The number word `w` matches at `i` as a whole word ending in a boundary and is followed by a keyword. */
  predicate NumWordFits(s: string, i: nat, w: string)
    requires i <= |s|
  {
    MatchesCI(s, i, w) && BoundaryAt(s, i + |w|) && QuantTail(s, i + |w|)
  }

  /** The first of the number words `ws` that fits at `i`. */
  function NumWordFrom(s: string, i: nat, ws: seq<string>): (r: Option<string>)
    requires i <= |s|
    ensures r.Some? ==> r.value in ws && NumWordFits(s, i, r.value)
    ensures r.None? ==> forall k :: 0 <= k < |ws| ==> !NumWordFits(s, i, ws[k])
  {
    if ws == [] then None
    else if NumWordFits(s, i, ws[0]) then Some(ws[0])
    else NumWordFrom(s, i, ws[1..])
  }

  /** The word pattern `\b(un|uno|...|diez)\b\s*KW\b` at `i`: the number word it matches. */
  function WordQuantityAt(s: string, i: nat): (r: Option<string>)
    requires i <= |s|
    ensures r.Some? <==> BoundaryAt(s, i) && exists k :: 0 <= k < |NumWords| && NumWordFits(s, i, NumWords[k])
    ensures r.Some? ==> r.value in NumWords && NumWordFits(s, i, r.value)
  {
    if BoundaryAt(s, i) then NumWordFrom(s, i, NumWords) else None
  }

  /** `re.search` with the digit pattern from `from`: the leftmost start. */
  function SearchDigits(s: string, from: nat): (r: Option<nat>)
    requires from <= |s|
    ensures r.Some? ==> from <= r.value <= |s| && DigitQuantityAt(s, r.value).Some?
    ensures forall j :: from <= j <= |s| && (r.None? || j < r.value) ==> DigitQuantityAt(s, j).None?
    decreases |s| - from
  {
    if DigitQuantityAt(s, from).Some? then Some(from)
    else if from == |s| then None
    else SearchDigits(s, from + 1)
  }

  /** `re.search` with the word pattern from `from`: the leftmost start. */
  function SearchWords(s: string, from: nat): (r: Option<nat>)
    requires from <= |s|
    ensures r.Some? ==> from <= r.value <= |s| && WordQuantityAt(s, r.value).Some?
    ensures forall j :: from <= j <= |s| && (r.None? || j < r.value) ==> WordQuantityAt(s, j).None?
    decreases |s| - from
  {
    if WordQuantityAt(s, from).Some? then Some(from)
    else if from == |s| then None
    else SearchWords(s, from + 1)
  }

  /** `_extract_quantity(msg)`. */
  function ExtractQuantity(msg: string): (r: Option<string>)
    ensures r.None? <==> forall j :: 0 <= j <= |msg| ==> DigitQuantityAt(msg, j).None? && WordQuantityAt(msg, j).None?
    ensures r.Some? ==> AllDigits(r.value) && r.value != [] && Decimal(Value(r.value)) == r.value && Value(r.value) <= 99
  {
    match SearchDigits(msg, 0)
    case Some(i) =>
      var t := DigitQuantityAt(msg, i).value;
      TwoDigitsBelowHundred(t);
      // `str(int(t))`
      Some(Decimal(Value(t)))
    case None =>
      match SearchWords(msg, 0)
      case Some(i) => Some(Decimal(WordValue(msg, i, WordQuantityAt(msg, i).value)))
      case None => None
  }

  /** `_NUM_MAP[m2.group(1).lower()]` for the number word `w` matched at `i`. */
  function WordValue(msg: string, i: nat, w: string): (n: nat)
    requires i <= |msg| && WordQuantityAt(msg, i) == Some(w)
    ensures w in NumMap && n == NumMap[w] && 1 <= n <= 10
  {
    var key := LowerAll(msg[i..i + |w|]);
    LowerOfMatch(msg, i, w);
    NumWordValue(w);
    NumMap[key]
  }

  /** At most two digits are worth at most 99. */
  lemma TwoDigitsBelowHundred(t: string)
    requires 1 <= |t| <= 2 && AllDigits(t)
    ensures Value(t) <= 99
  {
    ValueBound(t);
    assert Pow10(2) == 100;
    assert Pow10(1) == 10;
  }

  /** A case-insensitive match of the lower-case literal `w`, lower-cased, is `w`: the `.lower()` lookup never misses. */
  lemma LowerOfMatch(s: string, i: nat, w: string)
    requires MatchesCI(s, i, w)
    ensures LowerAll(s[i..i + |w|]) == w
  {
  }

  /** The leftmost digit match decides: its digits, read as a number and written back without leading zeros. */
  lemma DigitsComeFirst(msg: string, i: nat, t: string)
    requires i <= |msg| && DigitQuantityAt(msg, i) == Some(t)
    requires forall j :: 0 <= j < i ==> DigitQuantityAt(msg, j).None?
    ensures ExtractQuantity(msg) == Some(Decimal(Value(t)))
    ensures Value(Decimal(Value(t))) == Value(t) <= 99
  {
    assert SearchDigits(msg, 0) == Some(i);
    TwoDigitsBelowHundred(t);
  }

  /** With no digit match anywhere, the leftmost number-word match decides, with its value 1..10 from `_NUM_MAP`. */
  lemma WordsComeSecond(msg: string, i: nat, w: string)
    requires forall j :: 0 <= j <= |msg| ==> DigitQuantityAt(msg, j).None?
    requires i <= |msg| && WordQuantityAt(msg, i) == Some(w)
    requires forall j :: 0 <= j < i ==> WordQuantityAt(msg, j).None?
    ensures w in NumMap && 1 <= NumMap[w] <= 10
    ensures ExtractQuantity(msg) == Some(Decimal(NumMap[w]))
  {
    assert SearchDigits(msg, 0).None?;
    assert SearchWords(msg, 0) == Some(i);
    WordBranch(msg, i, w);
  }

  /** The word branch of `_extract_quantity` once the two searches are settled. */
  lemma WordBranch(msg: string, i: nat, w: string)
    requires SearchDigits(msg, 0).None? && SearchWords(msg, 0) == Some(i) && WordQuantityAt(msg, i) == Some(w)
    ensures w in NumMap && 1 <= NumMap[w] <= 10
    ensures ExtractQuantity(msg) == Some(Decimal(NumMap[w]))
  {
    assert WordValue(msg, i, w) == NumMap[w];
  }
}
