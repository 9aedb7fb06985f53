/**
 * `_extract_route` of nlp_parser.py: the last match of
 * `\b(?:de|desde)\s+(CITY)\s+\ba\b\s+(CITY)\b` under `re.IGNORECASE`, where
 * CITY is `[a-záéíóúñ]+(?:\s+[a-záéíóúñ]+)*`, with both cities title-cased.
 *
 * The matcher below follows the regex engine's backtracking order: the
 * greedy repetitions try one more word first and fall back to shorter
 * cities only when the rest of the pattern fails. Backtracking inside a
 * letter run or a whitespace run can never succeed (the next pattern item
 * needs a space, a letter or a boundary that the run excludes), so only the
 * word ends are choice points.
 */
module Route {
  import opened Wrappers
  import opened Chars
  import opened Text

  /** Positions of one match: the keyword at `start`, the origin `oStart..oEnd`, the `a` at `aPos`, the destination `dStart..dEnd`. */
  datatype RouteMatch = RouteMatch(start: nat, oStart: nat, oEnd: nat, aPos: nat, dStart: nat, dEnd: nat)

  /** Positions of the part after the origin: the `a` at `aPos`, the destination `dStart..dEnd`. */
  datatype Arrow = Arrow(aPos: nat, dStart: nat, dEnd: nat)

  /** The end of the origin and the arrow after it. */
  datatype Tail = Tail(oEnd: nat, arrow: Arrow)

  predicate IsCityChar(c: char) {
    IsLetter(c) || IsSpace(c)
  }

  /** `s[a..b]` fully matches CITY: letters and whitespace, starting and ending with a letter. */
  predicate IsCity(s: string, a: nat, b: nat) {
    a < b <= |s| && IsLetter(s[a]) && IsLetter(s[b - 1]) && forall k :: a <= k < b ==> IsCityChar(s[k])
  }

  /** `\b(?:de|desde)\s+` from `i`, with the origin starting at `p`. */
  predicate KeywordShape(s: string, i: nat, p: nat) {
    i <= |s| && BoundaryAt(s, i)
    && ((MatchesCI(s, i, "de") && Spaces(s, i + 2, p)) || (MatchesCI(s, i, "desde") && Spaces(s, i + 5, p)))
  }

  /** `\s+\ba\b\s+(CITY)\b` from `oe`, with the `a` at `q` and the destination `ds..de`. */
  predicate ArrowShape(s: string, oe: nat, q: nat, ds: nat, de: nat) {
    && Spaces(s, oe, q) && q < |s| && BoundaryAt(s, q) && Lower(s[q]) == 'a' && BoundaryAt(s, q + 1)
    && Spaces(s, q + 1, ds) && IsCity(s, ds, de) && BoundaryAt(s, de)
  }

  /** `m` is one way for the route pattern to match `s` at `m.start`: the reference the matcher is proved against. */
  predicate ValidRoute(s: string, m: RouteMatch) {
    KeywordShape(s, m.start, m.oStart) && IsCity(s, m.oStart, m.oEnd) && ArrowShape(s, m.oEnd, m.aPos, m.dStart, m.dEnd)
  }

  /** The positions of a match come in pattern order. */
  predicate Ordered(s: string, m: RouteMatch) {
    m.start < m.oStart < m.oEnd < m.aPos < m.dStart < m.dEnd <= |s|
  }

  /** `s[e..b]` is empty or is whitespace and letters ending with a letter: what a city may add after a word ending at `e`. */
  predicate CityTail(s: string, e: nat, b: nat)
    requires e <= b <= |s|
  {
    (b == e || IsLetter(s[b - 1])) && forall k :: e <= k < b ==> IsCityChar(s[k])
  }

  /** Greedy `[a-záéíóúñ]+` from `i` (or nothing): where the letters stop. */
  function LetterRunEnd(s: string, i: nat): (e: nat)
    requires i <= |s|
    ensures i <= e <= |s|
    ensures forall k {:trigger IsLetter(s[k])} :: i <= k < e ==> IsLetter(s[k])
    ensures e == |s| || !IsLetter(s[e])
    decreases |s| - i
  {
    if i < |s| && IsLetter(s[i]) then LetterRunEnd(s, i + 1) else i
  }

  /** One more iteration of `(?:\s+[a-záéíóúñ]+)` after a word ending at `e`: the end of the next word. */
  function NextWord(s: string, e: nat): (r: Option<nat>)
    requires e <= |s|
    ensures r.Some? ==> e < |s| && IsSpace(s[e])
    ensures r.Some? ==> e < r.value <= |s| && IsLetter(s[r.value - 1]) && (r.value == |s| || !IsLetter(s[r.value]))
    ensures r.Some? ==> forall k :: e <= k < r.value ==> IsCityChar(s[k])
  {
    var q := SpaceRunEnd(s, e);
    if e < q < |s| && IsLetter(s[q]) then Some(LetterRunEnd(s, q)) else None
  }

  /**
   * The destination's `(?:\s+[a-záéíóúñ]+)*\b` after its word ending at a
   * boundary `e`: the end of the longest continuation at a boundary. The
   * greedy repetition takes the next word first; the rest can fail only
   * through the final `\b`, and a word end followed by whitespace is always
   * at a boundary, so the engine keeps the next word exactly when its end is
   * at a boundary, and otherwise backtracks to `e`.
   */
  function DestEnd(s: string, e: nat): (r: nat)
    requires e <= |s| && BoundaryAt(s, e)
    ensures e <= r <= |s| && BoundaryAt(s, r) && CityTail(s, e, r)
    decreases |s| - e
  {
    match NextWord(s, e)
    case Some(e2) => if BoundaryAt(s, e2) then DestEnd(s, e2) else e
    case None => e
  }

  /**
   * `\s+\ba\b\s+(CITY)\b` from the end `oe` of the origin: the `a`, and the
   * destination's bounds. The two `\b` around the `a` are not tested: a
   * letter between two whitespace characters always has a word boundary on
   * each side (`ArrowSound` proves it).
   */
  function ArrowAt(s: string, oe: nat): (r: Option<Arrow>)
    requires oe <= |s|
    ensures r.Some? ==> oe < r.value.aPos && r.value.aPos + 1 < r.value.dStart < r.value.dEnd <= |s|
  {
    var q := SpaceRunEnd(s, oe);
    if oe < q < |s| && Lower(s[q]) == 'a' then
      var ds := SpaceRunEnd(s, q + 1);
      if q + 1 < ds < |s| && IsLetter(s[ds]) && BoundaryAt(s, LetterRunEnd(s, ds)) then
        Some(Arrow(q, ds, DestEnd(s, LetterRunEnd(s, ds))))
      else None
    else None
  }

  /**
   * The origin's `(?:\s+[a-záéíóúñ]+)*` after its word ending at `e`, then
   * the rest of the pattern: the longest origin first. The result is where
   * the origin ends and the arrow found after it.
   */
  function OriginFrom(s: string, e: nat): (r: Option<Tail>)
    requires e <= |s|
    ensures r.Some? ==> var t := r.value; e <= t.oEnd < t.arrow.aPos && t.arrow.aPos + 1 < t.arrow.dStart < t.arrow.dEnd <= |s|
    decreases |s| - e
  {
    var longer := match NextWord(s, e) case Some(e2) => OriginFrom(s, e2) case None => None;
    if longer.Some? then longer
    else match ArrowAt(s, e) case Some(a) => Some(Tail(e, a)) case None => None
  }

  /** `\s+(CITY)\s+\ba\b\s+(CITY)\b` after a keyword starting at `i` and ending at `k`. */
  function AfterKeyword(s: string, i: nat, k: nat): (r: Option<RouteMatch>)
    requires i <= k <= |s|
    ensures r.Some? ==> r.value.start == i && k < r.value.oStart && Ordered(s, r.value)
  {
    var p := SpaceRunEnd(s, k);
    if k < p < |s| && IsLetter(s[p]) then
      match OriginFrom(s, LetterRunEnd(s, p))
      case Some(t) => Some(RouteMatch(i, p, t.oEnd, t.arrow.aPos, t.arrow.dStart, t.arrow.dEnd))
      case None => None
    else None
  }

  /**
   * `(?:de|desde)` at `i`: where the keyword ends. `de` is tried first and
   * must be followed by `\s+`, so its branch gets past the keyword exactly
   * when the character after `de` is whitespace; there `desde` cannot match,
   * so the alternation commits on that character.
   */
  function KeywordEnd(s: string, i: nat): (r: Option<nat>)
    requires i <= |s|
    ensures r.Some? ==> i < r.value <= |s|
  {
    if MatchesCI(s, i, "de") && i + 2 < |s| && IsSpace(s[i + 2]) then Some(i + 2)
    else if MatchesCI(s, i, "desde") then Some(i + 5)
    else None
  }

  /** The route pattern at `i`. */
  function RouteAt(s: string, i: nat): (r: Option<RouteMatch>)
    requires i <= |s|
    ensures r.Some? ==> r.value.start == i && Ordered(s, r.value)
  {
    if !BoundaryAt(s, i) then None
    else
      match KeywordEnd(s, i)
      case None => None
      case Some(k) => AfterKeyword(s, i, k)
  }

  /** What `ArrowAt` finds is an arrow and a destination. */
  lemma ArrowSound(s: string, oe: nat)
    requires oe <= |s| && ArrowAt(s, oe).Some?
    ensures
      var a := ArrowAt(s, oe).value;
      ArrowShape(s, oe, a.aPos, a.dStart, a.dEnd)
  {
    var a := ArrowAt(s, oe).value;
    var e := LetterRunEnd(s, a.dStart);
    assert DestEnd(s, e) == a.dEnd;
    CaseMapsKeepClasses(s[a.aPos - 1]);
    CaseMapsKeepClasses(s[a.aPos]);
    CaseMapsKeepClasses(s[a.aPos + 1]);
  }

  /** What `OriginFrom` finds is more words of the city, followed by the arrow `ArrowAt` finds there. */
  lemma {:induction false} OriginFromSound(s: string, e: nat)
    requires e <= |s| && OriginFrom(s, e).Some?
    ensures var t := OriginFrom(s, e).value; CityTail(s, e, t.oEnd) && ArrowAt(s, t.oEnd) == Some(t.arrow)
    decreases |s| - e
  {
    var t := OriginFrom(s, e).value;
    if NextWord(s, e).Some? && OriginFrom(s, NextWord(s, e).value).Some? {
      var e2 := NextWord(s, e).value;
      assert t == OriginFrom(s, e2).value;
      OriginFromSound(s, e2);
      CityTailJoin(s, e, e2, t.oEnd);
    } else {
      assert t == Tail(e, ArrowAt(s, e).value);
    }
  }

  /** A word of the city from `e` to `e2`, then a city tail up to `b`, is a city tail from `e`. */
  lemma CityTailJoin(s: string, e: nat, e2: nat, b: nat)
    requires e < e2 <= b <= |s| && IsLetter(s[e2 - 1]) && CityTail(s, e2, b)
    requires forall k :: e <= k < e2 ==> IsCityChar(s[k])
    ensures CityTail(s, e, b)
  {
    forall k | e <= k < b
      ensures IsCityChar(s[k])
    {
      if k >= e2 {
        assert e2 <= k < b;
      }
    }
  }

  /** What `AfterKeyword` finds is a city, an arrow and a destination after the spaces from `k`. */
  lemma AfterKeywordSound(s: string, i: nat, k: nat)
    requires i <= k <= |s| && AfterKeyword(s, i, k).Some?
    ensures
      var m := AfterKeyword(s, i, k).value;
      Spaces(s, k, m.oStart) && IsCity(s, m.oStart, m.oEnd) && ArrowShape(s, m.oEnd, m.aPos, m.dStart, m.dEnd)
  {
    var p, e, t := AfterKeywordParts(s, i, k);
    OriginFromSound(s, e);
    CityOfRun(s, p, e, t.oEnd);
    ArrowSound(s, t.oEnd);
  }

  /** The pieces `AfterKeyword` assembles its match from. */
  lemma AfterKeywordParts(s: string, i: nat, k: nat) returns (p: nat, e: nat, t: Tail)
    requires i <= k <= |s| && AfterKeyword(s, i, k).Some?
    ensures p == SpaceRunEnd(s, k) && k < p < |s| && IsLetter(s[p]) && e == LetterRunEnd(s, p)
    ensures OriginFrom(s, e) == Some(t)
    ensures AfterKeyword(s, i, k) == Some(RouteMatch(i, p, t.oEnd, t.arrow.aPos, t.arrow.dStart, t.arrow.dEnd))
  {
    p := SpaceRunEnd(s, k);
    e := LetterRunEnd(s, p);
    t := OriginFrom(s, e).value;
  }

  /** A letter run from `p` to `e` followed by a city tail up to `b` is a city. */
  lemma CityOfRun(s: string, p: nat, e: nat, b: nat)
    requires p < |s| && IsLetter(s[p]) && e == LetterRunEnd(s, p) && e <= b <= |s| && CityTail(s, e, b)
    ensures IsCity(s, p, b)
  {
    assert IsLetter(s[b - 1]);
    forall j | p <= j < b
      ensures IsCityChar(s[j])
    {
      if j < e {
        assert IsLetter(s[j]);
      }
    }
  }

  /** The matcher is sound: what `RouteAt` finds is a match of the pattern. */
  lemma RouteAtIsValid(s: string, i: nat)
    requires i <= |s| && RouteAt(s, i).Some?
    ensures ValidRoute(s, RouteAt(s, i).value)
  {
    var k := KeywordEnd(s, i).value;
    AfterKeywordSound(s, i, k);
  }

  /** `LetterRunEnd` from a letter stops no later than a city's last letter followed by a non-letter. */
  lemma LetterRunEndWithin(s: string, i: nat, b: nat)
    requires i <= b <= |s| && (b == |s| || !IsLetter(s[b]))
    ensures LetterRunEnd(s, i) <= b
    decreases |s| - i
  {
    if i < |s| && IsLetter(s[i]) {
      LetterRunEndWithin(s, i + 1, b);
    }
  }

  /**
   * Between a word end `e` and a later city end `b`, the next word of the
   * city ends no later than `b`.
   */
  lemma NextWordWithin(s: string, e: nat, b: nat)
    requires e < b <= |s| && (forall k :: e <= k < b ==> IsCityChar(s[k])) && IsLetter(s[b - 1])
    requires !IsLetter(s[e]) && (b == |s| || !IsLetter(s[b]))
    ensures NextWord(s, e).Some? && NextWord(s, e).value <= b
  {
    var q := SpaceRunEnd(s, e);
    CaseMapsKeepClasses(s[b - 1]);
    assert q < b;
    LetterRunEndWithin(s, q, b);
  }

  /** Every destination end `b` at a boundary is reachable: `DestEnd` finds one at least as long. */
  lemma {:induction false} DestComplete(s: string, e: nat, b: nat)
    requires e <= b <= |s| && CityTail(s, e, b) && (e == |s| || !IsLetter(s[e])) && BoundaryAt(s, e) && BoundaryAt(s, b)
    ensures DestEnd(s, e) >= b
    decreases |s| - e
  {
    if e < b {
      CaseMapsKeepClasses(s[b - 1]);
      if b < |s| {
        CaseMapsKeepClasses(s[b]);
      }
      NextWordWithin(s, e, b);
      var e2 := NextWord(s, e).value;
      if e2 < b {
        CaseMapsKeepClasses(s[e2 - 1]);
        CaseMapsKeepClasses(s[e2]);
      }
      assert BoundaryAt(s, e2);
      assert DestEnd(s, e) == DestEnd(s, e2);
      DestComplete(s, e2, b);
    }
  }

  /** The whitespace runs around the `a` end where the pattern's `\\s+` items end. */
  lemma ArrowSpaces(s: string, oe: nat, q: nat, ds: nat)
    requires oe <= |s| && Spaces(s, oe, q) && q < |s| && BoundaryAt(s, q) && Lower(s[q]) == 'a' && BoundaryAt(s, q + 1)
    requires Spaces(s, q + 1, ds) && ds < |s| && IsLetter(s[ds])
    ensures SpaceRunEnd(s, oe) == q && SpaceRunEnd(s, q + 1) == ds
  {
    CaseMapsKeepClasses(s[q]);
    SpaceRunEndAt(s, oe, q);
    CaseMapsKeepClasses(s[ds]);
    SpaceRunEndAt(s, q + 1, ds);
  }

  /** When each test of `ArrowAt` passes, it returns the `a`, the destination start and `DestEnd`. */
  lemma ArrowAtPasses(s: string, oe: nat, q: nat, ds: nat)
    requires oe <= |s| && SpaceRunEnd(s, oe) == q && oe < q < |s| && Lower(s[q]) == 'a'
    requires SpaceRunEnd(s, q + 1) == ds && q + 1 < ds < |s| && IsLetter(s[ds]) && BoundaryAt(s, LetterRunEnd(s, ds))
    ensures ArrowAt(s, oe) == Some(Arrow(q, ds, DestEnd(s, LetterRunEnd(s, ds))))
  {
  }

  /** Every arrow and destination after `oe` is found by `ArrowAt`, with a destination at least as long. */
  lemma ArrowComplete(s: string, oe: nat, q: nat, ds: nat, de: nat)
    requires oe <= |s| && ArrowShape(s, oe, q, ds, de)
    ensures ArrowAt(s, oe).Some? && ArrowAt(s, oe).value.aPos == q && ArrowAt(s, oe).value.dStart == ds
    ensures ArrowAt(s, oe).value.dEnd >= de
  {
    ArrowSpaces(s, oe, q, ds);
    CaseMapsKeepClasses(s[de - 1]);
    if de < |s| {
      CaseMapsKeepClasses(s[de]);
    }
    var e := LetterRunEnd(s, ds);
    LetterRunEndWithin(s, ds, de);
    if e < de {
      CaseMapsKeepClasses(s[e - 1]);
      CaseMapsKeepClasses(s[e]);
    }
    assert BoundaryAt(s, e);
    DestComplete(s, e, de);
    ArrowAtPasses(s, oe, q, ds);
  }

  /** Every origin end `b` followed by an arrow is reachable: `OriginFrom` finds one at least as long. */
  lemma {:induction false} OriginComplete(s: string, e: nat, b: nat)
    requires e <= b <= |s| && CityTail(s, e, b)
    requires (e == |s| || !IsLetter(s[e])) && (b == |s| || !IsLetter(s[b])) && ArrowAt(s, b).Some?
    ensures OriginFrom(s, e).Some? && OriginFrom(s, e).value.oEnd >= b
    decreases |s| - e
  {
    if e < b {
      NextWordWithin(s, e, b);
      var e2 := NextWord(s, e).value;
      OriginComplete(s, e2, b);
    }
  }

  /** When each test of `AfterKeyword` passes, it returns the origin `OriginFrom` finds and the arrow after it. */
  lemma AfterKeywordPasses(s: string, i: nat, k: nat, p: nat)
    requires i <= k <= |s| && SpaceRunEnd(s, k) == p && k < p < |s| && IsLetter(s[p])
    requires OriginFrom(s, LetterRunEnd(s, p)).Some?
    ensures
      var t := OriginFrom(s, LetterRunEnd(s, p)).value;
      AfterKeyword(s, i, k) == Some(RouteMatch(i, p, t.oEnd, t.arrow.aPos, t.arrow.dStart, t.arrow.dEnd))
  {
  }

  /** The keyword part of a valid match: `AfterKeyword` finds a match whose origin is at least as long, or as long with a destination at least as long. */
  lemma AfterKeywordComplete(s: string, m: RouteMatch, k: nat)
    requires ValidRoute(s, m) && m.start <= k <= |s| && Spaces(s, k, m.oStart)
    ensures AfterKeyword(s, m.start, k).Some?
    ensures
      var r := AfterKeyword(s, m.start, k).value;
      r.oStart == m.oStart && (r.oEnd > m.oEnd || (r.oEnd == m.oEnd && r.dEnd >= m.dEnd))
  {
    var p := m.oStart;
    CaseMapsKeepClasses(s[p]);
    SpaceRunEndAt(s, k, p);
    CaseMapsKeepClasses(s[m.oEnd]);
    LetterRunEndWithin(s, p, m.oEnd);
    ArrowComplete(s, m.oEnd, m.aPos, m.dStart, m.dEnd);
    OriginComplete(s, LetterRunEnd(s, p), m.oEnd);
    OriginFromSound(s, LetterRunEnd(s, p));
    AfterKeywordPasses(s, m.start, k, p);
  }

  /** The character `k` places into a case-insensitive match. */
  lemma MatchedChar(s: string, i: nat, w: string, k: nat)
    requires MatchesCI(s, i, w) && k < |w|
    ensures Lower(s[i + k]) == w[k]
  {
  }

  /** `KeywordEnd` finds the keyword of every valid match. */
  lemma KeywordEndOfMatch(s: string, m: RouteMatch)
    requires ValidRoute(s, m)
    ensures KeywordEnd(s, m.start).Some? && Spaces(s, KeywordEnd(s, m.start).value, m.oStart)
  {
    var i := m.start;
    if !(MatchesCI(s, i, "de") && Spaces(s, i + 2, m.oStart)) {
      MatchedChar(s, i, "desde", 2);
      CaseMapsKeepClasses(s[i + 2]);
    }
  }

  /**
   * The matcher is complete and greedy: whenever the pattern can match at
   * `m.start` it does, taking the longest origin and, for that origin, the
   * longest destination.
   */
  lemma RouteAtIsGreedy(s: string, m: RouteMatch)
    requires ValidRoute(s, m)
    ensures RouteAt(s, m.start).Some?
    ensures
      var r := RouteAt(s, m.start).value;
      r.oStart == m.oStart && (r.oEnd > m.oEnd || (r.oEnd == m.oEnd && r.dEnd >= m.dEnd))
  {
    KeywordEndOfMatch(s, m);
    AfterKeywordComplete(s, m, KeywordEnd(s, m.start).value);
  }

  /** `re.search` with the route pattern from `from`: the leftmost match. */
  function SearchRoute(s: string, from: nat): (r: Option<RouteMatch>)
    requires from <= |s|
    ensures r.Some? ==> from <= r.value.start <= |s| && RouteAt(s, r.value.start) == r
    ensures forall j :: from <= j <= |s| && (r.None? || j < r.value.start) ==> RouteAt(s, j).None?
    decreases |s| - from
  {
    if RouteAt(s, from).Some? then RouteAt(s, from)
    else if from == |s| then None
    else SearchRoute(s, from + 1)
  }

  /** `re.finditer` from `from`: each match is searched for after the end of the previous one. */
  function FindAll(s: string, from: nat): (ms: seq<RouteMatch>)
    requires from <= |s|
    ensures forall m :: m in ms ==> from <= m.start <= |s| && RouteAt(s, m.start) == Some(m)
    ensures forall k :: 0 <= k < |ms| ==> from <= ms[k].start
    ensures IsFinditer(s, from, ms)
    decreases |s| - from
  {
    match SearchRoute(s, from)
    case None => []
    case Some(m) =>
      var rest := FindAll(s, m.dEnd);
      ConsFinditer(s, from, m, rest);
      [m] + rest
  }

  /** Each match ends no later than the next one starts. */
  predicate NonOverlapping(ms: seq<RouteMatch>) {
    forall k :: 0 <= k < |ms| - 1 ==> ms[k].dEnd <= ms[k + 1].start
  }

  /** No match of the pattern starts in `[a, b)`. */
  predicate NoMatchIn(s: string, a: nat, b: nat) {
    forall j :: a <= j <= |s| && j < b ==> RouteAt(s, j).None?
  }

  /** Every match in `ms` is the one the matcher finds at its start. */
  predicate AllFound(s: string, ms: seq<RouteMatch>) {
    forall k :: 0 <= k < |ms| ==> ms[k].start <= |s| && RouteAt(s, ms[k].start) == Some(ms[k])
  }

  /** No match starts in a gap between two consecutive matches of `ms`. */
  predicate GapsEmpty(s: string, ms: seq<RouteMatch>) {
    forall k :: 0 <= k < |ms| - 1 ==> NoMatchIn(s, ms[k].dEnd, ms[k + 1].start)
  }

  /**
   * `ms` is what `re.finditer` reports from `from`: matches found at their
   * starts, in order and apart, with no match starting before the first,
   * in a gap between two, or after the last.
   */
  predicate IsFinditer(s: string, from: nat, ms: seq<RouteMatch>) {
    && AllFound(s, ms)
    && NonOverlapping(ms)
    && (ms != [] ==> from <= ms[0].start)
    && NoMatchIn(s, from, if ms == [] then |s| + 1 else ms[0].start)
    && GapsEmpty(s, ms)
    && (ms != [] ==> NoMatchIn(s, ms[|ms| - 1].dEnd, |s| + 1))
  }

  /** The leftmost match from `from`, followed by what `re.finditer` reports after its end, is what it reports from `from`. */
  lemma ConsFinditer(s: string, from: nat, m: RouteMatch, rest: seq<RouteMatch>)
    requires from <= |s| && SearchRoute(s, from) == Some(m)
    requires m.dEnd <= |s| && IsFinditer(s, m.dEnd, rest)
    ensures IsFinditer(s, from, [m] + rest)
  {
    var ms := [m] + rest;
    ConsNonOverlapping(m, rest);
    forall k | 0 <= k < |ms| - 1
      ensures NoMatchIn(s, ms[k].dEnd, ms[k + 1].start)
    {
      if k > 0 {
        assert ms[k] == rest[k - 1] && ms[k + 1] == rest[k];
      }
    }
    if rest != [] {
      assert ms[|ms| - 1] == rest[|rest| - 1];
    }
  }

  /** `re.finditer`'s report is unique: any sequence meeting `IsFinditer` is `FindAll`'s. */
  lemma {:induction false} FinditerUnique(s: string, from: nat, ms: seq<RouteMatch>)
    requires from <= |s| && IsFinditer(s, from, ms)
    ensures ms == FindAll(s, from)
    decreases |s| - from
  {
    FinditerHead(s, from, ms);
    if ms != [] {
      FinditerTail(s, from, ms);
      FinditerUnique(s, ms[0].dEnd, ms[1..]);
      assert ms == [ms[0]] + ms[1..];
    }
  }

  /** The search from `from` finds the first reported match, or nothing when none is reported. */
  lemma FinditerHead(s: string, from: nat, ms: seq<RouteMatch>)
    requires from <= |s| && IsFinditer(s, from, ms)
    ensures SearchRoute(s, from) == if ms == [] then None else Some(ms[0])
  {
    if ms == [] {
      SearchNothing(s, from);
    } else {
      assert RouteAt(s, ms[0].start) == Some(ms[0]);
      SearchFinds(s, from, ms[0]);
    }
  }

  /** With no match from `from` on, the search finds nothing. */
  lemma SearchNothing(s: string, from: nat)
    requires from <= |s| && NoMatchIn(s, from, |s| + 1)
    ensures SearchRoute(s, from).None?
  {
  }

  /** A match at `m.start` with none between `from` and it is the one the search finds. */
  lemma SearchFinds(s: string, from: nat, m: RouteMatch)
    requires from <= m.start <= |s| && RouteAt(s, m.start) == Some(m) && NoMatchIn(s, from, m.start)
    ensures SearchRoute(s, from) == Some(m)
  {
  }

  /** After the first reported match, the rest is what `re.finditer` reports from its end. */
  lemma FinditerTail(s: string, from: nat, ms: seq<RouteMatch>)
    requires from <= |s| && IsFinditer(s, from, ms) && ms != []
    ensures from < ms[0].dEnd <= |s| && IsFinditer(s, ms[0].dEnd, ms[1..])
  {
    var rest := ms[1..];
    assert RouteAt(s, ms[0].start) == Some(ms[0]);
    AllFoundTail(s, ms);
    TailShape(s, ms);
    if rest != [] {
      assert NoMatchIn(s, ms[0].dEnd, ms[1].start);
      assert rest[|rest| - 1] == ms[|ms| - 1];
    }
  }

  lemma AllFoundTail(s: string, ms: seq<RouteMatch>)
    requires AllFound(s, ms) && ms != []
    ensures AllFound(s, ms[1..])
  {
    var rest := ms[1..];
    forall k | 0 <= k < |rest|
      ensures rest[k].start <= |s| && RouteAt(s, rest[k].start) == Some(rest[k])
    {
      assert rest[k] == ms[k + 1];
    }
  }

  lemma TailShape(s: string, ms: seq<RouteMatch>)
    requires NonOverlapping(ms) && GapsEmpty(s, ms) && ms != []
    ensures NonOverlapping(ms[1..]) && GapsEmpty(s, ms[1..])
    ensures |ms| > 1 ==> ms[0].dEnd <= ms[1].start
  {
    var rest := ms[1..];
    forall k | 0 <= k < |rest| - 1
      ensures rest[k].dEnd <= rest[k + 1].start && NoMatchIn(s, rest[k].dEnd, rest[k + 1].start)
    {
      assert rest[k] == ms[k + 1] && rest[k + 1] == ms[k + 2];
    }
  }

  lemma ConsNonOverlapping(m: RouteMatch, rest: seq<RouteMatch>)
    requires NonOverlapping(rest) && (rest != [] ==> m.dEnd <= rest[0].start)
    ensures NonOverlapping([m] + rest)
  {
    var ms := [m] + rest;
    forall k | 0 <= k < |ms| - 1
      ensures ms[k].dEnd <= ms[k + 1].start
    {
      if k > 0 {
        assert ms[k] == rest[k - 1];
      }
    }
  }

  /** The matches `re.finditer` reports do not overlap and come in order. */
  lemma {:induction false} FindAllOrdered(s: string, from: nat)
    requires from <= |s|
    ensures NonOverlapping(FindAll(s, from))
    decreases |s| - from
  {
    if FindAll(s, from) != [] {
      var m := SearchRoute(s, from).value;
      var rest := FindAll(s, m.dEnd);
      FindAllOrdered(s, m.dEnd);
      ConsNonOverlapping(m, rest);
    }
  }

  /** `re.finditer` finds nothing exactly when the pattern matches nowhere from `from`. */
  lemma FindAllEmpty(s: string, from: nat)
    requires from <= |s|
    ensures FindAll(s, from) == [] <==> forall j :: from <= j <= |s| ==> RouteAt(s, j).None?
  {
    var r := SearchRoute(s, from);
    if r.Some? {
      assert RouteAt(s, r.value.start).Some?;
    }
  }

  /** No match starts after the end of the last match `re.finditer` reports. */
  lemma {:induction false} FindAllLast(s: string, from: nat)
    requires from <= |s| && FindAll(s, from) != []
    ensures var ms := FindAll(s, from); forall j :: ms[|ms| - 1].dEnd <= j <= |s| ==> RouteAt(s, j).None?
    decreases |s| - from
  {
    var m := SearchRoute(s, from).value;
    if FindAll(s, m.dEnd) == [] {
      FindAllEmpty(s, m.dEnd);
    } else {
      FindAllLast(s, m.dEnd);
    }
  }

  /** The last match `re.finditer` reports over the whole message is a valid match with none after it. */
  lemma LastOfFindAll(s: string)
    requires FindAll(s, 0) != []
    ensures
      var ms := FindAll(s, 0);
      var m := ms[|ms| - 1];
      && RouteAt(s, m.start) == Some(m) && ValidRoute(s, m)
      && forall j :: m.dEnd <= j <= |s| ==> RouteAt(s, j).None?
  {
    var ms := FindAll(s, 0);
    var m := ms[|ms| - 1];
    assert m in ms;
    FindAllLast(s, 0);
    RouteAtIsValid(s, m.start);
  }

  /** `matches[-1]`: the last match of the whole message. */
  function LastRoute(s: string): (r: Option<RouteMatch>)
    ensures r.None? <==> forall j :: 0 <= j <= |s| ==> RouteAt(s, j).None?
    ensures r.Some? ==> ValidRoute(s, r.value) && RouteAt(s, r.value.start) == r
    ensures r.Some? ==> forall j :: r.value.dEnd <= j <= |s| ==> RouteAt(s, j).None?
  {
    FindAllEmpty(s, 0);
    if FindAll(s, 0) == [] then None
    else
      LastOfFindAll(s);
      Some(FindAll(s, 0)[|FindAll(s, 0)| - 1])
  }

  /** `matches[-1]` is the last element of what `re.finditer` reports, and None when it reports nothing. */
  lemma LastRouteOfFinditer(s: string, ms: seq<RouteMatch>)
    requires IsFinditer(s, 0, ms)
    ensures LastRoute(s) == if ms == [] then None else Some(ms[|ms| - 1])
  {
    FinditerUnique(s, 0, ms);
  }

  /** `_title_case` of a city the pattern captured in `s[a..b]`: never empty, one title-cased word per word of the city. */
  function CityName(s: string, a: nat, b: nat): (r: string)
    requires IsCity(s, a, b)
    ensures r != [] && IsTitleCaseOf(r, CleanText(s[a..b]))
    ensures forall i :: 0 <= i < |SplitSpace(r)| ==> IsTitleWord(SplitSpace(r)[i])
  {
    CaseMapsKeepClasses(s[a]);
    CleanTextNonEmpty(s[a..b]);
    TitleCase(s[a..b])
  }

  /** `_extract_route(msg)`: the title-cased origin and destination of the last match, or neither. */
  function ExtractRoute(msg: string): (r: (Option<string>, Option<string>))
    ensures r.0.Some? <==> r.1.Some?
    ensures r.0.None? <==> forall j :: 0 <= j <= |msg| ==> RouteAt(msg, j).None?
    ensures r.0.Some? ==>
      var m := LastRoute(msg).value;
      && r.0.value != [] && IsTitleCaseOf(r.0.value, CleanText(msg[m.oStart..m.oEnd]))
      && r.1.value != [] && IsTitleCaseOf(r.1.value, CleanText(msg[m.dStart..m.dEnd]))
  {
    match LastRoute(msg)
    case None => (None, None)
    case Some(m) => (Some(CityName(msg, m.oStart, m.oEnd)), Some(CityName(msg, m.dStart, m.dEnd)))
  }
}
