/**
 * Character classes used by the patterns of nlp_parser.py and date_utils.py.
 *
 * Python matches `str` patterns with Unicode semantics. The model is exact on
 * the alphabet the extractors care about: whitespace is Python's full
 * `str.isspace` set, a digit is an ASCII digit, a word character (`\w`) is
 * exact on Latin-1, and letter case is a fixed mapping between A-Z plus
 * ÁÉÍÓÚÑ and a-z plus áéíóúñ (identity on every other character).
 */
module Chars {

  /** `\s` and `str.strip()` whitespace: the characters for which `str.isspace()` holds. */
  predicate IsSpace(c: char) {
    || c == ' '
    || '\t' <= c <= '\r'
    || '\U{1C}' <= c <= '\U{1F}'
    || c == '\U{85}' || c == '\U{A0}' || c == '\U{1680}'
    || '\U{2000}' <= c <= '\U{200A}'
    || c == '\U{2028}' || c == '\U{2029}' || c == '\U{202F}' || c == '\U{205F}' || c == '\U{3000}'
  }

  /** `\d`, restricted to ASCII digits. */
  predicate IsDigit(c: char) {
    '0' <= c <= '9'
  }

  /** `\w` on Latin-1: letters, digits, underscore, and the Latin-1 letters and numerals. */
  predicate IsWordChar(c: char) {
    || 'a' <= c <= 'z' || 'A' <= c <= 'Z' || IsDigit(c) || c == '_'
    || c == 'ª' || c == '²' || c == '³' || c == 'µ' || c == '¹' || c == 'º'
    || '¼' <= c <= '¾'
    || ('À' <= c <= 'ÿ' && c != '×' && c != '÷')
  }

  /** The lower-case letters of the class `[a-záéíóúñ]`. */
  predicate IsLowerLetter(c: char) {
    'a' <= c <= 'z' || c == 'á' || c == 'é' || c == 'í' || c == 'ó' || c == 'ú' || c == 'ñ'
  }

  /** Lower-case mapping of the Spanish alphabet; identity elsewhere. */
  function Lower(c: char): (r: char)
    ensures IsLowerLetter(r) <==> IsLowerLetter(c) || ('A' <= c <= 'Z' || c == 'Á' || c == 'É' || c == 'Í' || c == 'Ó' || c == 'Ú' || c == 'Ñ')
  {
    if 'A' <= c <= 'Z' then (c as int + 32) as char
    else if c == 'Á' then 'á'
    else if c == 'É' then 'é'
    else if c == 'Í' then 'í'
    else if c == 'Ó' then 'ó'
    else if c == 'Ú' then 'ú'
    else if c == 'Ñ' then 'ñ'
    else c
  }

  /** Upper-case mapping of the Spanish alphabet; identity elsewhere. */
  function Upper(c: char): (r: char)
    ensures IsLowerLetter(c) ==> !IsLowerLetter(r) && Lower(r) == c
    ensures !IsLowerLetter(c) ==> r == c
  {
    if 'a' <= c <= 'z' then (c as int - 32) as char
    else if c == 'á' then 'Á'
    else if c == 'é' then 'É'
    else if c == 'í' then 'Í'
    else if c == 'ó' then 'Ó'
    else if c == 'ú' then 'Ú'
    else if c == 'ñ' then 'Ñ'
    else c
  }

  /** `[a-záéíóúñ]` matched with `re.IGNORECASE`. */
  predicate IsLetter(c: char) {
    IsLowerLetter(Lower(c))
  }

  /** The case mappings move no character in or out of any class the patterns use. */
  lemma CaseMapsKeepClasses(c: char)
    ensures Lower(Lower(c)) == Lower(c) && Upper(Upper(c)) == Upper(c)
    ensures Lower(Upper(c)) == Lower(c)
    ensures IsSpace(Lower(c)) == IsSpace(c) && IsSpace(Upper(c)) == IsSpace(c)
    ensures IsDigit(Lower(c)) == IsDigit(c) && IsDigit(Upper(c)) == IsDigit(c)
    ensures IsWordChar(Lower(c)) == IsWordChar(c) && IsWordChar(Upper(c)) == IsWordChar(c)
    ensures IsLetter(Lower(c)) == IsLetter(c) && IsLetter(Upper(c)) == IsLetter(c)
    ensures (Lower(c) == ' ') == (c == ' ') && (Upper(c) == ' ') == (c == ' ')
    ensures IsLetter(c) ==> IsWordChar(c) && !IsSpace(c) && !IsDigit(c)
    ensures IsDigit(c) ==> IsWordChar(c) && !IsSpace(c)
    ensures IsSpace(c) ==> !IsWordChar(c)
  {
  }

  /** `\b` at position `i` of `s`: exactly one of the neighbouring characters is a word character. */
  predicate BoundaryAt(s: string, i: nat)
    requires i <= |s|
  {
    (i > 0 && IsWordChar(s[i - 1])) != (i < |s| && IsWordChar(s[i]))
  }

  /** The literal `w` (lower case) matches at `i` under `re.IGNORECASE`. */
  predicate MatchesCI(s: string, i: nat, w: string) {
    i + |w| <= |s| && forall k :: 0 <= k < |w| ==> Lower(s[i + k]) == w[k]
  }

  /** The end of the maximal run of whitespace starting at `i` (greedy `\s*`). */
  function SpaceRunEnd(s: string, i: nat): (e: nat)
    requires i <= |s|
    ensures i <= e <= |s|
    ensures forall k {:trigger IsSpace(s[k])} :: i <= k < e ==> IsSpace(s[k])
    ensures e == |s| || !IsSpace(s[e])
    decreases |s| - i
  {
    if i < |s| && IsSpace(s[i]) then SpaceRunEnd(s, i + 1) else i
  }

  /** `s[a..b]` fully matches `\s+`. */
  predicate Spaces(s: string, a: nat, b: nat) {
    a < b <= |s| && forall k {:trigger IsSpace(s[k])} :: a <= k < b ==> IsSpace(s[k])
  }

  /** `SpaceRunEnd` stops at the first non-space after a run of spaces. */
  lemma SpaceRunEndAt(s: string, k: nat, p: nat)
    requires k <= p < |s| && (forall j :: k <= j < p ==> IsSpace(s[j])) && !IsSpace(s[p])
    ensures SpaceRunEnd(s, k) == p
    decreases p - k
  {
    if k < p {
      SpaceRunEndAt(s, k + 1, p);
    }
  }

  /** Every character of `t` is an ASCII digit. */
  predicate AllDigits(t: string) {
    forall k :: 0 <= k < |t| ==> IsDigit(t[k])
  }

  /**
   * Length of `\d{1,2}` at `i` when the next character must be a `-`
   * (`dashed`) or whitespace. The greedy two-digit try comes first; the
   * one-digit retry can only succeed when the second character is not a
   * digit, so at most one length is viable.
   */
  function DigitsThen(s: string, i: nat, dashed: bool): (n: nat)
    requires i <= |s|
    ensures n == 0 || (1 <= n <= 2 && i + n < |s| && AllDigits(s[i..i + n]))
    ensures n > 0 ==> if dashed then s[i + n] == '-' else IsSpace(s[i + n])
  {
    if i + 2 < |s| && IsDigit(s[i]) && IsDigit(s[i + 1]) && Sep(s[i + 2], dashed) then 2
    else if i + 1 < |s| && IsDigit(s[i]) && Sep(s[i + 1], dashed) then 1
    else 0
  }

  predicate Sep(c: char, dashed: bool) {
    if dashed then c == '-' else IsSpace(c)
  }

  /** Two dashes at `j - 1` and `k - 1` split `s[i..k + 4]` into its three fields. */
  lemma DashedSlices(s: string, i: nat, j: nat, k: nat)
    requires i < j < k && k + 4 <= |s| && s[j - 1] == '-' && s[k - 1] == '-'
    ensures s[i..k + 4] == s[i..j - 1] + "-" + s[j..k - 1] + "-" + s[k..k + 4]
  {
  }

  /** The fields and dashes of `a-b-c`, by position. */
  lemma DashedParts(t: string, a: string, b: string, c: string)
    requires t == a + "-" + b + "-" + c
    ensures t[..|a|] == a && t[|a|] == '-'
    ensures t[|a| + 1..|a| + 1 + |b|] == b && t[|a| + 1 + |b|] == '-'
    ensures t[|a| + |b| + 2..] == c
  {
  }

  /** A slice of a slice is a slice. */
  lemma SliceOfSlice(s: string, a: nat, b: nat, p: nat, q: nat)
    requires a <= b <= |s| && p <= q <= b - a
    ensures s[a..b][p..q] == s[a + p..a + q]
  {
    assert forall k :: 0 <= k < q - p ==> s[a..b][p..q][k] == s[a + p + k];
  }
}
