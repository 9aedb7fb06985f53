# Flight-request parser: a Dafny model

The repository is a small travel assistant. A user types a Spanish sentence
such as "Quiero 2 billetes de Quito a Madrid con Iberia el 15 de octubre".
`parse_user_message` (nlp_parser.py) turns the sentence into a five-field
dictionary: origin, destination, date text, ticket count and airline.
`normalize_date_es` (date_utils.py) then turns the date text into
`dd-mm-yyyy`.

This project models those two files. Both are pure code made of regular
expressions, string methods and dictionary lookups. The model is therefore
made of datatypes, functions and lemmas.

- **Text** models `_clean_text` and `_title_case`. It covers `str.strip`, the
  collapsing of `\s+` into a single space, and `split(" ")`/`" ".join` with
  per-word capitalisation.
- **Lexicon** holds the fixed tables `_NUM_MAP` and `_MONTHS`.
- **DateExtraction** models `_extract_date_and_remove`. The numeric pattern is
  tried first, then the Spanish one. The matched span is replaced by one
  space and the text is cleaned again.
- **Airline** models `_extract_airline`: the `con <name>` capture of at most 41
  characters, the split at the first stop word, and title-casing.
- **Quantity** models `_extract_quantity`. Digits followed by a ticket keyword
  are tried first, then spelled-out number words.
- **Route** models `_extract_route`: `re.finditer` with the `de|desde ... a ...`
  pattern, the last match, and title-cased cities.
- **NlpParser** models `parse_user_message`.
- **DateUtils** models `normalize_date_es` and `_MONTH_TO_NUM`.
- **Chars**, **Numerals**, **WordRuns** and **Wrappers** are shared
  vocabulary. They hold character classes, decimal text and `int`/`str`
  round trips, word runs, and `Option`.

Each regular expression is written as a direct matcher over `seq<char>`. The
matcher follows the order in which Python's backtracking engine tries the
alternatives. Some patterns have only one viable path: `\d{1,2}` followed by
`-`, `\s+` followed by a letter, and a letter run followed by a space or a
boundary. There the matcher takes that path directly.

For the patterns whose matches matter beyond "is there one", a predicate
states what a match of the pattern is, independently of the matcher. Two
lemmas then tie the matcher to it: everything the matcher reports is a match
(soundness), and wherever the pattern can match, the matcher reports the match
the engine would (completeness).

| pattern | what a match is | sound | complete |
|---|---|---|---|
| numeric date, nlp_parser.py:32 | `DateExtraction.ValidNumeric` | `DateExtraction.NumericAt` | `DateExtraction.NumericAtComplete` |
| Spanish date, nlp_parser.py:41 | `DateExtraction.ValidSpanish` | `DateExtraction.SpanishAt` | `DateExtraction.SpanishAtComplete` |
| route, nlp_parser.py:84 | `Route.ValidRoute` | `Route.RouteAtIsValid` | `Route.RouteAtIsGreedy` |
| Spanish full-match, date_utils.py:33 | `DateUtils.SpanishParts` | `DateUtils.SpanishFull` | `DateUtils.SpanishFullComplete` |

On top of these, `DateExtraction.SearchNumericLeftmost` and
`DateExtraction.SearchSpanishLeftmost` characterise `re.search` as the
leftmost match. `DateExtraction.DateFoundIffPattern` states that no date is
found exactly when neither date pattern matches anywhere in the message.
`Route.IsFinditer` states what `re.finditer` reports:
- each match is found at its start;
- the matches are in order and do not overlap;
- no match starts before the first one, between two of them, or after the
  last one.

`Route.FindAll` meets `IsFinditer`, and `Route.FinditerUnique` proves that no
other sequence does. The airline and quantity matchers have no separate
predicate. Their contracts (`Airline.AirlineAtMatches`,
`Quantity.DigitQuantityAt`, `Quantity.WordQuantityAt`) state directly, in
both directions, when the pattern matches and what it captures.

The route pattern's `\b` on each side of `a` always holds once the
surrounding `\s+` have matched. `Route.ArrowSound` proves this, so
`Route.ArrowAt` does not test it again. The month alternation is passed to
the Spanish matcher as a parameter (`ms`). The parser always passes
`Lexicon.Months`.

### Behaviour of the code worth knowing

- **Only the date span is removed.** The airline, quantity and route are all
  read from the cleaned message with only the date span cut out
  (nlp_parser.py:106-109). The airline and quantity text stay in the text the
  route pattern reads. `NlpParser.ExtractorsReadRemaining` states this.
- **Greedy destination.** The destination capture
  `[a-záéíóúñ]+(?:\s+[a-záéíóúñ]+)*` is greedy. It takes every following
  letter word up to the next non-letter, non-space character or the end. For
  example, "billete de Quito a Madrid con Iberia para el 15 de octubre" gives
  the destination "Madrid Con Iberia Para El". `Route.RouteAtIsGreedy` states
  this: the matcher takes the longest origin and, for it, the longest
  destination.

## Model

| member | source | states |
|---|---|---|
| Text.Strip | nlp_parser.py:15 | `str.strip()`: the result neither starts nor ends with whitespace, and it is empty exactly when the input is all whitespace |
| Text.StripSlice | nlp_parser.py:15 | `str.strip()` removes exactly the leading and trailing whitespace: the result is the input's slice between them, and every character outside that slice is whitespace |
| Text.Collapse | nlp_parser.py:15 | `re.sub(r"\s+", " ", …)`: the result has no two adjacent whitespace characters, is no longer than the input, and is empty only for an empty input |
| Text.CleanText | nlp_parser.py:14-15 | `_clean_text` gives a clean text (stripped, single spaces only) with exactly the same words as its input |
| Text.CleanTextIdempotent | nlp_parser.py:14-15 | cleaning a cleaned text changes nothing |
| Text.CleanTextIsJoinOfWords | nlp_parser.py:14-15 | the cleaned text is its whitespace-separated words joined by single spaces |
| Text.SplitSpace | nlp_parser.py:20 | `split(" ")` gives at least one piece, no piece holds a space, and joining the pieces with `" "` gives back the text |
| Text.SplitOfJoin | nlp_parser.py:20 | splitting a space-join of space-free pieces gives back the pieces |
| Text.TitleCase | nlp_parser.py:18-20 | `_title_case` upper-cases the first character and lower-cases the rest of every word of the cleaned text, keeps the number of words, and every word is a title word |
| Text.TitleCaseOnlyChangesCase | nlp_parser.py:18-20 | the title-cased text is clean and equals the cleaned input up to letter case |
| Text.TitleCaseIdempotent | nlp_parser.py:18-20 | title-casing a title-cased text changes nothing |
| Text.WordsOfCollapse | nlp_parser.py:15 | collapsing whitespace keeps the list of words |
| Lexicon.NumTablesAgree | nlp_parser.py:5-9 | the number-word alternation lists exactly the keys of `_NUM_MAP`, and every value lies in 1..10 |
| Lexicon.NumWordValue | nlp_parser.py:5-9 | every number word the pattern can match has a `_NUM_MAP` entry in 1..10 |
| DateUtils.MonthTablesAgree | date_utils.py:6-10 | every alternative of `_MONTHS` is a key of `_MONTH_TO_NUM`, and every key is one of the alternatives |
| DateUtils.MonthNumbersInRange | date_utils.py:6-10 | every month number lies in 1..12 |
| DateUtils.MonthAlternativeIsKey | date_utils.py:6-10 | each alternative of the parser's `_MONTHS` is a key of `_MONTH_TO_NUM` and a non-empty lower-case word |
| DateUtils.MonthKeysAreLowerWords | date_utils.py:6-10 | every month key is a non-empty word of `[a-záéíóúñ]`, so the Spanish full-match can capture it |
| DateUtils.SeptemberSpellings | date_utils.py:8 | "septiembre" and "setiembre" normalise to the same date |
| DateExtraction.NumericAt | nlp_parser.py:32 | every match reported at a position is a match of `\b(\d{1,2})-(\d{1,2})-(\d{4})\b` there (`ValidNumeric`): word boundaries at both ends, 1-2, 1-2 and 4 digits, and the text is day-month-year joined by dashes |
| DateExtraction.NumericAtComplete | nlp_parser.py:32 | every match the numeric pattern allows at a position is the one reported there |
| DateExtraction.SearchNumeric | nlp_parser.py:33 | `re.search` returns the leftmost position where the numeric pattern matches; there is no match before it |
| DateExtraction.SearchNumericLeftmost | nlp_parser.py:32-33 | `re.search` reports `m` exactly when `m` is a match of the pattern and no match starts earlier |
| DateExtraction.SearchNumericNone | nlp_parser.py:32-34 | `re.search` finds nothing exactly when the numeric pattern matches nowhere |
| DateExtraction.AfterMonth | nlp_parser.py:41 | what follows the month is the optional `\s+de\s+(\d{4})` clause followed by a word boundary; the year is captured exactly as written |
| DateExtraction.AfterMonthComplete | nlp_parser.py:41 | whenever the rest of the pattern can follow the month, it matches, and the greedy `?` keeps a year clause that is there |
| DateExtraction.MonthFrom | nlp_parser.py:41 | the alternation tried from the `k`-th month on takes one of the listed months, at the given position |
| DateExtraction.MonthFromSound | nlp_parser.py:41 | the month taken matches there case-insensitively, and the optional year clause and a word boundary follow it |
| DateExtraction.MonthFromComplete | nlp_parser.py:41 | wherever a Spanish match has a month, the alternation finds one, at the latest that match's alternative, and with that alternative it keeps the year |
| DateExtraction.SpanishAt | nlp_parser.py:41-42 | every match reported at a position is a match of the Spanish pattern there (`ValidSpanish`): word boundary, 1-2 day digits, `\s+de\s+` in any case, a month of the alternation in any case, the optional year clause, word boundary |
| DateExtraction.SpanishAtComplete | nlp_parser.py:41-42 | wherever the Spanish pattern can match, a match is reported at the same position with the same month position, using the first month alternative that works; with the same alternative it equals any match that has a year |
| DateExtraction.SearchSpanish | nlp_parser.py:42 | the case-insensitive `re.search` returns the leftmost Spanish match; there is none before it |
| DateExtraction.SearchSpanishLeftmost | nlp_parser.py:41-43 | `re.search` finds nothing exactly when the Spanish pattern matches nowhere; otherwise it reports a match of the pattern that starts no later than any other and, at that start, prefers the earliest month alternative and the year |
| DateExtraction.MonthTextLowers | nlp_parser.py:46 | `m.group(2).lower()` of a Spanish match is the month alternative it matched |
| DateExtraction.ExtractDateAndRemove | nlp_parser.py:23-49 | no date exactly when neither pattern matches, and then the text is unchanged. Otherwise the numeric date wins, as written; a Spanish date has its month lower-cased and ` de yyyy` only when captured. In both cases the remaining text is the cleaned text with the span cut out, and its words are the words before plus the words after the span |
| DateExtraction.DateFoundIffPattern | nlp_parser.py:31-44 | no date is extracted exactly when neither the numeric nor the Spanish pattern matches anywhere in the message |
| DateExtraction.WordsAroundSpace | nlp_parser.py:37-38 | replacing the date span by a space joins the word lists on either side |
| Airline.AirlineAtMatches | nlp_parser.py:53 | the `\bcon\s+X` matcher succeeds at a position exactly when a boundary, "con" in any case, whitespace, a name-start character and one more name character are there |
| Airline.AirlineAtCapture | nlp_parser.py:53 | the capture is one name-start character followed by a maximal run of 1..40 name characters, cut short only by the limit, the end of the text or a non-name character |
| Airline.SearchAirline | nlp_parser.py:53 | the leftmost position where the airline pattern matches; none before it |
| Airline.FirstStop | nlp_parser.py:58 | the position of the first stop word (`de`, `desde`, `a`, `para`, `el`, `la`, `los`, `las` between word boundaries, any case), with none before it |
| Airline.AirlinePhrase | nlp_parser.py:57-58 | the stripped part before the first stop word contains no stop word and has no surrounding whitespace |
| Airline.PhraseWithoutStopword | nlp_parser.py:57-58 | a capture with no stop word is kept whole, only stripped |
| Airline.PhraseCutsAtFirstStopword | nlp_parser.py:58 | a capture is cut exactly at its first stop word |
| Airline.NoStopwordIffRuns | nlp_parser.py:58 | a text contains no stop word exactly when none of its maximal word runs, lower-cased, is a stop word |
| Airline.TitleCaseKeepsNoStopword | nlp_parser.py:59 | title-casing does not create a stop word |
| Airline.NameOfCapture | nlp_parser.py:57-59 | None exactly when the capture, cut at its first stop word and stripped, is empty; otherwise that phrase title-cased, non-empty, clean and with no stop word |
| Airline.ExtractAirline | nlp_parser.py:52-59 | None when the pattern matches nowhere; when it returns a name, that name is non-empty, clean, title-cased and has no stop word. Which name it is, and that a match whose phrase is empty after the stop-word cut also gives None, is stated by `Airline.ExtractAirlineOfLeftmost` and `Airline.NameOfCapture` |
| Airline.ExtractAirlineOfLeftmost | nlp_parser.py:53-59 | the result is the name made from the capture of the leftmost match of the airline pattern |
| Quantity.DigitGroupAt | nlp_parser.py:68 | the unique length of a 1-2 digit group with word boundaries on both sides, or 0 |
| Quantity.DigitQuantityAt | nlp_parser.py:68 | the digit pattern matches exactly when a whole 1-2 digit group is followed by optional whitespace and a ticket keyword ending at a boundary; the capture is those digits |
| Quantity.NumWordFrom | nlp_parser.py:72 | the first number word, in alternation order, that fits at the position; if none fits, no alternative fits |
| Quantity.WordQuantityAt | nlp_parser.py:72 | the word pattern matches exactly when a boundary and some number word followed by a keyword are there; the capture is that word |
| Quantity.SearchDigits | nlp_parser.py:68 | leftmost digit-quantity match; none before it |
| Quantity.SearchWords | nlp_parser.py:72 | leftmost word-quantity match; none before it |
| Quantity.ExtractQuantity | nlp_parser.py:62-76 | None exactly when neither pattern matches anywhere; otherwise a canonical decimal (`str(int(…))`) of value at most 99 |
| Quantity.WordValue | nlp_parser.py:74 | a matched number word has a `_NUM_MAP` entry in 1..10 |
| Quantity.TwoDigitsBelowHundred | nlp_parser.py:70 | one or two digits never exceed 99 |
| Quantity.DigitsComeFirst | nlp_parser.py:68-70 | the leftmost digit match decides the result, `str(int(digits))`, with the same value |
| Quantity.WordsComeSecond | nlp_parser.py:72-74 | with no digit match, the leftmost number word decides the result, the decimal of its `_NUM_MAP` value |
| Quantity.WordBranch | nlp_parser.py:72-74 | when the word search finds `w`, the result is the decimal of `_NUM_MAP[w]` |
| Numerals.Decimal | nlp_parser.py:70 | `str(n)`: non-empty digits with no leading zero and value `n` |
| Numerals.FormatFits | date_utils.py:29 | `f"{n:0wd}"` of a number below 10^w is exactly w digits with value n |
| Numerals.FormatValueRoundTrip | date_utils.py:27-29 | formatting `int(t)` back at the width of `t` gives `t` |
| Numerals.ValueInjective | date_utils.py:27 | two digit strings of equal length and equal value are equal |
| Route.DestEnd | nlp_parser.py:83-84 | the greedy destination end: a city tail ending at a word boundary |
| Route.ArrowSound | nlp_parser.py:84 | a found `\s+\ba\b\s+` has whitespace before, the letter a with a boundary on both sides, whitespace after, and a destination city |
| Route.OriginFromSound | nlp_parser.py:83-84 | the origin found by backtracking is a city tail followed by the arrow |
| Route.RouteAtIsValid | nlp_parser.py:84 | every match the matcher reports satisfies the whole pattern: keyword between boundaries, whitespace, origin city, whitespace, `a`, whitespace, destination city, boundary |
| Route.RouteAtIsGreedy | nlp_parser.py:83-84 | whenever the pattern can match at a position the matcher matches there, with the longest origin and for it the longest destination |
| Route.KeywordEndOfMatch | nlp_parser.py:84 | the keyword `de`/`desde` chosen first by the alternation is followed by the origin's whitespace in every valid match |
| Route.SearchRoute | nlp_parser.py:85 | leftmost route match from a position; none before it |
| Route.FindAll | nlp_parser.py:85 | `re.finditer`: every reported match is the matcher's match at its start, from the starting position on, and the whole report meets `IsFinditer`: in order, apart, and with no match skipped before, between or after the reported ones |
| Route.ConsFinditer | nlp_parser.py:85 | the leftmost match followed by the report after its end is the report from the start |
| Route.FinditerUnique | nlp_parser.py:85 | any sequence of matches that meets `IsFinditer` is exactly what `re.finditer` reports |
| Route.FindAllOrdered | nlp_parser.py:85 | the reported matches are ordered and do not overlap |
| Route.FindAllEmpty | nlp_parser.py:85-87 | no match is reported exactly when the pattern matches nowhere |
| Route.FindAllLast | nlp_parser.py:89 | no match starts after the end of the last reported match |
| Route.LastOfFindAll | nlp_parser.py:89 | `matches[-1]` is a valid match with no match after its end |
| Route.LastRoute | nlp_parser.py:85-89 | None exactly when the pattern matches nowhere; otherwise a valid match with none after it |
| Route.LastRouteOfFinditer | nlp_parser.py:85-89 | `matches[-1]` is the last element of what `re.finditer` reports, and there is none when it reports nothing |
| Route.CityName | nlp_parser.py:90 | a captured city becomes a non-empty title-cased form of its cleaned text |
| Route.ExtractRoute | nlp_parser.py:78-90 | origin and destination are both present or both absent; absent exactly when nothing matches; present, they are the title-cased captures of the last match |
| DateUtils.NumericFull | date_utils.py:25 | `re.fullmatch(r"(\d{1,2})-(\d{1,2})-(\d{4})")` captures 1-2, 1-2 and 4 digits that make up the whole text |
| DateUtils.NumericFullOfParts | date_utils.py:25 | the full-match recovers the parts of any such date text |
| DateUtils.DeFrom | date_utils.py:33 | the `\s+de\s+` read from a position is a whitespace run, `de` and a whitespace run, and ends before a non-space or at the end |
| DateUtils.DeFromComplete | date_utils.py:33 | every `\s+de\s+` that is followed by a non-space or the end is the one read |
| DateUtils.YearToEndComplete | date_utils.py:33 | every `\s+de\s+(\d{4})` reaching the end of the text is read as that year |
| DateUtils.SpanishFull | date_utils.py:33 | the Spanish full-match captures 1-2 day digits, a non-empty lower-case month word and an optional four-digit year, and these with whitespace runs around each `de` spell the whole text (`SpanishParts`) |
| DateUtils.SpanishFullComplete | date_utils.py:25-33 | every text that the Spanish pattern fully matches, with any whitespace runs around each `de`, is read back as its parts, and the numeric full-match fails on it |
| DateUtils.SpanishFullOfParts | date_utils.py:33 | the full-match recovers day, month word and year of `d de mes[ de yyyy]`, and the numeric full-match fails on it |
| DateUtils.FormatDate | date_utils.py:48 | `f"{d:02d}-{m:02d}-{y:04d}"` has a two-digit day and month with the given values and the year field `{y:04d}` |
| DateUtils.FromNumeric | date_utils.py:26-30 | a result exactly when day is in 1..31 and month in 1..12, and then zero-padded; already two-digit fields come back unchanged |
| DateUtils.NumericFormat | date_utils.py:29 | the formatted numeric date has the input's values, and equals the input when both fields had two digits |
| DateUtils.FromSpanish | date_utils.py:37-48 | a result exactly when the month is a key of `_MONTH_TO_NUM` and the day is in 1..31; the year is the captured one or the default; canonical `dd-mm-yyyy` when a year is written or the default year is in 0..9999 |
| DateUtils.NormalizeDateEs | date_utils.py:12-48 | None for a missing or empty input. Otherwise the stripped, lower-cased text goes to the numeric branch when it fully matches the numeric pattern, else to the Spanish branch when it matches that one, else the result is None. Every result has a valid day and month, and it is a canonical `dd-mm-yyyy` when the default year is in 0..9999 |
| DateUtils.NormalizeIgnoresSpaceAndCase | date_utils.py:22 | only the stripped, lower-cased text matters |
| DateUtils.NumericDateForm | date_utils.py:25-30 | any `d-m-yyyy` text goes to the numeric branch with its own fields |
| DateUtils.SpanishDateForm | date_utils.py:33-48 | any `d de mes[ de yyyy]` text goes to the Spanish branch with its own fields |
| DateUtils.CanonicalIsFixed | date_utils.py:25-29 | a canonical `dd-mm-yyyy` normalises to itself |
| DateUtils.NormalizeIdempotent | date_utils.py:12-48 | with a default year in 0..9999, normalising a normalised date again changes nothing, whatever the later default year |
| NlpParser.ParseUserMessage | nlp_parser.py:93-117 | origin and destination come together; no date exactly when the cleaned message has no date; the quantity is a canonical number at most 99; the airline is non-empty, clean and free of stop words |
| NlpParser.ExtractorsReadRemaining | nlp_parser.py:104-109 | the date is the one extracted from the cleaned message; airline, quantity and route are read from the cleaned message with the date span removed |
| NlpParser.NoDateKeepsMessage | nlp_parser.py:43-44 | with no date, the extractors read the cleaned message itself |
| NlpParser.ParseIgnoresWhitespaceLayout | nlp_parser.py:104 | the result depends only on the words of the message, not on its whitespace |
| NlpParser.RouteFields | nlp_parser.py:109 | the cities are title-cased, cleaned captures of the last route match in the remaining text |
| NlpParser.NumericDateNormalizes | nlp_parser.py:35-36 | an extracted numeric date reaches `normalize_date_es`'s numeric branch with the same digit groups |
| NlpParser.SpanishDateNormalizes | nlp_parser.py:46-47 | an extracted Spanish date always names a known month, so it normalises exactly when its day is in 1..31 |

## Left out

- app_web.py, assistant_bot.py, iata_client.py and iata_service.py are not part of this model. They handle the web and chat front ends and the airport-code lookups over the network.
- The current year that callers pass as `default_year` is the parameter `defaultYear`; no clock is modelled.
- Characters outside the alphabets the patterns target:
  - `\d` is modelled as the ASCII digits only; Python also accepts other Unicode decimal digits.
  - `\w` is exact on Latin-1 only. Characters above U+00FF count as non-word characters.
  - `re.IGNORECASE`, `str.lower` and `str.upper` are modelled only on A-Z and ÁÉÍÓÚÑ, and are the identity on every other character. Python's full Unicode case mapping is not modelled. That mapping includes multi-character results such as `"ß".upper() == "SS"` and the case-insensitive matches of `K` (Kelvin sign) with `k`, `ſ` with `s`, and `ı` (dotless i) with `i`. Because of these, Python's case-insensitive number-word pattern also matches texts such as "doſ billetes" or "seıs billetes", and `_NUM_MAP[m2.group(1).lower()]` (nlp_parser.py:74) then raises `KeyError`; on such texts `Quantity.ExtractQuantity` returns None instead.
- There is no general regular-expression engine. Each pattern of the two files has its own matcher, proved against a predicate that states the pattern's matches, or given an if-and-only-if contract.
- Python dictionaries returned by `parse_user_message` are the datatype `NlpParser.Parsed`; the key names themselves are not modelled.
- DateUtils.NormalizeDateEs: states canonical `dd-mm-yyyy` output only when the default year is in 0..9999. For other years it states only the day and month fields, because `{y:04d}` then gives a longer or signed year field.
- DateUtils.FormatDate: the year field is stated as `FormatInt(y, 4)`, the model of `{y:04d}`, and not spelled out for negative years.
