/**
 * `parse_user_message` of nlp_parser.py: clean the message, take one date
 * out of it, and run the airline, quantity and route extractors on what is
 * left. The five keys of the returned dictionary are the five fields of
 * `Parsed`.
 */
module NlpParser {
  import opened Wrappers
  import opened Chars
  import opened Text
  import opened Numerals
  import opened Lexicon
  import opened DateExtraction
  import opened Airline
  import opened Quantity
  import opened Route
  import DateUtils

  /** The dictionary `{"origen", "destino", "fecha", "cantidad", "aerolínea"}`. */
  datatype Parsed = Parsed(
    origin: Option<string>,
    destination: Option<string>,
    date: Option<string>,
    quantity: Option<string>,
    airline: Option<string>)

  /** The date-stripped text the three extractors read. */
  function Remaining(message: string): string {
    ExtractDateAndRemove(CleanText(message)).text
  }

  /** `parse_user_message(message)`. */
  function ParseUserMessage(message: string): (r: Parsed)
    ensures r.origin.Some? <==> r.destination.Some?
    ensures r.date.None? <==> SearchNumeric(CleanText(message), 0).None? && SearchSpanish(CleanText(message), 0, Months).None?
    ensures r.quantity.Some? ==> var q := r.quantity.value; AllDigits(q) && q != [] && Decimal(Value(q)) == q && Value(q) <= 99
    ensures r.airline.Some? ==> r.airline.value != [] && IsClean(r.airline.value) && NoStopword(r.airline.value)
  {
    var msg := CleanText(message);
    var d := ExtractDateAndRemove(msg);
    var (origin, destination) := ExtractRoute(d.text);
    Parsed(origin, destination, d.date, ExtractQuantity(d.text), ExtractAirline(d.text))
  }

  /**
   * The date is the one `_extract_date_and_remove` finds in the cleaned
   * message; airline, quantity and route come from the text with that date
   * span cut out, not from the message.
   */
  lemma ExtractorsReadRemaining(message: string)
    ensures var r := ParseUserMessage(message);
      && r.date == ExtractDateAndRemove(CleanText(message)).date
      && r.airline == ExtractAirline(Remaining(message))
      && r.quantity == ExtractQuantity(Remaining(message))
      && (r.origin, r.destination) == ExtractRoute(Remaining(message))
  {
  }

  /** With no date in the cleaned message, the extractors read the cleaned message itself. */
  lemma NoDateKeepsMessage(message: string)
    requires ParseUserMessage(message).date.None?
    ensures Remaining(message) == CleanText(message)
  {
  }

  /** Only the layout of whitespace in the message matters: cleaning it first changes nothing. */
  lemma ParseIgnoresWhitespaceLayout(message: string)
    ensures ParseUserMessage(CleanText(message)) == ParseUserMessage(message)
  {
    CleanTextIdempotent(message);
  }

  /** The cities of a parsed route are title-cased, cleaned captures of the last route match. */
  lemma RouteFields(message: string)
    requires ParseUserMessage(message).origin.Some?
    ensures var r := ParseUserMessage(message);
      var m := LastRoute(Remaining(message)).value;
      && IsTitleCaseOf(r.origin.value, CleanText(Remaining(message)[m.oStart..m.oEnd]))
      && IsTitleCaseOf(r.destination.value, CleanText(Remaining(message)[m.dStart..m.dEnd]))
  {
  }

  /** A numeric date is handed to `normalize_date_es` as written, and goes to its numeric branch with the same digit groups. */
  lemma NumericDateNormalizes(message: string, defaultYear: int)
    requires SearchNumeric(CleanText(message), 0).Some?
    ensures var m := SearchNumeric(CleanText(message), 0).value;
      DateUtils.NormalizeDateEs(ParseUserMessage(message).date, defaultYear) == DateUtils.FromNumeric(m.day, m.month, m.year)
  {
    var msg := CleanText(message);
    var m := SearchNumeric(msg, 0).value;
    assert ParseUserMessage(message).date == Some(m.day + "-" + m.month + "-" + m.year);
    DateUtils.NumericDateForm(m.day, m.month, m.year, defaultYear);
  }

  /**
   * A Spanish date the parser extracts names a month of `_MONTH_TO_NUM`, so
   * `normalize_date_es` accepts it exactly when its day is in 1..31.
   */
  lemma SpanishDateNormalizes(message: string, defaultYear: int)
    requires SearchNumeric(CleanText(message), 0).None? && SearchSpanish(CleanText(message), 0, Months).Some?
    ensures var m := SearchSpanish(CleanText(message), 0, Months).value;
      DateUtils.NormalizeDateEs(ParseUserMessage(message).date, defaultYear).Some? <==> 1 <= Value(m.day) <= 31
  {
    var msg := CleanText(message);
    var m := SearchSpanish(msg, 0, Months).value;
    var name := LowerAll(m.monthText);
    DateUtils.MonthAlternativeIsKey(m.monthIndex);
    assert ParseUserMessage(message).date == Some(m.day + " de " + name + DateUtils.YearSuffix(m.year));
    DateUtils.SpanishDateForm(m.day, name, m.year, defaultYear);
  }
}
