/** The fixed tables of nlp_parser.py: `_NUM_MAP` and `_MONTHS`. */
module Lexicon {

  /** The keys of `_NUM_MAP` in insertion order, which is the order of the regex alternation built from them. */
  const NumWords: seq<string> :=
    ["un", "uno", "una", "dos", "tres", "cuatro", "cinco", "seis", "siete", "ocho", "nueve", "diez"]

  /** `_NUM_MAP`: spelled-out Spanish cardinals to their values. */
  const NumMap: map<string, nat> :=
    map["un" := 1, "uno" := 1, "una" := 1, "dos" := 2, "tres" := 3, "cuatro" := 4, "cinco" := 5,
        "seis" := 6, "siete" := 7, "ocho" := 8, "nueve" := 9, "diez" := 10]

  /** The alternatives of `_MONTHS`, in pattern order. */
  const Months: seq<string> :=
    ["enero", "febrero", "marzo", "abril", "mayo", "junio", "julio", "agosto",
     "septiembre", "setiembre", "octubre", "noviembre", "diciembre"]

  /** The alternation lists exactly the keys of `_NUM_MAP`, and every value lies in 1..10. */
  lemma NumTablesAgree()
    ensures forall w :: w in NumWords <==> w in NumMap
    ensures forall w :: w in NumMap ==> 1 <= NumMap[w] <= 10
  {
  }

  /** Every word of the alternation is a key of `_NUM_MAP` with a value in 1..10. */
  lemma NumWordValue(w: string)
    requires w in NumWords
    ensures w in NumMap && 1 <= NumMap[w] <= 10
  {
    NumTablesAgree();
  }
}
