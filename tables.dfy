/**
 * The two fixed tables of the converter, in the insertion order of the
 * JavaScript object literals, which is the order `Object.keys` and
 * `Object.entries` visit them.
 */
module Tables {

  /** FRET keyword to MLTL symbol (`symbolMap`). */
  const SymbolTable: seq<(seq<char>, seq<char>)> := [
    ("eventually", "F"),
    ("always", "G"),
    ("until", "U"),
    ("release", "R"),
    ("true", "true"),
    ("false", "false"),
    ("and", "&"),
    ("or", "|"),
    ("not", "!"),
    ("->", "->"),
    ("=", "=")
  ]

  /** `Object.values(symbolMap)`: the identifiers the standardiser leaves alone. */
  const SymbolValues: set<seq<char>> := {"F", "G", "U", "R", "true", "false", "&", "|", "!", "->", "="}

  /** Ignored FRET operators and the reason each is dropped (`ignoredSymbolsWithMeaning`). */
  const IgnoredTable: seq<(seq<char>, seq<char>)> := [
    ("LAST V", "Indicates current state relevance; removed in conversion."),
    ("X", "Next operator; removed in conversion."),
    ("G", "Globally operator; removed in conversion."),
    ("F", "Finally operator; removed in conversion."),
    ("U", "Until operator; removed in conversion."),
    ("R", "Release operator; removed in conversion.")
  ]

  /** Every key of `table` is non-empty, so it can be searched for. */
  predicate NonEmptyKeys(table: seq<(seq<char>, seq<char>)>) {
    forall j :: 0 <= j < |table| ==> |table[j].0| > 0
  }
}
