/**
 * `convertFretToMltl` of FRET_to_WEST_MLTL_Converter.js: the same stages as
 * Converter2 up to standardisation (the standardiser keeps its own map and
 * returns it), then `cleanFormula`, which only normalises spacing.
 */
module Converter {
  import opened Text
  import opened Validation
  import opened Tables
  import opened ConversionLog
  import IgnoredSymbols
  import Relational
  import SymbolMapping
  import Standardize
  import Spacing
  import RedundantParens
  import Converter2

  datatype Conversion = Conversion(
    convertedFormula: seq<char>,
    conversionSteps: seq<Step>,
    variableMap: Standardize.Names,
    ignoredSymbolsWithMeaning: seq<(seq<char>, seq<char>)>)

  const StepLabels: seq<seq<char>> := [
    "Validated formula",
    "Removed ignored symbols",
    "Handled relational operators",
    "Mapped FRET symbols",
    "Standardized variables",
    "Cleaned formula"
  ]

  /** `cleanFormula`: despite its comment, it removes no parenthesis; it is the spacing clean-up. */
  function CleanFormula(formula: seq<char>): seq<char> {
    Spacing.CleanUpSpacing(formula)
  }

  /** `standardizeVariables(formula)`: the renamed formula and the map it built from nothing. */
  method StandardizeVariables(formula: seq<char>) returns (standardizedFormula: seq<char>, variableMap: Standardize.Names)
    ensures standardizedFormula == Standardize.Standardized(formula, SymbolValues, map[]).out
    ensures variableMap == Standardize.Standardized(formula, SymbolValues, map[]).names
    ensures standardizedFormula == Standardize.Rename(formula, 0, SymbolValues, variableMap)
  {
    standardizedFormula, variableMap := Standardize.StandardizeVariables(formula, SymbolValues, map[]);
  }

  /** The log of one conversion: each stage's label with the formula it produced. */
  function Log(validated: seq<char>, removed: seq<char>, handled: seq<char>, mapped: seq<char>,
               standardized: seq<char>, last: seq<char>): seq<Step> {
    [Step(StepLabels[0], validated), Step(StepLabels[1], removed), Step(StepLabels[2], handled),
     Step(StepLabels[3], mapped), Step(StepLabels[4], standardized), Step(StepLabels[5], last)]
  }

  function Pipeline(formula: seq<char>): Conversion {
    var removed := IgnoredSymbols.RemoveIgnored(formula);
    var relational := Relational.HandleRelational(removed);
    var mapped := SymbolMapping.MapAll(relational);
    var standardized := Standardize.Standardized(mapped, SymbolValues, map[]);
    var cleaned := CleanFormula(standardized.out);
    Conversion(cleaned,
      Log(formula, removed, relational, mapped, standardized.out, cleaned),
      standardized.names, IgnoredTable)
  }

  function Convert(formula: seq<char>): Result<Conversion> {
    match ValidateFormula(formula)
    case Err(e) => Err(e)
    case Ok(_) => Ok(Pipeline(formula))
  }

  method ConvertFretToMltl(formula: seq<char>) returns (r: Result<Conversion>)
    ensures r == Convert(formula)
  {
    var validation := ValidateFormula(formula);
    if validation.Err? {
      return Err(validation.error);
    }
    var validated := Step(StepLabels[0], formula);
    var conversionSteps := [validated];
    var f := IgnoredSymbols.RemoveIgnoredSymbols(formula);
    var removed := Step(StepLabels[1], f);
    conversionSteps := conversionSteps + [removed];
    f := Relational.HandleRelational(f);
    var handled := Step(StepLabels[2], f);
    conversionSteps := conversionSteps + [handled];
    f := SymbolMapping.MapSymbols(f);
    var mapped := Step(StepLabels[3], f);
    conversionSteps := conversionSteps + [mapped];
    var variableMap;
    f, variableMap := StandardizeVariables(f);
    var standardized := Step(StepLabels[4], f);
    conversionSteps := conversionSteps + [standardized];
    f := CleanFormula(f);
    var cleaned := Step(StepLabels[5], f);
    conversionSteps := conversionSteps + [cleaned];
    SixPushes(validated, removed, handled, mapped, standardized, cleaned);
    r := Ok(Conversion(f, conversionSteps, variableMap, IgnoredTable));
  }

  /** `cleanFormula` changes nothing but blanks: every other character stays, in order. */
  lemma CleanFormulaOnlySpacing(formula: seq<char>)
    ensures NonSpace(CleanFormula(formula)) == NonSpace(formula)
    ensures Parens(CleanFormula(formula)) == Parens(formula)
  {
    Spacing.CleanUpSpacingNonSpace(formula);
    Spacing.CleanUpSpacingParens(formula);
  }

  lemma LogShape(validated: seq<char>, removed: seq<char>, handled: seq<char>, mapped: seq<char>,
                 standardized: seq<char>, last: seq<char>)
    ensures var log := Log(validated, removed, handled, mapped, standardized, last);
            |log| == 6 && (forall k :: 0 <= k < 6 ==> log[k].step == StepLabels[k])
            && (forall k :: 0 <= k < 6 ==>
                  log[k].formula == [validated, removed, handled, mapped, standardized, last][k])
  {
  }

  /** A conversion logs the six stages in order; the first is the input, the last the result. */
  lemma ConvertSteps(formula: seq<char>)
    requires Convert(formula).Ok?
    ensures var c := Convert(formula).value;
            |c.conversionSteps| == 6
            && (forall k :: 0 <= k < 6 ==> c.conversionSteps[k].step == StepLabels[k])
            && c.conversionSteps[0].formula == formula
            && c.conversionSteps[5].formula == c.convertedFormula
  {
    var removed := IgnoredSymbols.RemoveIgnored(formula);
    var relational := Relational.HandleRelational(removed);
    var mapped := SymbolMapping.MapAll(relational);
    var standardized := Standardize.Standardized(mapped, SymbolValues, map[]);
    var last := Convert(formula).value.convertedFormula;
    LogShape(formula, removed, relational, mapped, standardized.out, last);
  }

  /** A validated formula converts to a formula with as many `(` as `)`. */
  lemma ConvertBalanced(formula: seq<char>)
    requires Convert(formula).Ok?
    ensures Excess(Convert(formula).value.convertedFormula) == 0
  {
    var removed := IgnoredSymbols.RemoveIgnored(formula);
    var relational := Relational.HandleRelational(removed);
    var mapped := SymbolMapping.MapAll(relational);
    var standardized := Standardize.Standardized(mapped, SymbolValues, map[]);
    IgnoredSymbols.RemoveIgnoredParens(formula);
    SameParensSameCounts(removed, formula);
    Relational.HandleRelationalExcess(removed);
    SymbolMapping.MapAllParens(relational);
    SameParensSameCounts(mapped, relational);
    Standardize.StandardizedParens(mapped, SymbolValues, map[]);
    SameParensSameCounts(standardized.out, mapped);
    Spacing.CleanUpSpacingParens(standardized.out);
  }

  /**
   * The two versions accept the same formulas, log the same first five
   * formulas and build the same map; Converter2's result is this one with the
   * redundant parentheses removed.
   */
  lemma Converter2AddsParenRemoval(formula: seq<char>)
    ensures Convert(formula).Ok? <==> Converter2.Convert(formula).Ok?
    ensures Convert(formula).Ok? ==>
              var c, c2 := Convert(formula).value, Converter2.Convert(formula).value;
              c2.convertedFormula == RedundantParens.RemoveRedundant(c.convertedFormula)
              && c2.variableMap == c.variableMap
              && (forall k :: 0 <= k < 5 ==> c2.conversionSteps[k].formula == c.conversionSteps[k].formula)
  {
    if Convert(formula).Ok? {
      var removed := IgnoredSymbols.RemoveIgnored(formula);
      var relational := Relational.HandleRelational(removed);
      var mapped := SymbolMapping.MapAll(relational);
      var standardized := Standardize.Standardized(mapped, SymbolValues, map[]);
      var cleaned := CleanFormula(standardized.out);
      var finalized := RedundantParens.RemoveRedundant(cleaned);
      LogShape(formula, removed, relational, mapped, standardized.out, cleaned);
      Converter2.LogShape(formula, removed, relational, mapped, standardized.out, finalized);
    }
  }
}
