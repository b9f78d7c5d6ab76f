/**
 * `convertFretToMltl` and `main` of FRET_to_WEST_MLTL_Converter2.js: validate,
 * then remove ignored operators, desugar comparisons, map keywords,
 * standardise identifiers with a fresh map, clean up spacing and drop
 * redundant parentheses, logging the formula after each stage.
 */
module Converter2 {
  import opened Text
  import opened Validation
  import opened Tables
  import opened ConversionLog
  import IgnoredSymbols
  import Relational
  import SymbolMapping
  import Standardize
  import Spacing
  import RedundantParens

  /** The object `convertFretToMltl` returns. */
  datatype Conversion = Conversion(
    convertedFormula: seq<char>,
    conversionSteps: seq<Step>,
    variableMap: Standardize.Names,
    ignoredSymbolsWithMeaning: seq<(seq<char>, seq<char>)>)

  const StepLabels: seq<seq<char>> := [
    "Validated input formula",
    "Removed ignored symbols",
    "Handled relational operators",
    "Mapped FRET symbols",
    "Standardized variables",
    "Cleaned and finalized formula"
  ]

  /** The formula after the mapping stage, the input of the standardiser. */
  function Mapped(formula: seq<char>): seq<char> {
    SymbolMapping.MapAll(Relational.HandleRelational(IgnoredSymbols.RemoveIgnored(formula)))
  }

  /** The log of one conversion: each stage's label with the formula it produced. */
  function Log(validated: seq<char>, removed: seq<char>, handled: seq<char>, mapped: seq<char>,
               standardized: seq<char>, last: seq<char>): seq<Step> {
    [Step(StepLabels[0], validated), Step(StepLabels[1], removed), Step(StepLabels[2], handled),
     Step(StepLabels[3], mapped), Step(StepLabels[4], standardized), Step(StepLabels[5], last)]
  }

  /** The six stages on a formula that passed validation. */
  function Pipeline(formula: seq<char>): Conversion {
    var removed := IgnoredSymbols.RemoveIgnored(formula);
    var relational := Relational.HandleRelational(removed);
    var mapped := SymbolMapping.MapAll(relational);
    var standardized := Standardize.Standardized(mapped, SymbolValues, map[]);
    var finalized := RedundantParens.RemoveRedundant(Spacing.CleanUpSpacing(standardized.out));
    Conversion(finalized,
      Log(formula, removed, relational, mapped, standardized.out, finalized),
      standardized.names, IgnoredTable)
  }

  /** `convertFretToMltl`: the validation error, or the conversion. */
  function Convert(formula: seq<char>): Result<Conversion> {
    match ValidateFormula(formula)
    case Err(e) => Err(e)
    case Ok(_) => Ok(Pipeline(formula))
  }

  method ConvertFretToMltl(formula: seq<char>) returns (r: Result<Conversion>)
    ensures r == Convert(formula)
  {
    var validation := ValidateFormula(formula);
    if validation.Err? {
      return Err(validation.error);
    }
    var validated := Step(StepLabels[0], formula);
    var conversionSteps := [validated];
    var f := IgnoredSymbols.RemoveIgnoredSymbols(formula);
    var removed := Step(StepLabels[1], f);
    conversionSteps := conversionSteps + [removed];
    f := Relational.HandleRelational(f);
    var handled := Step(StepLabels[2], f);
    conversionSteps := conversionSteps + [handled];
    f := SymbolMapping.MapSymbols(f);
    var mapped := Step(StepLabels[3], f);
    conversionSteps := conversionSteps + [mapped];
    var variableMap;
    f, variableMap := Standardize.StandardizeVariables(f, SymbolValues, map[]);
    var standardized := Step(StepLabels[4], f);
    conversionSteps := conversionSteps + [standardized];
    f := Spacing.CleanUpSpacing(f);
    f := RedundantParens.RemoveRedundantParentheses(f);
    var finalized := Step(StepLabels[5], f);
    conversionSteps := conversionSteps + [finalized];
    SixPushes(validated, removed, handled, mapped, standardized, finalized);
    r := Ok(Conversion(f, conversionSteps, variableMap, IgnoredTable));
  }

  /** An invalid formula is rejected before any stage runs, with the validation's message. */
  lemma ConvertRejects(formula: seq<char>)
    ensures Convert(formula) == Err(EmptyFormula) <==> formula == []
    ensures Convert(formula) == Err(UnmatchedParentheses) <==>
            formula != [] && Count(formula, '(') != Count(formula, ')')
    ensures Convert(formula).Ok? <==> formula != [] && Count(formula, '(') == Count(formula, ')')
  {
  }

  lemma LogShape(validated: seq<char>, removed: seq<char>, handled: seq<char>, mapped: seq<char>,
                 standardized: seq<char>, last: seq<char>)
    ensures var log := Log(validated, removed, handled, mapped, standardized, last);
            |log| == 6 && (forall k :: 0 <= k < 6 ==> log[k].step == StepLabels[k])
            && (forall k :: 0 <= k < 6 ==>
                  log[k].formula == [validated, removed, handled, mapped, standardized, last][k])
  {
  }

  /** A conversion logs the six stages in order; the first is the input, the last the result. */
  lemma ConvertSteps(formula: seq<char>)
    requires Convert(formula).Ok?
    ensures var c := Convert(formula).value;
            |c.conversionSteps| == 6
            && (forall k :: 0 <= k < 6 ==> c.conversionSteps[k].step == StepLabels[k])
            && c.conversionSteps[0].formula == formula
            && c.conversionSteps[5].formula == c.convertedFormula
  {
    var removed := IgnoredSymbols.RemoveIgnored(formula);
    var relational := Relational.HandleRelational(removed);
    var mapped := SymbolMapping.MapAll(relational);
    var standardized := Standardize.Standardized(mapped, SymbolValues, map[]);
    var last := Convert(formula).value.convertedFormula;
    LogShape(formula, removed, relational, mapped, standardized.out, last);
  }

  /** The map is the fresh one filled by the standardiser: injective, and no MLTL symbol is renamed. */
  lemma ConvertVariableMap(formula: seq<char>)
    requires Convert(formula).Ok?
    ensures var m := Convert(formula).value.variableMap;
            (forall a, b :: a in m && b in m && m[a] == m[b] ==> a == b)
            && (forall v :: v in SymbolValues ==> v !in m)
  {
    Standardize.FreshInjective(Mapped(formula), SymbolValues);
  }

  /** A validated formula converts to a formula with as many `(` as `)`. */
  lemma ConvertBalanced(formula: seq<char>)
    requires Convert(formula).Ok?
    ensures Excess(Convert(formula).value.convertedFormula) == 0
  {
    var removed := IgnoredSymbols.RemoveIgnored(formula);
    var relational := Relational.HandleRelational(removed);
    var mapped := SymbolMapping.MapAll(relational);
    var standardized := Standardize.Standardized(mapped, SymbolValues, map[]);
    var cleaned := Spacing.CleanUpSpacing(standardized.out);
    IgnoredSymbols.RemoveIgnoredParens(formula);
    SameParensSameCounts(removed, formula);
    Relational.HandleRelationalExcess(removed);
    SymbolMapping.MapAllParens(relational);
    SameParensSameCounts(mapped, relational);
    Standardize.StandardizedParens(mapped, SymbolValues, map[]);
    SameParensSameCounts(standardized.out, mapped);
    Spacing.CleanUpSpacingParens(standardized.out);
    RedundantParens.RemoveRedundantExcess(cleaned);
  }

  /**
   * `main`: converts every formula in order, each with its own fresh map; the
   * first invalid formula makes the whole batch fail with its error.
   */
  method ConvertAll(fretFormulas: seq<seq<char>>) returns (r: Result<seq<Conversion>>)
    ensures r.Ok? <==> forall i :: 0 <= i < |fretFormulas| ==> Convert(fretFormulas[i]).Ok?
    ensures r.Ok? ==>
              |r.value| == |fretFormulas| &&
              forall i :: 0 <= i < |fretFormulas| ==> Convert(fretFormulas[i]) == Ok(r.value[i])
    ensures r.Err? ==>
              exists i :: 0 <= i < |fretFormulas| && Convert(fretFormulas[i]) == Err(r.error) &&
                (forall k :: 0 <= k < i ==> Convert(fretFormulas[k]).Ok?)
  {
    var results: seq<Conversion> := [];
    for i := 0 to |fretFormulas|
      invariant |results| == i && ConvertedPrefix(fretFormulas, results)
    {
      var c := ConvertFretToMltl(fretFormulas[i]);
      if c.Err? {
        return Err(c.error);
      }
      ConvertedExtend(fretFormulas, results, c.value);
      results := results + [c.value];
    }
    r := Ok(results);
  }

  /** `results` are the conversions of the first `|results|` formulas. */
  predicate ConvertedPrefix(fretFormulas: seq<seq<char>>, results: seq<Conversion>) {
    |results| <= |fretFormulas| &&
    forall k :: 0 <= k < |results| ==> Convert(fretFormulas[k]) == Ok(results[k])
  }

  lemma ConvertedExtend(fretFormulas: seq<seq<char>>, results: seq<Conversion>, c: Conversion)
    requires ConvertedPrefix(fretFormulas, results) && |results| < |fretFormulas|
    requires Convert(fretFormulas[|results|]) == Ok(c)
    ensures ConvertedPrefix(fretFormulas, results + [c])
  {
  }
}
