/**
 * `fretToMltlConverter` of FRET_to_WEST_MLTL_Converter_beta3.js. Its stages
 * are closures that share two arrays, the steps log and the details of the
 * ignored operators that were found; here they are the methods of a
 * `Converter` object whose two fields are those arrays.
 *
 * Unlike the other two converters, beta3 trims only after removing an
 * operator that occurs, replaces parenthesised comparisons by placeholders
 * `p0`, `p1`, ... before standardising, and standardises from `p1`, so a
 * standardised name can be the same as a placeholder.
 */
module Beta3 {
  import opened Text
  import opened Tables
  import opened WholeWord
  import opened ConversionLog
  import IgnoredSymbols
  import opened PresentRemoval
  import SymbolMapping
  import Comparisons
  import Standardize
  import Spacing

  /** The object `convertFretToMltl` returns. */
  datatype Conversion = Conversion(
    formula: seq<char>,
    steps: seq<Step>,
    variableMap: Standardize.Names,
    ignoredSymbols: seq<(seq<char>, seq<char>)>)

  const StepLabels: seq<seq<char>> := [
    "Original formula",
    "Removed ignored time operators",
    "Mapped FRET symbols to MLTL",
    "Replaced comparison expressions",
    "Standardized variables",
    "Cleaned up spacing",
    "Final converted formula"
  ]

  /** The stages, each on the output of the one before. */
  function Removed(input: seq<char>): seq<char> {
    PresentRemoval.Removed(input, IgnoredTable, |IgnoredTable|)
  }

  function Details(input: seq<char>): seq<(seq<char>, seq<char>)> {
    PresentRemoval.Found(input, IgnoredTable, |IgnoredTable|)
  }

  function Mapped(input: seq<char>): seq<char> {
    SymbolMapping.MapAll(Removed(input))
  }

  function Replaced(input: seq<char>): seq<char> {
    Comparisons.Render(Comparisons.Scan(Mapped(input), 0))
  }

  function ComparisonMap(input: seq<char>): Standardize.Names {
    Comparisons.Placeholders(Comparisons.Scan(Mapped(input), 0))
  }

  /** Standardisation skips the placeholders and the MLTL symbols, and starts from an empty map. */
  function Standardization(input: seq<char>): Standardize.State {
    Standardize.Standardized(Replaced(input), ComparisonMap(input).Keys + SymbolValues, map[])
  }

  /** The log of one conversion: each stage's label with the formula it produced. */
  function Log(original: seq<char>, removed: seq<char>, mapped: seq<char>, replaced: seq<char>,
               standardized: seq<char>, cleaned: seq<char>): seq<Step> {
    [Step(StepLabels[0], original), Step(StepLabels[1], removed), Step(StepLabels[2], mapped),
     Step(StepLabels[3], replaced), Step(StepLabels[4], standardized), Step(StepLabels[5], cleaned),
     Step(StepLabels[6], cleaned)]
  }

  /** `fretToMltlConverter(input)`: the formula, the log, the merged map and the details found. */
  function Convert(input: seq<char>): Conversion {
    var standardized := Standardization(input);
    var cleaned := Spacing.CleanUpSpacing(standardized.out);
    Conversion(cleaned,
      Log(input, Removed(input), Mapped(input), Replaced(input), standardized.out, cleaned),
      ComparisonMap(input) + standardized.names,
      Details(input))
  }

  /** The closure environment of one `fretToMltlConverter` call. */
  class Converter {
    var steps: seq<Step>
    var ignoredSymbolsDetails: seq<(seq<char>, seq<char>)>

    constructor ()
      ensures steps == [] && ignoredSymbolsDetails == []
    {
      steps := [];
      ignoredSymbolsDetails := [];
    }

    method UpdateConversionSteps(step: seq<char>, formula: seq<char>)
      modifies this
      ensures steps == old(steps) + [Step(step, formula)]
      ensures ignoredSymbolsDetails == old(ignoredSymbolsDetails)
    {
      steps := steps + [Step(step, formula)];
    }

    method RemoveIgnoredSymbols(formula: seq<char>) returns (cleanedFormula: seq<char>)
      modifies this
      ensures cleanedFormula == PresentRemoval.Removed(formula, IgnoredTable, |IgnoredTable|)
      ensures ignoredSymbolsDetails == old(ignoredSymbolsDetails) + PresentRemoval.Found(formula, IgnoredTable, |IgnoredTable|)
      ensures steps == old(steps) + [Step(StepLabels[1], cleanedFormula)]
    {
      var found;
      cleanedFormula, found := RemoveIgnored(formula, IgnoredTable);
      ignoredSymbolsDetails := ignoredSymbolsDetails + found;
      UpdateConversionSteps(StepLabels[1], cleanedFormula);
    }

    method MapSymbols(formula: seq<char>) returns (r: seq<char>)
      modifies this
      ensures r == SymbolMapping.MapAll(formula)
      ensures steps == old(steps) + [Step(StepLabels[2], r)]
      ensures ignoredSymbolsDetails == old(ignoredSymbolsDetails)
    {
      r := SymbolMapping.MapSymbols(formula);
      UpdateConversionSteps(StepLabels[2], r);
    }

    method ReplaceComparisonExpressions(formula: seq<char>) returns (r: seq<char>, comparisonMap: Standardize.Names)
      modifies this
      ensures r == Comparisons.Render(Comparisons.Scan(formula, 0))
      ensures comparisonMap == Comparisons.Placeholders(Comparisons.Scan(formula, 0))
      ensures steps == old(steps) + [Step(StepLabels[3], r)]
      ensures ignoredSymbolsDetails == old(ignoredSymbolsDetails)
    {
      r, comparisonMap := Comparisons.ReplaceComparisonExpressions(formula);
      UpdateConversionSteps(StepLabels[3], r);
    }

    method StandardizeVariables(formula: seq<char>, excludeSet: set<seq<char>>)
      returns (r: seq<char>, variableMap: Standardize.Names)
      modifies this
      ensures r == Standardize.Standardized(formula, excludeSet + SymbolValues, map[]).out
      ensures variableMap == Standardize.Standardized(formula, excludeSet + SymbolValues, map[]).names
      ensures steps == old(steps) + [Step(StepLabels[4], r)]
      ensures ignoredSymbolsDetails == old(ignoredSymbolsDetails)
    {
      r, variableMap := Standardize.StandardizeVariables(formula, excludeSet + SymbolValues, map[]);
      UpdateConversionSteps(StepLabels[4], r);
    }

    method CleanUpSpacing(formula: seq<char>) returns (r: seq<char>)
      modifies this
      ensures r == Spacing.CleanUpSpacing(formula)
      ensures steps == old(steps) + [Step(StepLabels[5], r)]
      ensures ignoredSymbolsDetails == old(ignoredSymbolsDetails)
    {
      r := Spacing.CleanUpSpacing(formula);
      UpdateConversionSteps(StepLabels[5], r);
    }

    /** The returned object shares the two arrays, so its log and details are the fields' contents. */
    method ConvertFretToMltl(formula: seq<char>) returns (result: Conversion)
      modifies this
      ensures steps == old(steps) + Convert(formula).steps
      ensures ignoredSymbolsDetails == old(ignoredSymbolsDetails) + Convert(formula).ignoredSymbols
      ensures result == Convert(formula).(steps := steps, ignoredSymbols := ignoredSymbolsDetails)
    {
      ghost var log := steps;
      UpdateConversionSteps(StepLabels[0], formula);
      var f := RemoveIgnoredSymbols(formula);
      ghost var removed := f;
      f := MapSymbols(f);
      ghost var mapped := f;
      var compReplacedFormula, comparisonMap := ReplaceComparisonExpressions(f);
      var excludeSet := comparisonMap.Keys;
      var standardizedFormula, standardVarMap := StandardizeVariables(compReplacedFormula, excludeSet);
      f := CleanUpSpacing(standardizedFormula);
      UpdateConversionSteps(StepLabels[6], f);
      SevenPushes(log, Step(StepLabels[0], formula), Step(StepLabels[1], removed), Step(StepLabels[2], mapped),
        Step(StepLabels[3], compReplacedFormula), Step(StepLabels[4], standardizedFormula),
        Step(StepLabels[5], f), Step(StepLabels[6], f));
      var combinedVariableMap := comparisonMap + standardVarMap;
      result := Conversion(f, steps, combinedVariableMap, ignoredSymbolsDetails);
    }
  }

  /** `fretToMltlConverter`: a fresh environment for every call. */
  method FretToMltlConverter(inputFormula: seq<char>) returns (result: Conversion)
    ensures result == Convert(inputFormula)
  {
    var converter := new Converter();
    result := converter.ConvertFretToMltl(inputFormula);
  }

  lemma LogShape(original: seq<char>, removed: seq<char>, mapped: seq<char>, replaced: seq<char>,
                 standardized: seq<char>, cleaned: seq<char>)
    ensures var log := Log(original, removed, mapped, replaced, standardized, cleaned);
            |log| == 7 && (forall k :: 0 <= k < 7 ==> log[k].step == StepLabels[k])
            && (forall k :: 0 <= k < 7 ==>
                  log[k].formula == [original, removed, mapped, replaced, standardized, cleaned, cleaned][k])
  {
  }

  /**
   * A conversion logs seven steps in order: the input first, then each
   * stage's output; the last two are both the returned formula.
   */
  lemma ConvertSteps(input: seq<char>)
    ensures var c := Convert(input);
            |c.steps| == 7
            && (forall k :: 0 <= k < 7 ==> c.steps[k].step == StepLabels[k])
            && c.steps[0].formula == input
            && c.steps[5].formula == c.formula && c.steps[6].formula == c.formula
  {
    var standardized := Standardization(input).out;
    LogShape(input, Removed(input), Mapped(input), Replaced(input), standardized, Spacing.CleanUpSpacing(standardized));
  }

  /** No whole-word `LAST V`, `X`, `G`, `F`, `U` or `R` is left after the removal stage. */
  lemma RemovedLeavesNone(input: seq<char>)
    ensures forall j :: 0 <= j < |IgnoredTable| ==> NoWholeWord(Removed(input), IgnoredTable[j].0)
  {
    IgnoredSymbols.IgnoredArePlainPhrases();
    forall j | 0 <= j < |IgnoredTable|
      ensures NoWholeWord(Removed(input), IgnoredTable[j].0)
    {
      RemovePresentFree(input, IgnoredTable, |IgnoredTable|, j);
      FreeIsNoWholeWord(Removed(input), IgnoredTable[j].0);
    }
  }

  /** The conversion keeps the balance of `(` and `)` of its input. */
  lemma ConvertBalanced(input: seq<char>)
    ensures Excess(Convert(input).formula) == Excess(input)
  {
    var removed := Removed(input);
    var mapped := Mapped(input);
    var replaced := Replaced(input);
    var skip := ComparisonMap(input).Keys + SymbolValues;
    var standardized := Standardization(input).out;
    IgnoredSymbols.IgnoredArePlainPhrases();
    assert ParenFreeKeys(IgnoredTable);
    RemovePresentParens(input, IgnoredTable, |IgnoredTable|);
    SameParensSameCounts(removed, input);
    SymbolMapping.MapAllParens(removed);
    SameParensSameCounts(mapped, removed);
    Comparisons.ReplaceComparisonsExcess(mapped);
    assert Standardize.ParenFreeNames(map[]);
    Standardize.StandardizedParens(replaced, skip, map[]);
    SameParensSameCounts(standardized, replaced);
    Spacing.CleanUpSpacingParens(standardized);
  }

  /**
   * The merged map holds every key of both maps. No placeholder is a
   * standardised identifier, so neither map overwrites the other; the
   * standardised part is injective.
   */
  lemma ConvertVariableMap(input: seq<char>)
    ensures var m, cm, sm := Convert(input).variableMap, ComparisonMap(input), Standardization(input).names;
            m.Keys == cm.Keys + sm.Keys
            && (forall v :: v in cm ==> v !in sm && m[v] == cm[v])
            && (forall v :: v in sm ==> m[v] == sm[v])
            && (forall a, b :: a in sm && b in sm && sm[a] == sm[b] ==> a == b)
  {
    Standardize.FreshInjective(Replaced(input), ComparisonMap(input).Keys + SymbolValues);
  }

  /**
   * The name spaces collide: with two comparison groups and any identifier
   * to standardise, the first identifier is named `p1`, which is also the
   * second group's placeholder.
   */
  lemma PlaceholderCollision(input: seq<char>) returns (v: seq<char>)
    requires Comparisons.NumGroups(Comparisons.Scan(Mapped(input), 0)) >= 2
    requires Standardization(input).names != map[]
    ensures v in Standardization(input).names && Standardization(input).names[v] == Standardize.Name(1)
    ensures Standardize.Name(1) in ComparisonMap(input)
    ensures Convert(input).variableMap[v] == Standardize.Name(1)
  {
    v := Standardize.FirstName(Replaced(input), ComparisonMap(input).Keys + SymbolValues);
    Comparisons.PlaceholdersAt(Comparisons.Scan(Mapped(input), 0));
  }
}
