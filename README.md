# FRET to MLTL converters and fullmark.java, modelled in Dafny

This project models the three FRET-to-MLTL formula converters of
`FRET_to_WEST_MLTL_Converter/` and the algorithms of `fullmark.java`.

**The converters.** Each turns a FRET requirement formula into an MLTL formula
through a chain of text rewrites:
- validation (`validateFormula`);
- deletion of the ignored temporal operators `LAST V`, `X`, `G`, `F`, `U`, `R`;
- desugaring of `<`, `<=`, `>`, `>=`;
- keyword mapping (`eventually` to `F`, `and` to `&`, ...);
- renaming of identifiers to `p1`, `p2`, ...;
- spacing clean-up;
- in `FRET_to_WEST_MLTL_Converter2.js` only, removal of redundant parentheses.

Every regular expression the converters use is written out as a scanner over
the string, with the same matching rules:
- whole-word literals under `\b`;
- the four comparison patterns `(\w+)\s*op\s*(\w+)`;
- the identifier pattern `\b[a-zA-Z_]\w*\b`;
- the three spacing rewrites;
- beta3's parenthesised-comparison pattern, including its `(?<!-)`.

The JavaScript `\s` and `trim()` whitespace set is modelled in full.

**fullmark.java.** Three parts are modelled:
- `mergeSort` and `merge` over `array<int>`;
- `quickSort` with its two inner scans;
- the fixed-capacity circular `Queue`, as a class over an array with a ghost sequence of its contents.

The modules:
- `Text`: shared string helpers.
- `Tables`: the two object literals.
- `Validation`.
- `WholeWord`: the `\bp\b` replacement.
- `IgnoredSymbols`: removal in Converter and Converter2.
- `PresentRemoval`: removal in beta3.
- `SymbolMapping`.
- `Relational`.
- `Standardize`.
- `Spacing`.
- `RedundantParens`.
- `Comparisons`: beta3's placeholders.
- `ConversionLog`.
- `Converter`, `Converter2` and `Beta3`: the three pipelines.
- `Sorting`.
- `CircularQueue`.

**Validation follows the code.** The repository describes validation as a check
for unmatched parentheses, but `validateFormula` compares only the two counts,
so `)(` passes. The model follows the code, and `Validation.ValidationIgnoresOrder` states this.

## Model

Paths are relative to the repository's source tree.

| member | source | states |
|---|---|---|
| Validation.ValidateFormula | FRET_to_WEST_MLTL_Converter/FRET_to_WEST_MLTL_Converter2.js:31-41 | The empty-formula error exactly for the empty string. The unmatched-parentheses error exactly for a non-empty formula with different numbers of `(` and `)`. Acceptance otherwise. |
| Validation.ParenFoldCounts | FRET_to_WEST_MLTL_Converter/FRET_to_WEST_MLTL_Converter2.js:33-37 | The `reduce` ends at its start value plus the number of `(` minus the number of `)`, whatever the order. |
| Validation.ValidationIgnoresOrder | FRET_to_WEST_MLTL_Converter/FRET_to_WEST_MLTL_Converter2.js:38-40 | `)(` is accepted: only the final count is checked. |
| Validation.ValidationAcceptsBlank | FRET_to_WEST_MLTL_Converter/FRET_to_WEST_MLTL_Converter2.js:32 | A formula of blanks is not empty, so it is accepted. |
| Validation.ValidationRejectsUnclosed | FRET_to_WEST_MLTL_Converter/FRET_to_WEST_MLTL_Converter2.js:38-40 | `(a & b` is rejected as unmatched. |
| Text.TrimShape | FRET_to_WEST_MLTL_Converter/FRET_to_WEST_MLTL_Converter2.js:51 | `trim()` yields the input minus leading and trailing whitespace. The result is empty, or neither begins nor ends with whitespace. |
| Text.TrimNonSpace | FRET_to_WEST_MLTL_Converter/FRET_to_WEST_MLTL_Converter2.js:51 | Trimming keeps every non-whitespace character, in order. |
| Text.TrimNoop | FRET_to_WEST_MLTL_Converter/FRET_to_WEST_MLTL_Converter2.js:107 | A string with no whitespace at either end is left as it is by trimming. |
| Text.TrimParens | FRET_to_WEST_MLTL_Converter/FRET_to_WEST_MLTL_Converter2.js:140 | Trimming keeps the sequence of parentheses. |
| Text.NatToString | FRET_to_WEST_MLTL_Converter/FRET_to_WEST_MLTL_Converter2.js:93 | The decimal text of a counter is a non-empty run of digits, one digit exactly below ten. |
| Text.NatToStringInjective | FRET_to_WEST_MLTL_Converter/FRET_to_WEST_MLTL_Converter2.js:93 | Different counters print differently. |
| WholeWord.FreeIsNoWholeWord | FRET_to_WEST_MLTL_Converter/FRET_to_WEST_MLTL_Converter_beta3.js:42-43 | The scanner finds no whole-word match exactly when no position of the string starts a `\bq\b` match, that is, when `regex.test` is false. |
| WholeWord.ReplaceSelf | FRET_to_WEST_MLTL_Converter/FRET_to_WEST_MLTL_Converter2.js:63-66 | Replacing a keyword by itself (`true`, `false`, `->`, `=`) changes nothing. |
| WholeWord.ReplaceParens | FRET_to_WEST_MLTL_Converter/FRET_to_WEST_MLTL_Converter2.js:64-65 | A replacement with the same parentheses as its pattern keeps the sequence of parentheses of the formula. |
| WholeWord.ReplaceFree | FRET_to_WEST_MLTL_Converter/FRET_to_WEST_MLTL_Converter2.js:64-65 | Where the pattern never matches, `replace` returns its input. |
| WholeWord.ReplaceWord | FRET_to_WEST_MLTL_Converter/FRET_to_WEST_MLTL_Converter2.js:50-51 | `s.replace(new RegExp("\\b" + p + "\\b", "g"), rep)` for a literal `p`: a left-to-right scan that replaces each leftmost non-overlapping whole-word occurrence. `FreeIsNoWholeWord` ties its notion of occurrence to `regex.test`. `ReplaceFree` shows an absent pattern leaves the text as it is. `FreeAfterDelete` and `FreeAfterReplace` show that afterwards the pattern is absent and no absent keyword appears. |
| WholeWord.FreeAfterDelete | FRET_to_WEST_MLTL_Converter/FRET_to_WEST_MLTL_Converter2.js:50-51 | Deleting the whole-word occurrences of an operator leaves none of it, and creates no whole-word occurrence of a phrase that was absent. |
| WholeWord.FreeAfterReplace | FRET_to_WEST_MLTL_Converter/FRET_to_WEST_MLTL_Converter2.js:63-66 | Replacing a keyword by a different word or by punctuation leaves that keyword, and every keyword already absent, absent. |
| WholeWord.FreeTrim | FRET_to_WEST_MLTL_Converter/FRET_to_WEST_MLTL_Converter2.js:51 | Trimming creates no whole-word occurrence. |
| WholeWord.LoneWordFree | FRET_to_WEST_MLTL_Converter/FRET_to_WEST_MLTL_Converter2.js:50 | A single word holds a whole-word token exactly when it is that token. |
| WholeWord.ReplaceWholeInput | FRET_to_WEST_MLTL_Converter/FRET_to_WEST_MLTL_Converter2.js:64-65 | A formula that is exactly the keyword becomes exactly its replacement. |
| WholeWord.ShortFree | FRET_to_WEST_MLTL_Converter/FRET_to_WEST_MLTL_Converter2.js:50 | A string shorter than the pattern holds no occurrence of it. |
| WholeWord.AllWordFree | FRET_to_WEST_MLTL_Converter/FRET_to_WEST_MLTL_Converter2.js:50 | A string of word characters holds no occurrence of a pattern that contains a non-word character (such as the space of `LAST V`). |
| IgnoredSymbols.IgnoredArePlainPhrases | FRET_to_WEST_MLTL_Converter/FRET_to_WEST_MLTL_Converter2.js:17-24 | Every ignored operator is a word-delimited phrase without parentheses. |
| IgnoredSymbols.RemoveIgnoredSymbols | FRET_to_WEST_MLTL_Converter/FRET_to_WEST_MLTL_Converter2.js:48-54 | The loop computes the table-order removal. It keeps the formula's parentheses and leaves no whole-word ignored operator. |
| IgnoredSymbols.RemoveOneParens | FRET_to_WEST_MLTL_Converter/FRET_to_WEST_MLTL_Converter2.js:50-51 | One delete-and-trim keeps the sequence of parentheses. |
| IgnoredSymbols.RemoveIgnoredParens | FRET_to_WEST_MLTL_Converter/FRET_to_WEST_MLTL_Converter2.js:48-54 | Removal neither adds nor deletes a parenthesis. |
| IgnoredSymbols.RemoveOneFree | FRET_to_WEST_MLTL_Converter/FRET_to_WEST_MLTL_Converter2.js:50-51 | One delete-and-trim clears its operator and keeps every absent operator absent. |
| IgnoredSymbols.RemoveFirstFree | FRET_to_WEST_MLTL_Converter/FRET_to_WEST_MLTL_Converter2.js:49-52 | After `k` table entries, none of their operators occurs as a whole word. |
| IgnoredSymbols.RemoveIgnoredLeavesNone | FRET_to_WEST_MLTL_Converter/FRET_to_WEST_MLTL_Converter2.js:48-54 | No whole-word `LAST V`, `X`, `G`, `F`, `U` or `R` is left. |
| IgnoredSymbols.LoneWordKept | FRET_to_WEST_MLTL_Converter/FRET_to_WEST_MLTL_Converter2.js:48-54 | A single word of any length that is none of the one-word ignored tokens survives removal unchanged: `LAST V` cannot match inside it and the other tokens match only the whole word. |
| IgnoredSymbols.LoneLastKept | FRET_to_WEST_MLTL_Converter/FRET_to_WEST_MLTL_Converter2.js:18 | A bare `LAST` is kept, because only the phrase `LAST V` is ignored. |
| PresentRemoval.RemoveIgnored | FRET_to_WEST_MLTL_Converter/FRET_to_WEST_MLTL_Converter_beta3.js:39-50 | The beta3 loop leaves the formula `Removed` and logs the entries `Found`, the specification functions of the table-order turns. |
| PresentRemoval.RemovePresentParens | FRET_to_WEST_MLTL_Converter/FRET_to_WEST_MLTL_Converter_beta3.js:41-47 | beta3's removal keeps the sequence of parentheses. |
| PresentRemoval.RemovePresentFree | FRET_to_WEST_MLTL_Converter/FRET_to_WEST_MLTL_Converter_beta3.js:41-47 | After `k` entries, none of their operators occurs as a whole word. |
| PresentRemoval.DetailsInOrder | FRET_to_WEST_MLTL_Converter/FRET_to_WEST_MLTL_Converter_beta3.js:43-44 | The details log lists only entries whose operator occurred when its turn came, in table order (that every such entry is listed is `DetailsComplete`). |
| PresentRemoval.DetailsComplete | FRET_to_WEST_MLTL_Converter/FRET_to_WEST_MLTL_Converter_beta3.js:43-44 | Every entry whose operator occurred at its turn is in the details log. |
| PresentRemoval.NoDetailsNoChange | FRET_to_WEST_MLTL_Converter/FRET_to_WEST_MLTL_Converter_beta3.js:41-47 | With nothing logged, the formula comes back untouched, not even trimmed. |
| SymbolMapping.MapSymbols | FRET_to_WEST_MLTL_Converter/FRET_to_WEST_MLTL_Converter2.js:62-68 | The loop computes the table-order mapping. It keeps the parentheses and leaves no whole-word rewritten keyword. |
| SymbolMapping.SymbolTableWellFormed | FRET_to_WEST_MLTL_Converter/FRET_to_WEST_MLTL_Converter2.js:2-14 | Every entry of `symbolMap` either maps a keyword to itself or rewrites a word keyword into a symbol. No symbol is a later keyword, and each entry keeps its parentheses. |
| SymbolMapping.SymbolTableEntries | FRET_to_WEST_MLTL_Converter/FRET_to_WEST_MLTL_Converter2.js:2-14 | Each entry maps to itself or rewrites a word keyword. |
| SymbolMapping.SymbolTableParens | FRET_to_WEST_MLTL_Converter/FRET_to_WEST_MLTL_Converter2.js:2-14 | No entry adds or removes a parenthesis. |
| SymbolMapping.SymbolTableDistinct | FRET_to_WEST_MLTL_Converter/FRET_to_WEST_MLTL_Converter2.js:2-14 | The rewriting keywords are distinct. |
| SymbolMapping.MapAllParens | FRET_to_WEST_MLTL_Converter/FRET_to_WEST_MLTL_Converter2.js:62-68 | Mapping keeps the sequence of parentheses. |
| SymbolMapping.KeptEntryChangesNothing | FRET_to_WEST_MLTL_Converter/FRET_to_WEST_MLTL_Converter2.js:63-66 | An entry mapping a keyword to itself changes nothing. |
| SymbolMapping.MapFirstFree | FRET_to_WEST_MLTL_Converter/FRET_to_WEST_MLTL_Converter2.js:63-66 | Once a rewriting entry has been applied, its keyword stays absent through every later entry. |
| SymbolMapping.MapAllLeavesNoKeyword | FRET_to_WEST_MLTL_Converter/FRET_to_WEST_MLTL_Converter2.js:62-68 | No whole-word `eventually`, `always`, `until`, `release`, `and`, `or` or `not` is left. |
| SymbolMapping.MapFirstOnKeyword | FRET_to_WEST_MLTL_Converter/FRET_to_WEST_MLTL_Converter2.js:63-66 | A keyword alone stays itself until its own entry, and is its symbol from then on. |
| SymbolMapping.MapKeyword | FRET_to_WEST_MLTL_Converter/FRET_to_WEST_MLTL_Converter2.js:62-68 | A rewriting keyword alone maps to its own symbol, and no later entry rewrites it again. |
| Relational.OpText | FRET_to_WEST_MLTL_Converter/FRET_to_WEST_MLTL_Converter2.js:77-80 | Each operator is one or two characters from `<>=`, starting with `<` or `>`. |
| Relational.ReplaceAll | FRET_to_WEST_MLTL_Converter/FRET_to_WEST_MLTL_Converter2.js:77 | One `.replace(/(\w+)\s*op\s*(\w+)/g, template)`: each match the scanner reports is replaced by the template over its two operands. `MatchAtSound` and `MatchAtComplete` show the reported matches are exactly the greedy matches of the pattern. |
| Relational.MatchAtSound | FRET_to_WEST_MLTL_Converter/FRET_to_WEST_MLTL_Converter2.js:77 | Every match the scanner reports is `(\w+)\s*op\s*(\w+)`, with each greedy part taken in full. |
| Relational.MatchAtComplete | FRET_to_WEST_MLTL_Converter/FRET_to_WEST_MLTL_Converter2.js:77-80 | Wherever the pattern matches with greedy parts, the scanner reports exactly those parts. |
| Relational.RewriteNoMatch | FRET_to_WEST_MLTL_Converter/FRET_to_WEST_MLTL_Converter2.js:76-80 | Where no comparison starts, the replacement copies the text. |
| Relational.RewriteGuarded | FRET_to_WEST_MLTL_Converter/FRET_to_WEST_MLTL_Converter2.js:77-80 | A text whose every operator character follows a `-` is left as it is. |
| Relational.HandleRelationalKeepsImplications | FRET_to_WEST_MLTL_Converter/FRET_to_WEST_MLTL_Converter2.js:75-81 | A formula with no `<` and whose every `>` belongs to `->` passes the four replacements unchanged. |
| Relational.TemplateExcess | FRET_to_WEST_MLTL_Converter/FRET_to_WEST_MLTL_Converter2.js:77-80 | Each replacement template has balanced parentheses. |
| Relational.RewriteExcess | FRET_to_WEST_MLTL_Converter/FRET_to_WEST_MLTL_Converter2.js:76-80 | One replacement keeps the difference between `(` and `)` counts. |
| Relational.HandleRelationalExcess | FRET_to_WEST_MLTL_Converter/FRET_to_WEST_MLTL_Converter2.js:75-81 | The four replacements keep the difference between `(` and `)` counts. |
| Relational.WrittenMatch | FRET_to_WEST_MLTL_Converter/FRET_to_WEST_MLTL_Converter2.js:77-80 | A written-out comparison is matched at its start, with exactly its two operands. |
| Relational.ReplaceWritten | FRET_to_WEST_MLTL_Converter/FRET_to_WEST_MLTL_Converter2.js:77-80 | Its own replacement turns `A op B` into the template filled with `A` and `B`. |
| Relational.TemplateHasNoComparison | FRET_to_WEST_MLTL_Converter/FRET_to_WEST_MLTL_Converter2.js:77-80 | The templates hold neither `<` nor `>`. |
| Relational.OrEqualNotCaught | FRET_to_WEST_MLTL_Converter/FRET_to_WEST_MLTL_Converter2.js:77-79 | `A <= B` is not matched by the `<` rule, nor `A >= B` by the `>` rule. |
| Relational.HandleRelational | FRET_to_WEST_MLTL_Converter/FRET_to_WEST_MLTL_Converter2.js:75-81 | `handleRelationalOperators`, in the same form in FRET_to_WEST_MLTL_Converter.js:74-80: the four replacements for `<`, `<=`, `>`, `>=` in that order. `HandleRelationalTemplate` shows each form comes out as its template, and `HandleRelationalExcess` shows the balance of parentheses is kept. |
| Relational.HandleRelationalTemplate | FRET_to_WEST_MLTL_Converter/FRET_to_WEST_MLTL_Converter2.js:75-81 | Each of the four forms, written out alone, comes out of the whole chain as its template. |
| Standardize.Name | FRET_to_WEST_MLTL_Converter/FRET_to_WEST_MLTL_Converter2.js:93 | `p<k>` is a word of at least two characters starting with `p`, with no parenthesis. |
| Standardize.NameInjective | FRET_to_WEST_MLTL_Converter/FRET_to_WEST_MLTL_Converter2.js:93 | Different counters give different names. |
| Standardize.StandardizeVariables | FRET_to_WEST_MLTL_Converter/FRET_to_WEST_MLTL_Converter2.js:89-96 | The scan with the callback's state computes the output and the map of `Standardized`. The output renames every identifier by the final map. Every truthy name the map already held is kept. |
| Standardize.RunKeeps | FRET_to_WEST_MLTL_Converter/FRET_to_WEST_MLTL_Converter2.js:93 | A name the map already held is never changed. |
| Standardize.RunRename | FRET_to_WEST_MLTL_Converter/FRET_to_WEST_MLTL_Converter2.js:91-95 | The scan's output is the renaming by its final map, so every occurrence of an identifier gets the same name. |
| Standardize.NumberingInjective | FRET_to_WEST_MLTL_Converter/FRET_to_WEST_MLTL_Converter2.js:93 | Numbering distinct identifiers gives distinct names, each `p<k>` with `k` between 1 and their number. |
| Standardize.StandardizedFresh | FRET_to_WEST_MLTL_Converter/FRET_to_WEST_MLTL_Converter2.js:89-96 | With an empty map, the final map numbers the non-skipped identifiers `p1, p2, ...` in first-seen order, and no skipped word is named. |
| Standardize.FreshInjective | FRET_to_WEST_MLTL_Converter/FRET_to_WEST_MLTL_Converter.js:87-96 | A fresh map never gives two identifiers one name and never names a skipped word. |
| Standardize.StandardizedParens | FRET_to_WEST_MLTL_Converter/FRET_to_WEST_MLTL_Converter2.js:89-96 | Renaming keeps the sequence of parentheses. |
| Standardize.CounterRestarts | FRET_to_WEST_MLTL_Converter/FRET_to_WEST_MLTL_Converter2.js:89-93 | The counter starts at zero on every call. A map that already names `x` as `p1` still lets a new `y` be named `p1`. |
| Standardize.FirstName | FRET_to_WEST_MLTL_Converter/FRET_to_WEST_MLTL_Converter_beta3.js:88 | With a fresh map, the first identifier renamed is named `p1`. |
| Spacing.TightenTight | FRET_to_WEST_MLTL_Converter/FRET_to_WEST_MLTL_Converter2.js:105 | After the first rewrite, no whitespace stands next to a class character. |
| Spacing.TightenNonSpace | FRET_to_WEST_MLTL_Converter/FRET_to_WEST_MLTL_Converter2.js:105 | The first rewrite removes only whitespace. |
| Spacing.CollapseShape | FRET_to_WEST_MLTL_Converter/FRET_to_WEST_MLTL_Converter2.js:106 | On a tight string, the second rewrite leaves every whitespace character a lone space. |
| Spacing.CollapseNonSpace | FRET_to_WEST_MLTL_Converter/FRET_to_WEST_MLTL_Converter2.js:106 | The second rewrite removes and changes only whitespace. |
| Spacing.CleanUpSpacing | FRET_to_WEST_MLTL_Converter/FRET_to_WEST_MLTL_Converter2.js:103-108 | `cleanUpSpacing`, identical in FRET_to_WEST_MLTL_Converter_beta3.js:97-104: drop whitespace around the class characters, collapse each whitespace run to one space, trim. `CleanUpSpacingClean` gives the normal form of the result, `CleanUpSpacingIdempotent` shows it is idempotent, `CleanUpSpacingNonSpace` shows it keeps every other character in order, and `CleanUpSpacingSeparator` shows that whitespace between two other characters becomes exactly one space. |
| Spacing.CleanUpSpacingClean | FRET_to_WEST_MLTL_Converter/FRET_to_WEST_MLTL_Converter2.js:103-108 | The result is in normal form. There is no whitespace next to a class character, every whitespace is a lone space, and none is at either end. |
| Spacing.CleanFixed | FRET_to_WEST_MLTL_Converter/FRET_to_WEST_MLTL_Converter2.js:103-108 | A formula in normal form is left as it is. |
| Spacing.CleanUpSpacingIdempotent | FRET_to_WEST_MLTL_Converter/FRET_to_WEST_MLTL_Converter2.js:103-108 | Cleaning twice is cleaning once. |
| Spacing.CleanUpSpacingNonSpace | FRET_to_WEST_MLTL_Converter/FRET_to_WEST_MLTL_Converter2.js:103-108 | Every non-whitespace character stays, in order. |
| Spacing.CleanUpSpacingSeparator | FRET_to_WEST_MLTL_Converter/FRET_to_WEST_MLTL_Converter2.js:103-108 | A non-empty whitespace run `w` between `a`, which ends with a character that is neither whitespace nor in the class, and `b`, which starts with one, becomes one space: the result on `a + w + b` is the result on `a`, a space, and the result on `b`. |
| Spacing.CleanUpSpacingParens | FRET_to_WEST_MLTL_Converter/FRET_to_WEST_MLTL_Converter2.js:103-108 | The sequence of parentheses, and so their balance, is kept. |
| Spacing.ArrowSpacing | FRET_to_WEST_MLTL_Converter/FRET_to_WEST_MLTL_Converter2.js:105 | `a -> b` becomes `a ->b`. The class `=->` is the range from `=` to `>`, so `-` is not in it. |
| RedundantParens.RemoveRedundantParentheses | FRET_to_WEST_MLTL_Converter/FRET_to_WEST_MLTL_Converter2.js:115-141 | The two loops compute `RemoveRedundant`: the formula with the ends of exactly the redundant pairs (see `RedundantPairs`) deleted and the result trimmed; the result keeps the balance of parentheses. |
| RedundantParens.RedundantPairs | FRET_to_WEST_MLTL_Converter/FRET_to_WEST_MLTL_Converter2.js:120-133 | A position is marked if and only if it is one end of a pair of matching parentheses (a `(` and a later `)` enclosing text whose prefixes never close more than they open and that is balanced) whose `(` is not followed by `(` and whose `)` is not preceded by `)`. |
| RedundantParens.DetectExact | FRET_to_WEST_MLTL_Converter/FRET_to_WEST_MLTL_Converter2.js:120-133 | With the stack holding exactly the `(` still open, top innermost, and the marks holding the redundant pairs closed so far, the rest of the pass ends with the redundant pairs of the whole formula marked. |
| RedundantParens.DetectPaired | FRET_to_WEST_MLTL_Converter/FRET_to_WEST_MLTL_Converter2.js:120-133 | Each step of the stack pass marks only parentheses, as many `(` as `)`. |
| RedundantParens.RedundantPaired | FRET_to_WEST_MLTL_Converter/FRET_to_WEST_MLTL_Converter2.js:120-133 | The set `toRemove` holds only parentheses, as many `(` as `)`. |
| RedundantParens.KeptCount | FRET_to_WEST_MLTL_Converter/FRET_to_WEST_MLTL_Converter2.js:137-139 | The copy loop drops exactly the marked characters. |
| RedundantParens.RedundantExcess | FRET_to_WEST_MLTL_Converter/FRET_to_WEST_MLTL_Converter2.js:135-139 | Dropping the marked pairs keeps the difference between `(` and `)` counts. |
| RedundantParens.RedundantOnlyParens | FRET_to_WEST_MLTL_Converter/FRET_to_WEST_MLTL_Converter2.js:135-139 | Before the trim, only parentheses are dropped. |
| RedundantParens.RemoveRedundantExcess | FRET_to_WEST_MLTL_Converter/FRET_to_WEST_MLTL_Converter2.js:115-141 | The whole function keeps the balance of parentheses. |
| RedundantParens.DoubleWrapped | FRET_to_WEST_MLTL_Converter/FRET_to_WEST_MLTL_Converter2.js:124-131 | One pass turns `((p))` into `(p)`: only the inner pair qualifies. |
| RedundantParens.DoubleWrappedMarks | FRET_to_WEST_MLTL_Converter/FRET_to_WEST_MLTL_Converter2.js:120-133 | For `((p))` the marked positions are exactly 1 and 3. |
| Converter2.ConvertFretToMltl | FRET_to_WEST_MLTL_Converter/FRET_to_WEST_MLTL_Converter2.js:148-183 | The stage-by-stage method returns the specification `Convert`. |
| Converter2.ConvertRejects | FRET_to_WEST_MLTL_Converter/FRET_to_WEST_MLTL_Converter2.js:152-154 | A conversion fails with the empty-formula error exactly for the empty string. It fails with the unmatched-parentheses error exactly for unequal counts, and succeeds otherwise. |
| Converter2.ConvertSteps | FRET_to_WEST_MLTL_Converter/FRET_to_WEST_MLTL_Converter2.js:149-175 | The log has the six labels in order. The first entry is the input and the last is the result. |
| Converter2.ConvertVariableMap | FRET_to_WEST_MLTL_Converter/FRET_to_WEST_MLTL_Converter2.js:168-170 | The returned map is injective and names no MLTL symbol. |
| Converter2.ConvertBalanced | FRET_to_WEST_MLTL_Converter/FRET_to_WEST_MLTL_Converter2.js:148-183 | An accepted formula converts to one with as many `(` as `)`. |
| Converter2.ConvertAll | FRET_to_WEST_MLTL_Converter/FRET_to_WEST_MLTL_Converter2.js:190-192 | `main` converts every formula in order. Otherwise it fails with the error of the first formula that fails. |
| Converter.StandardizeVariables | FRET_to_WEST_MLTL_Converter/FRET_to_WEST_MLTL_Converter.js:87-96 | It returns the formula renamed by a map built from nothing, together with that map. |
| Converter.ConvertFretToMltl | FRET_to_WEST_MLTL_Converter/FRET_to_WEST_MLTL_Converter.js:115-149 | The stage-by-stage method returns the specification `Convert`. |
| Converter.CleanFormula | FRET_to_WEST_MLTL_Converter/FRET_to_WEST_MLTL_Converter.js:103-108 | `cleanFormula` has the same three replacements as `cleanUpSpacing`, so it is `Spacing.CleanUpSpacing`. `CleanFormulaOnlySpacing` states what that keeps. |
| Converter.CleanFormulaOnlySpacing | FRET_to_WEST_MLTL_Converter/FRET_to_WEST_MLTL_Converter.js:103-108 | Despite its comment, `cleanFormula` removes no parenthesis: it keeps every non-whitespace character and the parentheses. |
| Converter.ConvertSteps | FRET_to_WEST_MLTL_Converter/FRET_to_WEST_MLTL_Converter.js:116-141 | The log has the six labels in order. The first entry is the input and the last is the result. |
| Converter.ConvertBalanced | FRET_to_WEST_MLTL_Converter/FRET_to_WEST_MLTL_Converter.js:115-149 | An accepted formula converts to one with as many `(` as `)`. |
| Converter.Converter2AddsParenRemoval | FRET_to_WEST_MLTL_Converter/FRET_to_WEST_MLTL_Converter.js:139-141 | The two versions accept the same formulas and build the same map. Converter2's result is this one's with the redundant parentheses removed. |
| Beta3.Converter.constructor | FRET_to_WEST_MLTL_Converter/FRET_to_WEST_MLTL_Converter_beta3.js:28-31 | The two shared arrays start empty. |
| Beta3.Converter.UpdateConversionSteps | FRET_to_WEST_MLTL_Converter/FRET_to_WEST_MLTL_Converter_beta3.js:34-36 | It appends one step and leaves the details as they were. |
| Beta3.Converter.RemoveIgnoredSymbols | FRET_to_WEST_MLTL_Converter/FRET_to_WEST_MLTL_Converter_beta3.js:39-50 | It returns the removal result, appends the entries found to the details, and logs the result. |
| Beta3.Converter.MapSymbols | FRET_to_WEST_MLTL_Converter/FRET_to_WEST_MLTL_Converter_beta3.js:53-60 | It maps the keywords and logs the result. |
| Beta3.Converter.ReplaceComparisonExpressions | FRET_to_WEST_MLTL_Converter/FRET_to_WEST_MLTL_Converter_beta3.js:64-77 | It returns the replaced formula and the placeholder map, and logs the formula. |
| Beta3.Converter.StandardizeVariables | FRET_to_WEST_MLTL_Converter/FRET_to_WEST_MLTL_Converter_beta3.js:80-94 | It renames while skipping the excluded words and the symbols, starting from an empty map, and logs the result. |
| Beta3.Converter.CleanUpSpacing | FRET_to_WEST_MLTL_Converter/FRET_to_WEST_MLTL_Converter_beta3.js:97-104 | It cleans the spacing and logs the result. |
| Beta3.Converter.ConvertFretToMltl | FRET_to_WEST_MLTL_Converter/FRET_to_WEST_MLTL_Converter_beta3.js:107-132 | The shared arrays grow by the seven steps and the details of `Convert`. The result carries those arrays themselves. |
| Beta3.FretToMltlConverter | FRET_to_WEST_MLTL_Converter/FRET_to_WEST_MLTL_Converter_beta3.js:2-135 | A call on fresh arrays returns the specification `Convert`. |
| Beta3.ConvertSteps | FRET_to_WEST_MLTL_Converter/FRET_to_WEST_MLTL_Converter_beta3.js:107-119 | Seven steps in order. The first is the input, and the last two are both the returned formula. |
| Beta3.RemovedLeavesNone | FRET_to_WEST_MLTL_Converter/FRET_to_WEST_MLTL_Converter_beta3.js:39-50 | No whole-word ignored operator is left after removal. |
| Beta3.ConvertBalanced | FRET_to_WEST_MLTL_Converter/FRET_to_WEST_MLTL_Converter_beta3.js:107-132 | The conversion keeps the input's balance of `(` and `)`. |
| Beta3.ConvertVariableMap | FRET_to_WEST_MLTL_Converter/FRET_to_WEST_MLTL_Converter_beta3.js:115-125 | The merged map has the keys of both maps. No placeholder is renamed, so neither map overwrites the other, and the standardised part is injective. |
| Beta3.PlaceholderCollision | FRET_to_WEST_MLTL_Converter/FRET_to_WEST_MLTL_Converter_beta3.js:64-94 | With two comparison groups and any identifier to rename, that identifier is named `p1`, which is also the second group's placeholder. |
| Comparisons.GroupAt | FRET_to_WEST_MLTL_Converter/FRET_to_WEST_MLTL_Converter_beta3.js:69 | A match starting at `i` ends at a later `)` inside the formula. |
| Comparisons.ReplaceComparisonExpressions | FRET_to_WEST_MLTL_Converter/FRET_to_WEST_MLTL_Converter_beta3.js:64-77 | The loop computes the rendered formula and the placeholder map of the scan. |
| Comparisons.GroupShape | FRET_to_WEST_MLTL_Converter/FRET_to_WEST_MLTL_Converter_beta3.js:69 | Every match is `(`, no parenthesis, an operator not preceded by `-`, then `)`. |
| Comparisons.ScanGroups | FRET_to_WEST_MLTL_Converter/FRET_to_WEST_MLTL_Converter_beta3.js:69-70 | Every replaced text is such a group. |
| Comparisons.ScanComplete | FRET_to_WEST_MLTL_Converter/FRET_to_WEST_MLTL_Converter_beta3.js:69-70 | Conversely, every match of the pattern is replaced where it stands. For the match from `i` to `j`, the scan is some pieces cut from exactly `s[..i]`, then that group, then the scan from `j + 1`. |
| Comparisons.GroupAtComplete | FRET_to_WEST_MLTL_Converter/FRET_to_WEST_MLTL_Converter_beta3.js:69 | Converse of `GroupShape`: a comparison group `s[i..j]` (`(`, no parenthesis inside, an operator not preceded by `-`, `)`) is the match that starts at `i`. |
| Comparisons.PlaceholdersAt | FRET_to_WEST_MLTL_Converter/FRET_to_WEST_MLTL_Converter_beta3.js:70-73 | The `n`-th group's placeholder `p<n>` maps to that group's text. |
| Comparisons.PlaceholderKeys | FRET_to_WEST_MLTL_Converter/FRET_to_WEST_MLTL_Converter_beta3.js:71-72 | The map has no key other than `p0` ... `p<n-1>`. |
| Comparisons.ScanOriginal | FRET_to_WEST_MLTL_Converter/FRET_to_WEST_MLTL_Converter_beta3.js:70-74 | Putting the replaced texts back gives the scanned text. |
| Comparisons.RoundTrip | FRET_to_WEST_MLTL_Converter/FRET_to_WEST_MLTL_Converter_beta3.js:70-74 | Replacing the placeholders by their texts restores the formula: nothing else changed. |
| Comparisons.RenderExcess | FRET_to_WEST_MLTL_Converter/FRET_to_WEST_MLTL_Converter_beta3.js:70-74 | Each replaced group is balanced and its placeholder holds no parenthesis. |
| Comparisons.ReplaceComparisonsExcess | FRET_to_WEST_MLTL_Converter/FRET_to_WEST_MLTL_Converter_beta3.js:64-77 | The replacement keeps the balance of parentheses. |
| Comparisons.ScanNoComparison | FRET_to_WEST_MLTL_Converter/FRET_to_WEST_MLTL_Converter_beta3.js:69 | Without an operator not preceded by `-`, nothing is replaced. |
| Comparisons.ArrowGroupKept | FRET_to_WEST_MLTL_Converter/FRET_to_WEST_MLTL_Converter_beta3.js:62-63 | `(a -> b)` is kept: the lookbehind rejects the arrow's `>`. |
| Sorting.MergedPermutation | FRET_to_WEST_MLTL_Converter/fullmark.java:28-49 | The merge holds exactly the elements of both halves. |
| Sorting.MergedSorted | FRET_to_WEST_MLTL_Converter/fullmark.java:28-49 | The merge of two sorted sequences is sorted. |
| Sorting.TakeLeft | FRET_to_WEST_MLTL_Converter/fullmark.java:33-34 | On a tie or a smaller left head, the next merged element is the left head. |
| Sorting.TakeRight | FRET_to_WEST_MLTL_Converter/fullmark.java:35-36 | On a smaller right head, the next merged element is the right head. |
| Sorting.Merge | FRET_to_WEST_MLTL_Converter/fullmark.java:28-49 | `array[0..|left|+|right|)` holds the merge, and the rest of the array is unchanged. |
| Sorting.MergeHeads | FRET_to_WEST_MLTL_Converter/fullmark.java:32-38 | The first loop writes the merge's prefix until one side is exhausted. |
| Sorting.CopyRest | FRET_to_WEST_MLTL_Converter/fullmark.java:41-48 | The copy loops append the rest of one side. |
| Sorting.CopyOfRange | FRET_to_WEST_MLTL_Converter/fullmark.java:16-17 | It returns a fresh array with the elements `[from, to)`. |
| Sorting.Halves | FRET_to_WEST_MLTL_Converter/fullmark.java:15-17 | It returns two fresh arrays holding the halves split at `length / 2`. |
| Sorting.SortedHalves | FRET_to_WEST_MLTL_Converter/fullmark.java:20-24 | Merging sorted permutations of the halves gives a sorted permutation of the whole. |
| Sorting.MergeSort | FRET_to_WEST_MLTL_Converter/fullmark.java:11-25 | The array ends sorted and a permutation of what it was. Arrays shorter than 2 are untouched. |
| Sorting.MoveDown | FRET_to_WEST_MLTL_Converter/fullmark.java:61-63 | `j` stops at `i` or at an element below the pivot, passing only elements at least the pivot. |
| Sorting.MoveUp | FRET_to_WEST_MLTL_Converter/fullmark.java:64-66 | `i` stops at `j` or at an element above the pivot, passing only elements at most the pivot. |
| Sorting.Swap | FRET_to_WEST_MLTL_Converter/fullmark.java:67-69 | It exchanges two elements and is a permutation. |
| Sorting.Partition | FRET_to_WEST_MLTL_Converter/fullmark.java:57-72 | The pivot `array[left]` ends at `i`, with no greater element before it and no smaller one after it. It is a permutation that changes nothing outside the segment. |
| Sorting.QuickSortJoin | FRET_to_WEST_MLTL_Converter/fullmark.java:71-74 | Sorting both sides of the placed pivot sorts the segment. |
| Sorting.QuickSort | FRET_to_WEST_MLTL_Converter/fullmark.java:53-75 | The segment `[left, right]` ends sorted. The array is a permutation, unchanged outside the segment, and untouched when `left > right`. |
| CircularQueue.WrapMod | FRET_to_WEST_MLTL_Converter/fullmark.java:97 | On the queue's operands, Java's `%` is one conditional subtraction. |
| CircularQueue.RingEnqueue | FRET_to_WEST_MLTL_Converter/fullmark.java:97-99 | On a queue that is not full, the new `rear` is the free slot after the elements, and the indices stay consistent. |
| CircularQueue.RingDequeue | FRET_to_WEST_MLTL_Converter/fullmark.java:108-109 | On a queue that is not empty, `front` moves one slot on, and the indices stay consistent. |
| CircularQueue.LayoutAppend | FRET_to_WEST_MLTL_Converter/fullmark.java:97-98 | Writing the free slot appends to the queue and leaves the stored elements in place. |
| CircularQueue.LayoutPop | FRET_to_WEST_MLTL_Converter/fullmark.java:107-108 | The oldest element is at `front`, and the rest stays stored after it. |
| CircularQueue.Queue.constructor | FRET_to_WEST_MLTL_Converter/fullmark.java:84-90 | An empty queue of the given capacity. |
| CircularQueue.Queue.IsEmpty | FRET_to_WEST_MLTL_Converter/fullmark.java:121-123 | True exactly when the queue holds nothing. |
| CircularQueue.Queue.IsFull | FRET_to_WEST_MLTL_Converter/fullmark.java:125-127 | True exactly when the queue holds `capacity` elements. |
| CircularQueue.Queue.Enqueue | FRET_to_WEST_MLTL_Converter/fullmark.java:92-100 | A full queue is unchanged. Otherwise `data` joins the back at `(rear + 1) % capacity`. |
| CircularQueue.Queue.Dequeue | FRET_to_WEST_MLTL_Converter/fullmark.java:102-111 | On an empty queue: `-1` and no change. Otherwise it returns the oldest element and removes it. |
| CircularQueue.Queue.Peek | FRET_to_WEST_MLTL_Converter/fullmark.java:113-119 | The oldest element, or `-1` when empty. |
| CircularQueue.Queue.Display | FRET_to_WEST_MLTL_Converter/fullmark.java:129-137 | The printed elements are the queue, oldest first. |
| CircularQueue.Queue.NewestAtRear | FRET_to_WEST_MLTL_Converter/fullmark.java:97-98 | The newest element sits at `rear`. |

## Left out

- Printing is not modelled: `console.log`, `System.out.println` and the queue's messages. `Display` returns the elements it prints instead of printing them.
- Exceptions are not modelled as control flow. `validateFormula`'s throw is a `Result` error, and `main` in Converter2 returns the first error instead of throwing it.
- The module exports and the beta3 usage example (`FRET_to_WEST_MLTL_Converter_beta3.js:137-145`) are not modelled: they are top-level calls with printing.
- `fullmark.java:140-146` is not modelled: it is an insertion-sort fragment outside any method.
- `fullmark.java:148-152` is not modelled: it is an unfinished duplicate of `mergeSort`.
- `main` in `fullmark.java:4-8` is left out: it only prints.
- The `Queue` field is declared `Queue` but used as `queue`. The model uses the one name `queue`.
- General JavaScript `RegExp` semantics are out of scope. Only the patterns the converters build are modelled, each as a scanner. The keys of both tables contain no metacharacter except `-` and `>` in `->`, which stand for themselves.
- Object-property order follows insertion order, as `Object.keys`/`Object.entries` visit the two literals. Integer-like keys, which would reorder, do not occur.
- `Standardize.StandardizeVariables`: a map value that is the empty string counts as missing, like JavaScript's `!variableMap[v]`. Prototype properties such as `constructor` or `toString`, which a plain object would report as present, are not modelled.
- Java `int` overflow is not modelled; integers are unbounded. Most indices stay below the array length and the counters below the capacity. The exception is `display` (fullmark.java:135): it computes `(i + front) % capacity`, and `i + front` can exceed 2^31 - 1 when the capacity is above 2^30. Java then wraps to a negative index and throws. `CircularQueue.Queue.Display` indexes without overflow, so it does not capture that exception.
- The `requires` clauses of `Sorting.QuickSort` (bounds inside the array), `Sorting.Merge` (a target array long enough for both runs) and `CircularQueue.Queue.constructor` (a non-negative capacity) exclude inputs on which the Java code throws `ArrayIndexOutOfBoundsException` or `NegativeArraySizeException`. Those exceptions are not modelled. Within fullmark.java, `mergeSort` always passes `merge` an array as long as both halves together, and the recursive calls of `quickSort` stay inside the segment they were given.
- `Standardize.StandardizeVariables`: `standardizeVariables` of FRET_to_WEST_MLTL_Converter2.js (lines 89-96) writes the new names into the `variableMap` object its caller passed. The model returns the updated map instead, so it does not capture that aliasing. `convertFretToMltl` passes a fresh `{}` and returns that same object, so the aliasing cannot be seen from the converter.
- `Sorting.Merge`: `left` and `right` are read-only sequences rather than arrays, because `merge` only reads them.
- `Sorting.MergeSort` and `Sorting.QuickSort`: the three loops of `merge` and the two scans of `quickSort` are split into helper methods (`MergeHeads`, `CopyRest`, `MoveDown`, `MoveUp`) with the same loop bodies.
- `PresentRemoval.RemoveIgnored`: the loop's pushes to the shared details array are collected and appended after the loop. The array receives the same entries in the same order, and no other code reads it in between.
