/**
 * `mapSymbols`: for each entry of the keyword table, in order, replace the
 * whole-word occurrences of the FRET keyword by its MLTL symbol.
 */
module SymbolMapping {
  import opened Text
  import opened WholeWord
  import opened Tables

  /** The formula after the first `k` entries of `table` were applied. */
  function MapFirst(formula: seq<char>, table: seq<(seq<char>, seq<char>)>, k: nat): seq<char>
    requires k <= |table| && NonEmptyKeys(table)
  {
    if k == 0 then formula
    else ReplaceWord(MapFirst(formula, table, k - 1), table[k - 1].0, table[k - 1].1)
  }

  function MapAll(formula: seq<char>): seq<char> {
    MapFirst(formula, SymbolTable, |SymbolTable|)
  }

  method MapSymbols(formula: seq<char>) returns (r: seq<char>)
    ensures r == MapAll(formula)
    ensures Parens(r) == Parens(formula)
    ensures forall j :: 0 <= j < |SymbolTable| && Rewrites(SymbolTable[j]) ==> NoWholeWord(r, SymbolTable[j].0)
  {
    r := formula;
    for i := 0 to |SymbolTable|
      invariant r == MapFirst(formula, SymbolTable, i)
    {
      r := ReplaceWord(r, SymbolTable[i].0, SymbolTable[i].1);
    }
    MapAllParens(formula);
    MapAllLeavesNoKeyword(formula);
  }

  /** An entry that maps a keyword to itself (`true`, `false`, `->`, `=`). */
  predicate Keeps(e: (seq<char>, seq<char>)) {
    e.1 == e.0
  }

  /** An entry that turns a word keyword into a one-character word or operator. */
  predicate Rewrites(e: (seq<char>, seq<char>)) {
    Token(e.0) && AllWord(e.0) && |e.0| > 1 && |e.1| == 1 && (AllWord(e.1) || NoWord(e.1))
  }

  predicate WellFormed(table: seq<(seq<char>, seq<char>)>) {
    NonEmptyKeys(table) &&
    (forall i :: 0 <= i < |table| ==> Keeps(table[i]) || Rewrites(table[i])) &&
    (forall i :: 0 <= i < |table| ==> Parens(table[i].0) == Parens(table[i].1)) &&
    (forall i, j :: 0 <= i < j < |table| && Rewrites(table[i]) && Rewrites(table[j]) ==> table[i].0 != table[j].0)
  }

  lemma SymbolTableWellFormed()
    ensures WellFormed(SymbolTable)
  {
    SymbolTableEntries();
    SymbolTableParens();
    SymbolTableDistinct();
  }

  lemma SymbolTableEntries()
    ensures forall i :: 0 <= i < |SymbolTable| ==> Keeps(SymbolTable[i]) || Rewrites(SymbolTable[i])
  {
    forall i | 0 <= i < |SymbolTable|
      ensures Keeps(SymbolTable[i]) || Rewrites(SymbolTable[i])
    {
      if i < 4 || 6 <= i < 9 {
        var e := SymbolTable[i];
        assert AllWord(e.0);
      }
    }
  }

  lemma SymbolTableParens()
    ensures forall i :: 0 <= i < |SymbolTable| ==> Parens(SymbolTable[i].0) == Parens(SymbolTable[i].1)
  {
    forall i | 0 <= i < |SymbolTable|
      ensures Parens(SymbolTable[i].0) == Parens(SymbolTable[i].1)
    {
      var e := SymbolTable[i];
      assert forall n :: 0 <= n < |e.0| ==> e.0[n] !in "()";
      assert forall n :: 0 <= n < |e.1| ==> e.1[n] !in "()";
      ParensFree(e.0);
      ParensFree(e.1);
    }
  }

  lemma SymbolTableDistinct()
    ensures forall i, j :: 0 <= i < j < |SymbolTable| && Rewrites(SymbolTable[i]) && Rewrites(SymbolTable[j]) ==> SymbolTable[i].0 != SymbolTable[j].0
  {
  }

  lemma MapNextParens(formula: seq<char>, table: seq<(seq<char>, seq<char>)>, k: nat)
    requires 0 < k <= |table| && WellFormed(table)
    ensures Parens(MapFirst(formula, table, k)) == Parens(MapFirst(formula, table, k - 1))
  {
    var e := table[k - 1];
    ReplaceParens(MapFirst(formula, table, k - 1), e.0, e.1, false);
  }

  lemma MapFirstParens(formula: seq<char>, table: seq<(seq<char>, seq<char>)>, k: nat)
    requires k <= |table| && WellFormed(table)
    ensures Parens(MapFirst(formula, table, k)) == Parens(formula)
  {
    if k > 0 {
      MapFirstParens(formula, table, k - 1);
      MapNextParens(formula, table, k);
    }
  }

  /** Keyword mapping neither adds nor removes a parenthesis. */
  lemma MapAllParens(formula: seq<char>)
    ensures Parens(MapAll(formula)) == Parens(formula)
  {
    SymbolTableWellFormed();
    MapFirstParens(formula, SymbolTable, |SymbolTable|);
  }

  /** An entry that maps a keyword to itself leaves the formula as it is. */
  lemma KeptEntryChangesNothing(formula: seq<char>, table: seq<(seq<char>, seq<char>)>, k: nat)
    requires 0 < k <= |table| && NonEmptyKeys(table) && Keeps(table[k - 1])
    ensures MapFirst(formula, table, k) == MapFirst(formula, table, k - 1)
  {
    ReplaceSelf(MapFirst(formula, table, k - 1), table[k - 1].0, false);
  }

  /** Once entry `j` has been applied, no whole-word occurrence of its keyword is left,
      and the later replacements never bring one back. */
  lemma {:induction false} MapFirstFree(formula: seq<char>, table: seq<(seq<char>, seq<char>)>, k: nat, j: nat)
    requires j < k <= |table| && WellFormed(table) && Rewrites(table[j])
    ensures Free(MapFirst(formula, table, k), table[j].0, false)
  {
    var prev := MapFirst(formula, table, k - 1);
    var e := table[k - 1];
    var q := table[j].0;
    if j == k - 1 {
      FreeAfterReplace(prev, q, e.1, q, false);
    } else {
      MapFirstFree(formula, table, k - 1, j);
      if Keeps(e) {
        KeptEntryChangesNothing(formula, table, k);
      } else {
        assert e.1 != q;
        FreeAfterReplace(prev, e.0, e.1, q, false);
      }
    }
  }

  /** No whole-word `eventually`, `always`, `until`, `release`, `and`, `or` or `not` is left. */
  lemma MapAllLeavesNoKeyword(formula: seq<char>)
    ensures forall j :: 0 <= j < |SymbolTable| && Rewrites(SymbolTable[j]) ==> NoWholeWord(MapAll(formula), SymbolTable[j].0)
  {
    SymbolTableWellFormed();
    forall j | 0 <= j < |SymbolTable| && Rewrites(SymbolTable[j])
      ensures NoWholeWord(MapAll(formula), SymbolTable[j].0)
    {
      MapFirstFree(formula, SymbolTable, |SymbolTable|, j);
      FreeIsNoWholeWord(MapAll(formula), SymbolTable[j].0);
    }
  }

  /** Applied to a keyword standing alone, the table yields that keyword's symbol. */
  lemma {:induction false} MapFirstOnKeyword(table: seq<(seq<char>, seq<char>)>, j: nat, k: nat)
    requires j < |table| && k <= |table| && WellFormed(table) && Rewrites(table[j])
    ensures MapFirst(table[j].0, table, k) == if k <= j then table[j].0 else table[j].1
  {
    if k > 0 {
      MapFirstOnKeyword(table, j, k - 1);
      KeywordStep(table, j, k, MapFirst(table[j].0, table, k - 1));
    }
  }

  /** Entry `k - 1` applied to the keyword of entry `j`, or to its symbol once replaced. */
  lemma KeywordStep(table: seq<(seq<char>, seq<char>)>, j: nat, k: nat, prev: seq<char>)
    requires j < |table| && 0 < k <= |table| && WellFormed(table) && Rewrites(table[j])
    requires prev == if k - 1 <= j then table[j].0 else table[j].1
    ensures ReplaceWord(prev, table[k - 1].0, table[k - 1].1) == if k <= j then table[j].0 else table[j].1
  {
    var e := table[k - 1];
    if k - 1 == j {
      ReplaceWholeInput(e.0, e.1);
    } else if Keeps(e) {
      ReplaceSelf(prev, e.0, false);
    } else if k - 1 < j {
      LoneWordFree(prev, e.0);
      ReplaceFree(prev, e.0, e.1, false);
    } else {
      ShortFree(prev, e.0, false);
      ReplaceFree(prev, e.0, e.1, false);
    }
  }

  /** `until` alone becomes `U`, `and` becomes `&`, and so on for every rewriting entry. */
  lemma MapKeyword(j: nat)
    requires j < |SymbolTable| && Rewrites(SymbolTable[j])
    ensures MapAll(SymbolTable[j].0) == SymbolTable[j].1
  {
    SymbolTableWellFormed();
    MapFirstOnKeyword(SymbolTable, j, |SymbolTable|);
  }
}
