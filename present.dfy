/**
 * The removal stage of FRET_to_WEST_MLTL_Converter_beta3.js: for each ignored
 * operator, in table order, test whether it occurs as a whole word; if it
 * does, log its table entry, delete its occurrences and trim the formula.
 */
module PresentRemoval {
  import opened Text
  import opened Tables
  import opened WholeWord
  import IgnoredSymbols

  /**
   * One entry's turn: an operator that occurs as a whole word has its
   * occurrences deleted and the formula trimmed; one that does not occur
   * changes nothing.
   */
  function Turn(formula: seq<char>, symbol: seq<char>): seq<char>
    requires |symbol| > 0
  {
    if Free(formula, symbol, false) then formula else IgnoredSymbols.RemoveOne(formula, symbol)
  }

  /** The formula after the first `k` entries of an ignored table took their turn. */
  function Removed(formula: seq<char>, table: seq<(seq<char>, seq<char>)>, k: nat): seq<char>
    requires k <= |table| && NonEmptyKeys(table)
  {
    if k == 0 then formula else Turn(Removed(formula, table, k - 1), table[k - 1].0)
  }

  /** The entries among the first `k` whose operator occurred as a whole word when its turn came. */
  function Found(formula: seq<char>, table: seq<(seq<char>, seq<char>)>, k: nat): seq<(seq<char>, seq<char>)>
    requires k <= |table| && NonEmptyKeys(table)
  {
    if k == 0 then []
    else if Occurred(formula, table, k - 1) then Found(formula, table, k - 1) + [table[k - 1]]
    else Found(formula, table, k - 1)
  }

  /** The `j`-th operator of `table` occurs as a whole word when its turn comes. */
  predicate Occurred(formula: seq<char>, table: seq<(seq<char>, seq<char>)>, j: nat)
    requires j < |table| && NonEmptyKeys(table)
  {
    !Free(Removed(formula, table, j), table[j].0, false)
  }

  /** The loop of `removeIgnoredSymbols`: the formula it leaves and the entries it found, in table order. */
  method RemoveIgnored(formula: seq<char>, table: seq<(seq<char>, seq<char>)>)
    returns (cleanedFormula: seq<char>, found: seq<(seq<char>, seq<char>)>)
    requires NonEmptyKeys(table)
    ensures cleanedFormula == Removed(formula, table, |table|) && found == Found(formula, table, |table|)
  {
    cleanedFormula := formula;
    found := [];
    for i := 0 to |table|
      invariant cleanedFormula == Removed(formula, table, i) && found == Found(formula, table, i)
    {
      var entry := table[i];
      if !Free(cleanedFormula, entry.0, false) {
        found := found + [entry];
        cleanedFormula := Trim(ReplaceWord(cleanedFormula, entry.0, []));
      }
    }
  }

  /** Removal deletes no parenthesis and adds none. */
  lemma {:induction false} RemovePresentParens(formula: seq<char>, table: seq<(seq<char>, seq<char>)>, k: nat)
    requires k <= |table| && NonEmptyKeys(table) && ParenFreeKeys(table)
    ensures SameParens(Removed(formula, table, k), formula)
  {
    if k > 0 {
      RemovePresentParens(formula, table, k - 1);
      ParensStep(Removed(formula, table, k - 1), table[k - 1].0);
    }
  }

  /** `a` and `b` hold the same parentheses in the same order. */
  predicate SameParens(a: seq<char>, b: seq<char>) {
    Parens(a) == Parens(b)
  }

  /** No operator of the table holds a parenthesis. */
  predicate ParenFreeKeys(table: seq<(seq<char>, seq<char>)>) {
    forall j :: 0 <= j < |table| ==> Parens(table[j].0) == []
  }

  /** One entry's turn keeps the parentheses. */
  lemma ParensStep(prev: seq<char>, symbol: seq<char>)
    requires |symbol| > 0 && Parens(symbol) == []
    ensures Parens(Turn(prev, symbol)) == Parens(prev)
  {
    if !Free(prev, symbol, false) {
      IgnoredSymbols.RemoveOneParens(prev, symbol);
    }
  }

  /** After the first `k` entries, none of their operators occurs as a whole word. */
  lemma {:induction false} RemovePresentFree(formula: seq<char>, table: seq<(seq<char>, seq<char>)>, k: nat, j: nat)
    requires j < k <= |table| && NonEmptyKeys(table) && IgnoredSymbols.PlainPhrases(table)
    ensures Free(Removed(formula, table, k), table[j].0, false)
  {
    if j < k - 1 {
      RemovePresentFree(formula, table, k - 1, j);
      KeptFree(formula, table, k, j);
    } else {
      ClearedFree(formula, table, k);
    }
  }

  /** An operator gone before entry `k - 1`'s turn stays gone after it. */
  lemma KeptFree(formula: seq<char>, table: seq<(seq<char>, seq<char>)>, k: nat, j: nat)
    requires j < k - 1 && k <= |table| && NonEmptyKeys(table) && IgnoredSymbols.PlainPhrases(table)
    requires Free(Removed(formula, table, k - 1), table[j].0, false)
    ensures Free(Removed(formula, table, k), table[j].0, false)
  {
    assert Phrase(table[k - 1].0) && Phrase(table[j].0);
    FreeStep(Removed(formula, table, k - 1), table[k - 1].0, table[j].0);
  }

  /** Entry `k - 1`'s turn leaves no whole-word occurrence of its operator. */
  lemma ClearedFree(formula: seq<char>, table: seq<(seq<char>, seq<char>)>, k: nat)
    requires 0 < k <= |table| && NonEmptyKeys(table) && IgnoredSymbols.PlainPhrases(table)
    ensures Free(Removed(formula, table, k), table[k - 1].0, false)
  {
    assert Phrase(table[k - 1].0);
    FreeStep(Removed(formula, table, k - 1), table[k - 1].0, table[k - 1].0);
  }

  /** One entry's turn keeps every operator that was gone, gone, and clears its own. */
  lemma FreeStep(prev: seq<char>, symbol: seq<char>, q: seq<char>)
    requires Phrase(symbol) && Phrase(q)
    requires q == symbol || Free(prev, q, false)
    ensures Free(Turn(prev, symbol), q, false)
  {
    if !Free(prev, symbol, false) {
      IgnoredSymbols.RemoveOneFree(prev, symbol, q);
    }
  }

  /**
   * The details log lists entries of the table in table order, and only
   * entries whose operator occurred when their turn came: `idx` holds their
   * table positions.
   */
  lemma {:induction false} DetailsInOrder(formula: seq<char>, table: seq<(seq<char>, seq<char>)>, k: nat)
    returns (idx: seq<nat>)
    requires k <= |table| && NonEmptyKeys(table)
    ensures var details := Found(formula, table, k);
            |idx| == |details|
            && (forall n :: 0 <= n < |idx| ==>
                  idx[n] < k && details[n] == table[idx[n]] && Occurred(formula, table, idx[n]))
            && (forall n, m :: 0 <= n < m < |idx| ==> idx[n] < idx[m])
  {
    if k == 0 {
      idx := [];
    } else {
      var prev := DetailsInOrder(formula, table, k - 1);
      idx := DetailsStep(formula, table, k, prev);
    }
  }

  /** `idx` holds, in increasing order, the table positions of the entries `details` lists. */
  predicate IndexedBy(formula: seq<char>, table: seq<(seq<char>, seq<char>)>, k: nat,
                      details: seq<(seq<char>, seq<char>)>, idx: seq<nat>)
    requires k <= |table| && NonEmptyKeys(table)
  {
    |idx| == |details|
    && (forall n :: 0 <= n < |idx| ==>
          idx[n] < k && details[n] == table[idx[n]] && Occurred(formula, table, idx[n]))
    && (forall n, m :: 0 <= n < m < |idx| ==> idx[n] < idx[m])
  }

  /** Entry `k - 1`'s turn extends the positions of the logged entries by its own, if it was logged. */
  lemma DetailsStep(formula: seq<char>, table: seq<(seq<char>, seq<char>)>, k: nat, prev: seq<nat>)
    returns (idx: seq<nat>)
    requires 0 < k <= |table| && NonEmptyKeys(table)
    requires IndexedBy(formula, table, k - 1, Found(formula, table, k - 1), prev)
    ensures IndexedBy(formula, table, k, Found(formula, table, k), idx)
  {
    if Occurred(formula, table, k - 1) {
      idx := prev + [k - 1];
      DetailsAppend(formula, table, k, Found(formula, table, k - 1), prev);
    } else {
      idx := prev;
      IndexedWiden(formula, table, k, Found(formula, table, k - 1), prev);
    }
  }

  /** Positions below `k - 1` are below `k`. */
  lemma IndexedWiden(formula: seq<char>, table: seq<(seq<char>, seq<char>)>, k: nat,
                     details: seq<(seq<char>, seq<char>)>, idx: seq<nat>)
    requires 0 < k <= |table| && NonEmptyKeys(table) && IndexedBy(formula, table, k - 1, details, idx)
    ensures IndexedBy(formula, table, k, details, idx)
  {
  }

  /** Logging entry `k - 1`, which occurred, after the entries at positions `idx`. */
  lemma DetailsAppend(formula: seq<char>, table: seq<(seq<char>, seq<char>)>, k: nat,
                      details: seq<(seq<char>, seq<char>)>, idx: seq<nat>)
    requires 0 < k <= |table| && NonEmptyKeys(table) && Occurred(formula, table, k - 1)
    requires IndexedBy(formula, table, k - 1, details, idx)
    ensures IndexedBy(formula, table, k, details + [table[k - 1]], idx + [k - 1])
  {
    var details', idx' := details + [table[k - 1]], idx + [k - 1];
    forall n | 0 <= n < |idx'|
      ensures idx'[n] < k && details'[n] == table[idx'[n]] && Occurred(formula, table, idx'[n])
    {
      if n < |idx| {
        assert idx'[n] == idx[n] && details'[n] == details[n];
      }
    }
  }

  /** Every entry whose operator occurred when its turn came is in the details log. */
  lemma {:induction false} DetailsComplete(formula: seq<char>, table: seq<(seq<char>, seq<char>)>, k: nat, j: nat)
    requires j < k <= |table| && NonEmptyKeys(table) && Occurred(formula, table, j)
    ensures table[j] in Found(formula, table, k)
  {
    if j < k - 1 {
      DetailsComplete(formula, table, k - 1, j);
      FoundKeeps(formula, table, k, table[j]);
    }
  }

  /** A turn never drops an entry already logged. */
  lemma FoundKeeps(formula: seq<char>, table: seq<(seq<char>, seq<char>)>, k: nat, e: (seq<char>, seq<char>))
    requires 0 < k <= |table| && NonEmptyKeys(table) && e in Found(formula, table, k - 1)
    ensures e in Found(formula, table, k)
  {
  }

  /** Without any detail logged, the removal stage returned its input untouched (not even trimmed). */
  lemma {:induction false} NoDetailsNoChange(formula: seq<char>, table: seq<(seq<char>, seq<char>)>, k: nat)
    requires k <= |table| && NonEmptyKeys(table) && Found(formula, table, k) == []
    ensures Removed(formula, table, k) == formula
  {
    if k > 0 {
      NoDetailsNoChange(formula, table, k - 1);
    }
  }
}
