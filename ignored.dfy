/**
 * `removeIgnoredSymbols` of FRET_to_WEST_MLTL_Converter.js and
 * FRET_to_WEST_MLTL_Converter2.js: for each ignored operator, in table order,
 * delete its whole-word occurrences and trim the result.
 */
module IgnoredSymbols {
  import opened Text
  import opened WholeWord
  import opened Tables

  /** Every key of `table` is a phrase without parentheses. */
  predicate PlainPhrases(table: seq<(seq<char>, seq<char>)>) {
    forall j :: 0 <= j < |table| ==> Phrase(table[j].0) && Parens(table[j].0) == []
  }

  /** One iteration of the loop: `formula.replace(/\bsymbol\b/g, "").trim()`. */
  function RemoveOne(formula: seq<char>, symbol: seq<char>): seq<char>
    requires |symbol| > 0
  {
    Trim(ReplaceWord(formula, symbol, []))
  }

  /** The formula after the first `k` entries of `table` were processed. */
  function RemoveFirst(formula: seq<char>, table: seq<(seq<char>, seq<char>)>, k: nat): seq<char>
    requires k <= |table| && NonEmptyKeys(table)
  {
    if k == 0 then formula else RemoveOne(RemoveFirst(formula, table, k - 1), table[k - 1].0)
  }

  lemma IgnoredArePlainPhrases()
    ensures PlainPhrases(IgnoredTable)
  {
    forall j | 0 <= j < |IgnoredTable|
      ensures Phrase(IgnoredTable[j].0) && Parens(IgnoredTable[j].0) == []
    {
      var p := IgnoredTable[j].0;
      assert forall i :: 0 <= i < |p| ==> p[i] !in "()";
      ParensFree(p);
    }
  }

  function RemoveIgnored(formula: seq<char>): seq<char> {
    RemoveFirst(formula, IgnoredTable, |IgnoredTable|)
  }

  method RemoveIgnoredSymbols(formula: seq<char>) returns (r: seq<char>)
    ensures r == RemoveIgnored(formula)
    ensures Parens(r) == Parens(formula)
    ensures forall k :: 0 <= k < |IgnoredTable| ==> NoWholeWord(r, IgnoredTable[k].0)
  {
    r := formula;
    for i := 0 to |IgnoredTable|
      invariant r == RemoveFirst(formula, IgnoredTable, i)
    {
      r := Trim(ReplaceWord(r, IgnoredTable[i].0, []));
    }
    RemoveIgnoredParens(formula);
    RemoveIgnoredLeavesNone(formula);
  }

  lemma RemoveOneParens(formula: seq<char>, symbol: seq<char>)
    requires |symbol| > 0 && Parens(symbol) == []
    ensures Parens(RemoveOne(formula, symbol)) == Parens(formula)
  {
    ReplaceParens(formula, symbol, [], false);
    TrimParens(ReplaceWord(formula, symbol, []));
  }

  lemma RemoveNextParens(formula: seq<char>, table: seq<(seq<char>, seq<char>)>, k: nat)
    requires 0 < k <= |table| && PlainPhrases(table)
    ensures Parens(RemoveFirst(formula, table, k)) == Parens(RemoveFirst(formula, table, k - 1))
  {
    var prev := RemoveFirst(formula, table, k - 1);
    var sym := table[k - 1].0;
    assert Parens(sym) == [] && |sym| > 0;
    assert RemoveFirst(formula, table, k) == RemoveOne(prev, sym);
    RemoveOneParens(prev, sym);
  }

  lemma RemoveFirstParens(formula: seq<char>, table: seq<(seq<char>, seq<char>)>, k: nat)
    requires k <= |table| && PlainPhrases(table)
    ensures Parens(RemoveFirst(formula, table, k)) == Parens(formula)
  {
    if k > 0 {
      RemoveFirstParens(formula, table, k - 1);
      RemoveNextParens(formula, table, k);
    }
  }

  /** No parenthesis is added or removed. */
  lemma RemoveIgnoredParens(formula: seq<char>)
    ensures Parens(RemoveIgnored(formula)) == Parens(formula)
  {
    IgnoredArePlainPhrases();
    RemoveFirstParens(formula, IgnoredTable, |IgnoredTable|);
  }

  /** Removing one symbol clears it and keeps every phrase that was already gone, gone. */
  lemma RemoveOneFree(formula: seq<char>, symbol: seq<char>, q: seq<char>)
    requires Phrase(symbol) && Phrase(q)
    requires q == symbol || Free(formula, q, false)
    ensures Free(RemoveOne(formula, symbol), q, false)
  {
    FreeAfterDelete(formula, symbol, q, false);
    FreeTrim(ReplaceWord(formula, symbol, []), q);
  }

  lemma {:induction false} RemoveFirstFree(formula: seq<char>, table: seq<(seq<char>, seq<char>)>, k: nat, j: nat)
    requires j < k <= |table| && PlainPhrases(table)
    ensures Free(RemoveFirst(formula, table, k), table[j].0, false)
  {
    var prev := RemoveFirst(formula, table, k - 1);
    assert Phrase(table[k - 1].0) && Phrase(table[j].0);
    if j < k - 1 {
      RemoveFirstFree(formula, table, k - 1, j);
    }
    RemoveOneFree(prev, table[k - 1].0, table[j].0);
  }

  /** No whole-word `LAST V`, `X`, `G`, `F`, `U` or `R` is left. */
  lemma RemoveIgnoredLeavesNone(formula: seq<char>)
    ensures forall k :: 0 <= k < |IgnoredTable| ==> NoWholeWord(RemoveIgnored(formula), IgnoredTable[k].0)
  {
    IgnoredArePlainPhrases();
    forall k | 0 <= k < |IgnoredTable|
      ensures NoWholeWord(RemoveIgnored(formula), IgnoredTable[k].0)
    {
      RemoveFirstFree(formula, IgnoredTable, |IgnoredTable|, k);
      FreeIsNoWholeWord(RemoveIgnored(formula), IgnoredTable[k].0);
    }
  }

  /** A single word that is none of the ignored tokens survives the first `k` removals. */
  lemma {:induction false} LoneWordKept(w: seq<char>, k: nat)
    requires 0 < |w| && AllWord(w)
    requires forall j :: 0 < j < |IgnoredTable| ==> w != IgnoredTable[j].0
    requires k <= |IgnoredTable|
    ensures RemoveFirst(w, IgnoredTable, k) == w
  {
    if k > 0 {
      LoneWordKept(w, k - 1);
      var sym := IgnoredTable[k - 1].0;
      if k == 1 {
        assert !IsWord(sym[4]);
      } else {
        assert Token(sym);
      }
      LoneWordStep(w, sym);
    }
  }

  lemma LoneWordStep(w: seq<char>, sym: seq<char>)
    requires 0 < |w| && AllWord(w) && 0 < |sym|
    requires !AllWord(sym) || (Token(sym) && w != sym)
    ensures RemoveOne(w, sym) == w
  {
    if !AllWord(sym) {
      AllWordFree(w, sym, false);
    } else {
      LoneWordFree(w, sym);
    }
    ReplaceFree(w, sym, [], false);
    WordNotSpace(w[0]);
    WordNotSpace(w[|w| - 1]);
    TrimNoop(w);
  }

  /** A bare `LAST` is not an ignored operator (only the phrase `LAST V` is), so it is kept. */
  lemma LoneLastKept()
    ensures RemoveIgnored("LAST") == "LAST"
  {
    assert AllWord("LAST");
    LoneWordKept("LAST", |IgnoredTable|);
  }
}
