/**
 * Input validation (`validateFormula`, identical in FRET_to_WEST_MLTL_Converter.js
 * and FRET_to_WEST_MLTL_Converter2.js) and the error outcome of a conversion.
 */
module Validation {
  import opened Text

  datatype Error = EmptyFormula | UnmatchedParentheses

  datatype Result<T> = Ok(value: T) | Err(error: Error)

  /** The `reduce` over the characters: `(` counts up, `)` counts down, from `count`. */
  function ParenFold(s: seq<char>, count: int): int {
    if s == [] then count
    else ParenFold(s[1..], count + (if s[0] == '(' then 1 else 0) - (if s[0] == ')' then 1 else 0))
  }

  /** The fold ends at the difference of the two counts, however the prefix depths go. */
  lemma {:induction false} ParenFoldCounts(s: seq<char>, count: int)
    ensures ParenFold(s, count) == count + Count(s, '(') - Count(s, ')')
  {
    if s != [] {
      ParenFoldCounts(s[1..], count + (if s[0] == '(' then 1 else 0) - (if s[0] == ')' then 1 else 0));
      assert s == [s[0]] + s[1..];
      CountAppend([s[0]], s[1..], '(');
      CountAppend([s[0]], s[1..], ')');
    }
  }

  /** Whether `validateFormula` throws, and with which message. */
  function ValidateFormula(formula: seq<char>): (r: Result<()>)
    ensures r == Err(EmptyFormula) <==> formula == []
    ensures r == Err(UnmatchedParentheses) <==>
            formula != [] && Count(formula, '(') != Count(formula, ')')
    ensures r == Ok(()) <==> formula != [] && Count(formula, '(') == Count(formula, ')')
  {
    ParenFoldCounts(formula, 0);
    if formula == [] then Err(EmptyFormula)
    else if ParenFold(formula, 0) != 0 then Err(UnmatchedParentheses)
    else Ok(())
  }

  /** Only the final count matters: a `)` before its `(` passes. */
  lemma ValidationIgnoresOrder()
    ensures ValidateFormula(")(") == Ok(())
  {
    CountMultiset(")(", '(');
    CountMultiset(")(", ')');
  }

  /** A formula of blanks only is not empty, so it passes. */
  lemma ValidationAcceptsBlank()
    ensures ValidateFormula("   ") == Ok(())
  {
    CountMultiset("   ", '(');
    CountMultiset("   ", ')');
  }

  lemma ValidationRejectsUnclosed()
    ensures ValidateFormula("(a & b") == Err(UnmatchedParentheses)
  {
    var s := "(a & b";
    assert s == "(" + "a & b";
    assert "("[..0] == [];
    CountAppend("(", "a & b", '(');
    CountNone("a & b", '(');
    CountNone(s, ')');
  }
}
