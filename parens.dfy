/**
 * `removeRedundantParentheses` of Converter2: one pass pairs every `)` with
 * the `(` on top of a stack of open positions; the pair is marked for removal
 * unless the character after the `(` is `(` or the character before the `)`
 * is `)`. A second pass copies every unmarked character, and the copy is
 * trimmed.
 */
module RedundantParens {
  import opened Text

  /** The stack holds positions of `(` before `i`, increasing, none of them marked. */
  predicate StackOk(s: seq<char>, i: nat, stack: seq<nat>, marked: set<nat>) {
    (forall k :: 0 <= k < |stack| ==> stack[k] < i && stack[k] < |s| && s[stack[k]] == '(' && stack[k] !in marked)
    && (forall a, b :: 0 <= a < b < |stack| ==> stack[a] < stack[b])
  }

  /** The marked positions after the first pass, continued from position `i`. */
  function Detect(s: seq<char>, i: nat, stack: seq<nat>, marked: set<nat>): set<nat>
    requires i <= |s|
    requires forall k :: 0 <= k < |stack| ==> stack[k] < i
    decreases |s| - i
  {
    if i == |s| then marked
    else if s[i] == '(' then Detect(s, i + 1, stack + [i], marked)
    else if s[i] == ')' && |stack| > 0 then
      var start := stack[|stack| - 1];
      var marked' := if s[start + 1] != '(' && s[i - 1] != ')' then marked + {start, i} else marked;
      Detect(s, i + 1, stack[..|stack| - 1], marked')
    else Detect(s, i + 1, stack, marked)
  }

  function Redundant(s: seq<char>): set<nat> {
    Detect(s, 0, [], {})
  }

  /** The characters of `s[..n]` whose positions are not in `marked`. */
  function Kept(s: seq<char>, marked: set<nat>, n: nat): seq<char>
    requires n <= |s|
  {
    if n == 0 then [] else Kept(s, marked, n - 1) + (if n - 1 in marked then [] else [s[n - 1]])
  }

  /** The whole of `removeRedundantParentheses`: copy the unmarked characters, then trim. */
  function RemoveRedundant(formula: seq<char>): seq<char> {
    Trim(Kept(formula, Redundant(formula), |formula|))
  }

  method RemoveRedundantParentheses(formula: seq<char>) returns (r: seq<char>)
    ensures r == RemoveRedundant(formula)
    ensures Excess(r) == Excess(formula)
  {
    var stack: seq<nat> := [];
    var toRemove: set<nat> := {};
    for i := 0 to |formula|
      invariant forall k :: 0 <= k < |stack| ==> stack[k] < i
      invariant Redundant(formula) == Detect(formula, i, stack, toRemove)
    {
      if formula[i] == '(' {
        stack := stack + [i];
      } else if formula[i] == ')' {
        if |stack| > 0 {
          var start := stack[|stack| - 1];
          stack := stack[..|stack| - 1];
          if formula[start + 1] != '(' && formula[i - 1] != ')' {
            toRemove := toRemove + {start, i};
          }
        }
      }
    }
    var cleaned := [];
    for i := 0 to |formula|
      invariant cleaned == Kept(formula, toRemove, i)
    {
      if i !in toRemove {
        cleaned := cleaned + [formula[i]];
      }
    }
    r := Trim(cleaned);
    RemoveRedundantExcess(formula);
  }

  /** Only matched pairs go and trimming drops only blanks, so the balance is kept. */
  lemma RemoveRedundantExcess(s: seq<char>)
    ensures Excess(RemoveRedundant(s)) == Excess(s)
  {
    var cleaned := Kept(s, Redundant(s), |s|);
    RedundantExcess(s);
    TrimParens(cleaned);
    SameParensSameCounts(Trim(cleaned), cleaned);
  }

  /** The marked `(` and the marked `)` of `s`. */
  function Opens(s: seq<char>, marked: set<nat>): set<nat> {
    set x | x in marked && x < |s| && s[x] == '('
  }

  function Closes(s: seq<char>, marked: set<nat>): set<nat> {
    set x | x in marked && x < |s| && s[x] == ')'
  }

  /** Only parentheses are marked, as many `(` as `)`. */
  predicate Paired(s: seq<char>, marked: set<nat>) {
    (forall x :: x in marked ==> x < |s| && s[x] in "()")
    && |Opens(s, marked)| == |Closes(s, marked)|
  }

  /** One step of the first pass keeps the stack shape and the pairing. */
  lemma {:induction false} DetectPaired(s: seq<char>, i: nat, stack: seq<nat>, marked: set<nat>)
    requires i <= |s| && StackOk(s, i, stack, marked) && Paired(s, marked)
    requires forall x :: x in marked ==> x < i
    ensures Paired(s, Detect(s, i, stack, marked))
    decreases |s| - i
  {
    if i < |s| {
      if s[i] == '(' {
        DetectPaired(s, i + 1, stack + [i], marked);
      } else if s[i] == ')' && |stack| > 0 {
        var start := stack[|stack| - 1];
        var rest := stack[..|stack| - 1];
        if s[start + 1] != '(' && s[i - 1] != ')' {
          var marked' := marked + {start, i};
          MarkPair(s, marked, start, i);
          assert StackOk(s, i + 1, rest, marked') by {
            forall k | 0 <= k < |rest|
              ensures rest[k] !in marked'
            {
              assert rest[k] == stack[k] < start;
            }
          }
          DetectPaired(s, i + 1, rest, marked');
        } else {
          DetectPaired(s, i + 1, rest, marked);
        }
      } else {
        DetectPaired(s, i + 1, stack, marked);
      }
    }
  }

  /** Marking an unmarked `(` together with an unmarked `)` keeps the counts equal. */
  lemma MarkPair(s: seq<char>, marked: set<nat>, o: nat, c: nat)
    requires Paired(s, marked) && o < |s| && c < |s| && s[o] == '(' && s[c] == ')'
    requires o !in marked && c !in marked
    ensures Paired(s, marked + {o, c})
  {
    MarkOpen(s, marked, o, c);
    MarkClose(s, marked, o, c);
    assert o !in Opens(s, marked) && c !in Closes(s, marked);
  }

  lemma MarkOpen(s: seq<char>, marked: set<nat>, o: nat, c: nat)
    requires o < |s| && c < |s| && s[o] == '(' && s[c] == ')'
    ensures Opens(s, marked + {o, c}) == Opens(s, marked) + {o}
  {
  }

  lemma MarkClose(s: seq<char>, marked: set<nat>, o: nat, c: nat)
    requires o < |s| && c < |s| && s[o] == '(' && s[c] == ')'
    ensures Closes(s, marked + {o, c}) == Closes(s, marked) + {c}
  {
  }

  /** The first pass marks only parentheses, in `(`/`)` pairs. */
  lemma RedundantPaired(s: seq<char>)
    ensures Paired(s, Redundant(s))
  {
    assert Opens(s, {}) == {} && Closes(s, {}) == {};
    DetectPaired(s, 0, [], {});
  }

  /** How one character changes the nesting: `(` opens, `)` closes. */
  function Nesting(ch: char): int {
    if ch == '(' then 1 else if ch == ')' then -1 else 0
  }

  /** The net nesting of `s[o + 1..k]`: parentheses it opens minus those it closes. */
  function Inside(s: seq<char>, o: nat, k: nat): int
    requires o < k <= |s|
    decreases k - o
  {
    if k == o + 1 then 0 else Inside(s, o, k - 1) + Nesting(s[k - 1])
  }

  /** The `(` at `o` is still open at `i`: no prefix of `s[o + 1..i]` closes more than it opens. */
  predicate Open(s: seq<char>, o: nat, i: nat)
    requires o < i <= |s|
  {
    forall k :: o < k <= i ==> Inside(s, o, k) >= 0
  }

  /** Position `p` before `i` holds a `(` still open at `i`. */
  predicate OpenAt(s: seq<char>, p: nat, i: nat)
    requires i <= |s|
  {
    p < i && s[p] == '(' && Open(s, p, i)
  }

  /** The `(` at `o` and the `)` at `c` enclose a balanced text: they match. */
  predicate Matches(s: seq<char>, o: nat, c: nat) {
    o < c < |s| && s[o] == '(' && s[c] == ')' && Open(s, o, c) && Inside(s, o, c) == 0
  }

  /** A matched pair that encloses neither a `(` right after its `(` nor a `)` right before its `)`. */
  predicate RedundantPair(s: seq<char>, o: nat, c: nat) {
    Matches(s, o, c) && s[o + 1] != '(' && s[c - 1] != ')'
  }

  /**
   * The first pass deletes exactly the ends of the redundant pairs: a pair
   * of matching parentheses goes unless a `(` follows its `(` or a `)`
   * precedes its `)`; no other character is marked.
   */
  lemma RedundantPairs(s: seq<char>)
    ensures forall x :: x in Redundant(s) <==> exists o: nat, c: nat :: RedundantPair(s, o, c) && (x == o || x == c)
  {
    assert Ends(s, 0) == {};
    DetectExact(s, 0, [], {});
    forall x | x in Redundant(s)
      ensures exists o: nat, c: nat :: RedundantPair(s, o, c) && (x == o || x == c)
    {
      var o: nat, c: nat :| o < c < |s| && RedundantPair(s, o, c) && (x == o || x == c);
    }
    forall x: nat, o: nat, c: nat | RedundantPair(s, o, c) && (x == o || x == c)
      ensures x in Redundant(s)
    {
      assert PairEnd(s, |s|, x);
    }
  }

  /** The stack holds exactly the `(` still open at `i`, the top one at depth 0 below `i`. */
  ghost predicate StackInv(s: seq<char>, i: nat, stack: seq<nat>)
    requires i <= |s|
  {
    (forall t :: 0 <= t < |stack| ==>
       stack[t] < i && s[stack[t]] == '(' && Open(s, stack[t], i)
       && Inside(s, stack[t], i) == |stack| - 1 - t)
    && (forall p: nat :: OpenAt(s, p, i) ==> p in stack)
  }

  /** Position `x` is an end of a redundant pair closed before `n`. */
  ghost predicate PairEnd(s: seq<char>, n: nat, x: nat) {
    exists o: nat, c: nat :: o < c < n && RedundantPair(s, o, c) && (x == o || x == c)
  }

  /** The ends of the redundant pairs closed before `n`. */
  ghost function Ends(s: seq<char>, n: nat): set<nat> {
    set x: nat | x < n && PairEnd(s, n, x)
  }

  /** From position `i` on, the first pass ends with exactly the redundant pairs marked. */
  lemma {:induction false} DetectExact(s: seq<char>, i: nat, stack: seq<nat>, marked: set<nat>)
    requires i <= |s| && StackInv(s, i, stack) && marked == Ends(s, i)
    ensures Detect(s, i, stack, marked) == Ends(s, |s|)
    decreases |s| - i
  {
    if i == |s| {
      assert Detect(s, i, stack, marked) == marked;
    } else {
      if s[i] == '(' {
        MarkedNoClose(s, i, stack);
        PushInv(s, i, stack);
        DetectExact(s, i + 1, stack + [i], marked);
        assert Detect(s, i, stack, marked) == Detect(s, i + 1, stack + [i], marked);
      } else if s[i] == ')' && |stack| > 0 {
        var start := stack[|stack| - 1];
        var marked' := if s[start + 1] != '(' && s[i - 1] != ')' then marked + {start, i} else marked;
        MarkedClose(s, i, stack);
        PopInv(s, i, stack);
        DetectExact(s, i + 1, stack[..|stack| - 1], marked');
        assert Detect(s, i, stack, marked) == Detect(s, i + 1, stack[..|stack| - 1], marked');
      } else {
        MarkedNoClose(s, i, stack);
        SkipInv(s, i, stack);
        DetectExact(s, i + 1, stack, marked);
        assert Detect(s, i, stack, marked) == Detect(s, i + 1, stack, marked);
      }
    }
  }

  /** A `(` open at `i` that the character at `i` does not close is open at `i + 1`. */
  lemma OpenExtend(s: seq<char>, o: nat, i: nat)
    requires o < i < |s| && Open(s, o, i) && Inside(s, o, i) + Nesting(s[i]) >= 0
    ensures Open(s, o, i + 1)
  {
  }

  lemma OpenShrink(s: seq<char>, o: nat, i: nat)
    requires i < |s| && OpenAt(s, o, i + 1) && o != i
    ensures OpenAt(s, o, i)
  {
  }

  /** Pushing a `(`. */
  lemma PushInv(s: seq<char>, i: nat, stack: seq<nat>)
    requires i < |s| && s[i] == '(' && StackInv(s, i, stack)
    ensures StackInv(s, i + 1, stack + [i])
  {
    var st := stack + [i];
    forall t | 0 <= t < |st|
      ensures st[t] < i + 1 && s[st[t]] == '(' && Open(s, st[t], i + 1)
              && Inside(s, st[t], i + 1) == |st| - 1 - t
    {
      if t < |stack| {
        assert st[t] == stack[t];
        OpenExtend(s, stack[t], i);
      } else {
        assert Inside(s, i, i + 1) == 0;
      }
    }
    forall p: nat | OpenAt(s, p, i + 1)
      ensures p in st
    {
      if p < i {
        OpenShrink(s, p, i);
      }
    }
  }

  /** Popping the top `(` at a `)`: it is closed, every other one stays open. */
  lemma PopInv(s: seq<char>, i: nat, stack: seq<nat>)
    requires i < |s| && s[i] == ')' && |stack| > 0 && StackInv(s, i, stack)
    ensures StackInv(s, i + 1, stack[..|stack| - 1])
  {
    var rest := stack[..|stack| - 1];
    forall t | 0 <= t < |rest|
      ensures rest[t] < i + 1 && s[rest[t]] == '(' && Open(s, rest[t], i + 1)
              && Inside(s, rest[t], i + 1) == |rest| - 1 - t
    {
      assert rest[t] == stack[t];
      OpenExtend(s, stack[t], i);
    }
    forall p: nat | OpenAt(s, p, i + 1)
      ensures p in rest
    {
      OpenShrink(s, p, i);
      var t :| 0 <= t < |stack| && stack[t] == p;
      assert Inside(s, p, i + 1) == Inside(s, p, i) - 1;
      assert rest[t] == p;
    }
  }

  /** A character that neither opens nor pops leaves the stack as it is. */
  lemma SkipInv(s: seq<char>, i: nat, stack: seq<nat>)
    requires i < |s| && s[i] != '(' && (s[i] != ')' || |stack| == 0) && StackInv(s, i, stack)
    ensures StackInv(s, i + 1, stack)
  {
    forall t | 0 <= t < |stack|
      ensures Open(s, stack[t], i + 1) && Inside(s, stack[t], i + 1) == |stack| - 1 - t
    {
      OpenExtend(s, stack[t], i);
    }
    forall p: nat | OpenAt(s, p, i + 1)
      ensures p in stack
    {
      OpenShrink(s, p, i);
    }
  }

  /** The only `(` that can match a `)` at `i` is the top of the stack. */
  lemma UniqueMatch(s: seq<char>, i: nat, stack: seq<nat>, o: nat)
    requires i < |s| && StackInv(s, i, stack)
    ensures Matches(s, o, i) ==> |stack| > 0 && o == stack[|stack| - 1]
  {
    if Matches(s, o, i) {
      assert OpenAt(s, o, i);
      var t :| 0 <= t < |stack| && stack[t] == o;
    }
  }

  /** A redundant pair closed at `i` is the top of the stack with `i`. */
  lemma ClosingPair(s: seq<char>, i: nat, stack: seq<nat>, o: nat)
    requires i < |s| && StackInv(s, i, stack) && RedundantPair(s, o, i)
    ensures |stack| > 0 && o == stack[|stack| - 1]
    ensures s[o + 1] != '(' && s[i - 1] != ')'
  {
    UniqueMatch(s, i, stack, o);
  }

  /** A position that does not pop closes no pair. */
  lemma MarkedNoClose(s: seq<char>, i: nat, stack: seq<nat>)
    requires i < |s| && (s[i] != ')' || |stack| == 0) && StackInv(s, i, stack)
    ensures Ends(s, i + 1) == Ends(s, i)
  {
    forall o: nat
      ensures !Matches(s, o, i)
    {
      UniqueMatch(s, i, stack, o);
    }
    forall x: nat
      ensures x in Ends(s, i + 1) <==> x in Ends(s, i)
    {
      if x in Ends(s, i + 1) {
        var o: nat, c: nat :| o < c < i + 1 && RedundantPair(s, o, c) && (x == o || x == c);
        assert PairEnd(s, i, x);
      } else if x in Ends(s, i) {
        var o: nat, c: nat :| o < c < i && RedundantPair(s, o, c) && (x == o || x == c);
        assert PairEnd(s, i + 1, x);
      }
    }
  }

  /** A `)` that pops closes exactly the pair with the top `(`, an added pair if it is redundant. */
  lemma MarkedClose(s: seq<char>, i: nat, stack: seq<nat>)
    requires i < |s| && s[i] == ')' && |stack| > 0 && StackInv(s, i, stack)
    ensures var top := stack[|stack| - 1];
            Ends(s, i + 1) == if s[top + 1] != '(' && s[i - 1] != ')' then Ends(s, i) + {top, i} else Ends(s, i)
  {
    var top := stack[|stack| - 1];
    var m := if s[top + 1] != '(' && s[i - 1] != ')' then Ends(s, i) + {top, i} else Ends(s, i);
    assert Matches(s, top, i);
    forall x: nat
      ensures x in Ends(s, i + 1) <==> x in m
    {
      if x in Ends(s, i + 1) {
        var o: nat, c: nat :| o < c < i + 1 && RedundantPair(s, o, c) && (x == o || x == c);
        if c == i {
          ClosingPair(s, i, stack, o);
        } else {
          assert PairEnd(s, i, x);
        }
      } else if x in Ends(s, i) {
        var o: nat, c: nat :| o < c < i && RedundantPair(s, o, c) && (x == o || x == c);
        assert PairEnd(s, i + 1, x);
      } else if x in m {
        assert RedundantPair(s, top, i);
        assert PairEnd(s, i + 1, x);
      }
    }
  }

  /** The marked positions below `n` that hold `c`. */
  function MarkedOf(s: seq<char>, marked: set<nat>, n: nat, c: char): set<nat>
    requires n <= |s|
  {
    set x | x in marked && x < n && s[x] == c
  }

  /** Copying drops exactly the marked characters: counts fall by the number marked. */
  lemma {:induction false} KeptCount(s: seq<char>, marked: set<nat>, n: nat, c: char)
    requires n <= |s|
    ensures Count(Kept(s, marked, n), c) + |MarkedOf(s, marked, n, c)| == Count(s[..n], c)
  {
    if n > 0 {
      KeptCount(s, marked, n - 1, c);
      var piece := if n - 1 in marked then [] else [s[n - 1]];
      CountAppend(Kept(s, marked, n - 1), piece, c);
      CountPrefix(s, n, c);
      MarkedOfStep(s, marked, n, c);
    }
  }

  lemma CountPrefix(s: seq<char>, n: nat, c: char)
    requires 0 < n <= |s|
    ensures Count(s[..n], c) == Count(s[..n - 1], c) + (if s[n - 1] == c then 1 else 0)
  {
    assert s[..n][..n - 1] == s[..n - 1];
  }

  lemma MarkedOfStep(s: seq<char>, marked: set<nat>, n: nat, c: char)
    requires 0 < n <= |s|
    ensures |MarkedOf(s, marked, n, c)| == |MarkedOf(s, marked, n - 1, c)| + (if n - 1 in marked && s[n - 1] == c then 1 else 0)
  {
    if n - 1 in marked && s[n - 1] == c {
      assert MarkedOf(s, marked, n, c) == MarkedOf(s, marked, n - 1, c) + {n - 1};
    } else {
      assert MarkedOf(s, marked, n, c) == MarkedOf(s, marked, n - 1, c);
    }
  }

  /** Removing the marked pairs keeps the difference between `(` and `)` counts. */
  lemma RedundantExcess(s: seq<char>)
    ensures Excess(Kept(s, Redundant(s), |s|)) == Excess(s)
  {
    var m := Redundant(s);
    RedundantPaired(s);
    KeptCount(s, m, |s|, '(');
    KeptCount(s, m, |s|, ')');
    assert MarkedOf(s, m, |s|, '(') == Opens(s, m);
    assert MarkedOf(s, m, |s|, ')') == Closes(s, m);
    assert s[..|s|] == s;
  }

  /** The characters that are not parentheses, in order. */
  function NonParens(s: seq<char>): seq<char> {
    if s == [] then [] else NonParens(s[..|s| - 1]) + (if s[|s| - 1] in "()" then [] else [s[|s| - 1]])
  }

  /** Only parentheses are dropped by the copying pass. */
  lemma {:induction false} KeptNonParens(s: seq<char>, marked: set<nat>, n: nat)
    requires n <= |s| && forall x :: x in marked ==> x < |s| && s[x] in "()"
    ensures NonParens(Kept(s, marked, n)) == NonParens(s[..n])
  {
    if n > 0 {
      KeptNonParens(s, marked, n - 1);
      NonParensAppend(Kept(s, marked, n - 1), if n - 1 in marked then [] else [s[n - 1]]);
      assert s[..n][..n - 1] == s[..n - 1];
    }
  }

  lemma {:induction false} NonParensAppend(a: seq<char>, b: seq<char>)
    requires |b| <= 1
    ensures NonParens(a + b) == NonParens(a) + NonParens(b)
  {
    if b != [] {
      assert (a + b)[..|a + b| - 1] == a;
      assert b[..0] == [];
    } else {
      assert a + b == a;
    }
  }

  /** Before trimming, the result is the input with some parentheses deleted. */
  lemma RedundantOnlyParens(s: seq<char>)
    ensures NonParens(Kept(s, Redundant(s), |s|)) == NonParens(s)
  {
    RedundantPaired(s);
    KeptNonParens(s, Redundant(s), |s|);
    assert s[..|s|] == s;
  }

  /** A single pass: of `((p))` only the inner pair goes. */
  lemma DoubleWrapped()
    ensures RemoveRedundant("((p))") == "(p)"
  {
    DoubleWrappedMarks();
    var s := "((p))";
    var m: set<nat> := {1, 3};
    assert Kept(s, m, 1) == "(";
    assert Kept(s, m, 2) == "(";
    assert Kept(s, m, 3) == "(p";
    assert Kept(s, m, 4) == "(p";
    assert Kept(s, m, 5) == "(p)";
    TrimNoop("(p)");
  }

  lemma DoubleWrappedMarks()
    ensures Redundant("((p))") == {1, 3}
  {
    var s := "((p))";
    DoubleWrappedClose();
    assert Detect(s, 2, [0, 1], {}) == {1, 3};
    assert [0] + [1] == [0, 1];
    assert Detect(s, 1, [0], {}) == {1, 3};
    assert [] + [0] == [0];
  }

  lemma DoubleWrappedClose()
    ensures Detect("((p))", 3, [0, 1], {}) == {1, 3}
  {
    var s := "((p))";
    var m: set<nat> := {1, 3};
    assert [0][..0] == [];
    assert Detect(s, 4, [0], m) == m;
    assert [0, 1][..1] == [0];
  }
}
