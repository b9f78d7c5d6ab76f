/**
 * `standardizeVariables`: every identifier of `/\b[a-zA-Z_]\w*\b/g` that is not
 * skipped is replaced by a generic name `p1`, `p2`, ... handed out by a counter
 * that starts at zero on every call. A name already held by the variable map
 * is reused. The three converters differ only in what is skipped (the symbol
 * values, plus the comparison placeholders in beta3) and in where the map
 * comes from.
 */
module Standardize {
  import opened Text

  type Names = map<seq<char>, seq<char>>

  /** `variableMap[v]` is truthy: present and not the empty string. */
  predicate Known(m: Names, v: seq<char>) {
    v in m && m[v] != []
  }

  /** An identifier starts at `i`: a letter or `_` with a word boundary before it. */
  predicate IdentAt(s: seq<char>, i: nat) {
    i < |s| && IsIdentStart(s[i]) && (i == 0 || !IsWord(s[i - 1]))
  }

  /** The generic name `p<k>`. */
  function Name(k: nat): (n: seq<char>)
    ensures |n| >= 2 && n[0] == 'p' && AllWord(n) && Parens(n) == []
  {
    var n := "p" + NatToString(k);
    assert forall x :: 0 <= x < |n| ==> n[x] !in "()" by {
      forall x | 0 <= x < |n| ensures n[x] !in "()" {
        if x > 0 { assert n[x] == NatToString(k)[x - 1]; }
      }
    }
    ParensFree(n);
    n
  }

  lemma NameInjective(a: nat, b: nat)
    requires Name(a) == Name(b)
    ensures a == b
  {
    assert NatToString(a) == Name(a)[1..];
    assert NatToString(b) == Name(b)[1..];
    NatToStringInjective(a, b);
  }

  /** What the replacer callback has built so far: the output, the map and the counter. */
  datatype State = State(out: seq<char>, names: Names, counter: nat)

  /** One call of the replacer callback on identifier `v`. */
  function Visit(v: seq<char>, skip: set<seq<char>>, st: State): State {
    if v in skip then st.(out := st.out + v)
    else if Known(st.names, v) then st.(out := st.out + st.names[v])
    else
      var n := Name(st.counter + 1);
      State(st.out + n, st.names[v := n], st.counter + 1)
  }

  /** The replacement scan of `s` from position `i` on. */
  function Run(s: seq<char>, i: nat, skip: set<seq<char>>, st: State): State
    requires i <= |s|
    decreases |s| - i
  {
    if i == |s| then st
    else if IdentAt(s, i) then
      var e := WordEnd(s, i);
      Run(s, e, skip, Visit(s[i..e], skip, st))
    else Run(s, i + 1, skip, st.(out := st.out + [s[i]]))
  }

  function Standardized(formula: seq<char>, skip: set<seq<char>>, variableMap: Names): State {
    Run(formula, 0, skip, State([], variableMap, 0))
  }

  /**
   * The scan with the callback's state in local variables: `names` is the
   * variable map as the caller sees it afterwards.
   */
  method StandardizeVariables(formula: seq<char>, skip: set<seq<char>>, variableMap: Names)
    returns (r: seq<char>, names: Names)
    ensures r == Standardized(formula, skip, variableMap).out
    ensures names == Standardized(formula, skip, variableMap).names
    ensures r == Rename(formula, 0, skip, names)
    ensures forall v :: Known(variableMap, v) ==> v in names && names[v] == variableMap[v]
  {
    var i := 0;
    var counter := 0;
    r, names := [], variableMap;
    while i < |formula|
      invariant i <= |formula|
      invariant Standardized(formula, skip, variableMap) == Run(formula, i, skip, State(r, names, counter))
      decreases |formula| - i
    {
      if IdentAt(formula, i) {
        var e := WordEnd(formula, i);
        var v := formula[i..e];
        if v in skip {
          r := r + v;
        } else {
          if !Known(names, v) {
            counter := counter + 1;
            names := names[v := Name(counter)];
          }
          r := r + names[v];
        }
        i := e;
      } else {
        r := r + [formula[i]];
        i := i + 1;
      }
    }
    RunRename(formula, 0, skip, State([], variableMap, 0));
    forall v | Known(variableMap, v)
      ensures v in names && names[v] == variableMap[v]
    {
      RunKeeps(formula, 0, skip, State([], variableMap, 0), v);
    }
  }

  /**
   * Reference: the formula with every identifier `v` outside `skip` replaced
   * by `names[v]`, one fixed map for the whole formula.
   */
  function Rename(s: seq<char>, i: nat, skip: set<seq<char>>, names: Names): seq<char>
    requires i <= |s|
    decreases |s| - i
  {
    if i == |s| then []
    else if IdentAt(s, i) then
      var e := WordEnd(s, i);
      RenameWord(s[i..e], skip, names) + Rename(s, e, skip, names)
    else [s[i]] + Rename(s, i + 1, skip, names)
  }

  /** What `Rename` puts in place of identifier `v`. */
  function RenameWord(v: seq<char>, skip: set<seq<char>>, names: Names): seq<char> {
    if v in skip || v !in names then v else names[v]
  }

  /** A name the map already held is never changed by the scan. */
  lemma {:induction false} RunKeeps(s: seq<char>, i: nat, skip: set<seq<char>>, st: State, v: seq<char>)
    requires i <= |s| && Known(st.names, v)
    ensures var f := Run(s, i, skip, st).names; v in f && f[v] == st.names[v]
    decreases |s| - i
  {
    if i < |s| {
      if IdentAt(s, i) {
        var e := WordEnd(s, i);
        RunKeeps(s, e, skip, Visit(s[i..e], skip, st), v);
      } else {
        RunKeeps(s, i + 1, skip, st.(out := st.out + [s[i]]), v);
      }
    }
  }

  /**
   * The scan's output is the renaming by its final map: once an identifier has
   * a name, every later occurrence gets the same one.
   */
  lemma {:induction false} RunRename(s: seq<char>, i: nat, skip: set<seq<char>>, st: State)
    requires i <= |s|
    ensures Run(s, i, skip, st).out == st.out + Rename(s, i, skip, Run(s, i, skip, st).names)
    decreases |s| - i
  {
    if i == |s| {
      assert st.out + [] == st.out;
    } else if IdentAt(s, i) {
      var e := WordEnd(s, i);
      var next := Visit(s[i..e], skip, st);
      RunRename(s, e, skip, next);
      IdentRename(s, i, skip, st);
    } else {
      var next := st.(out := st.out + [s[i]]);
      RunRename(s, i + 1, skip, next);
      assert Rename(s, i, skip, Run(s, i, skip, st).names) == [s[i]] + Rename(s, i + 1, skip, Run(s, i, skip, st).names);
    }
  }

  /** The identifier step of `RunRename`. */
  lemma IdentRename(s: seq<char>, i: nat, skip: set<seq<char>>, st: State)
    requires IdentAt(s, i)
    requires var next := Visit(s[i..WordEnd(s, i)], skip, st);
      Run(s, WordEnd(s, i), skip, next).out == next.out + Rename(s, WordEnd(s, i), skip, Run(s, WordEnd(s, i), skip, next).names)
    ensures Run(s, i, skip, st).out == st.out + Rename(s, i, skip, Run(s, i, skip, st).names)
  {
    var e := WordEnd(s, i);
    var v := s[i..e];
    var next := Visit(v, skip, st);
    var f := Run(s, e, skip, next);
    RunIdent(s, i, skip, st);
    RenameIdent(s, i, skip, f.names);
    if v !in skip {
      VisitKnown(v, skip, st);
      RunKeeps(s, e, skip, next, v);
    }
    VisitOut(v, skip, st, f.names);
    Regroup(st.out, RenameWord(v, skip, f.names), Rename(s, e, skip, f.names));
  }

  lemma RunIdent(s: seq<char>, i: nat, skip: set<seq<char>>, st: State)
    requires IdentAt(s, i)
    ensures Run(s, i, skip, st) == Run(s, WordEnd(s, i), skip, Visit(s[i..WordEnd(s, i)], skip, st))
  {
  }

  lemma RenameIdent(s: seq<char>, i: nat, skip: set<seq<char>>, names: Names)
    requires IdentAt(s, i)
    ensures Rename(s, i, skip, names) == RenameWord(s[i..WordEnd(s, i)], skip, names) + Rename(s, WordEnd(s, i), skip, names)
  {
  }

  lemma VisitKnown(v: seq<char>, skip: set<seq<char>>, st: State)
    requires v !in skip
    ensures Known(Visit(v, skip, st).names, v)
  {
  }

  /** The callback appends what the final map names `v`, provided the map keeps that name. */
  lemma VisitOut(v: seq<char>, skip: set<seq<char>>, st: State, names: Names)
    requires v !in skip ==> v in names && Known(Visit(v, skip, st).names, v) && names[v] == Visit(v, skip, st).names[v]
    ensures Visit(v, skip, st).out == st.out + RenameWord(v, skip, names)
  {
  }

  lemma Regroup(a: seq<char>, b: seq<char>, c: seq<char>)
    ensures (a + b) + c == a + (b + c)
  {
  }

  /** The identifiers of `s` from `i` on that are not skipped, in order of occurrence. */
  function Idents(s: seq<char>, i: nat, skip: set<seq<char>>): seq<seq<char>>
    requires i <= |s|
    decreases |s| - i
  {
    if i == |s| then []
    else if IdentAt(s, i) then
      var e := WordEnd(s, i);
      var v := s[i..e];
      (if v in skip then [] else [v]) + Idents(s, e, skip)
    else Idents(s, i + 1, skip)
  }

  /** `order` followed by the members of `xs` it lacks, each at its first occurrence. */
  function FirstSeen(order: seq<seq<char>>, xs: seq<seq<char>>): seq<seq<char>>
    decreases |xs|
  {
    if xs == [] then order
    else FirstSeen(if xs[0] in order then order else order + [xs[0]], xs[1..])
  }

  predicate Distinct(order: seq<seq<char>>) {
    forall a, b :: 0 <= a < b < |order| ==> order[a] != order[b]
  }

  /** The `k`-th identifier of `order` (from zero) is named `p<k+1>`. */
  function Numbering(order: seq<seq<char>>): Names
    decreases |order|
  {
    if order == [] then map[]
    else Numbering(order[..|order| - 1])[order[|order| - 1] := Name(|order|)]
  }

  lemma {:induction false} NumberingKeys(order: seq<seq<char>>, v: seq<char>)
    ensures Known(Numbering(order), v) <==> v in order
    ensures v in Numbering(order) <==> v in order
    decreases |order|
  {
    if order != [] {
      var init := order[..|order| - 1];
      NumberingKeys(init, v);
      assert order == init + [order[|order| - 1]];
    }
  }

  /** The numbering of a distinct sequence gives its `k`-th member `p<k+1>`. */
  lemma {:induction false} NumberingAt(order: seq<seq<char>>, k: nat)
    requires Distinct(order) && k < |order|
    ensures order[k] in Numbering(order) && Numbering(order)[order[k]] == Name(k + 1)
    decreases |order|
  {
    var init := order[..|order| - 1];
    if k < |order| - 1 {
      NumberingAt(init, k);
    }
  }

  /** Where in `order` a numbered identifier stands. */
  lemma {:induction false} NumberingIndex(order: seq<seq<char>>, v: seq<char>) returns (x: nat)
    requires v in Numbering(order)
    ensures x < |order| && order[x] == v
    decreases |order|
  {
    var init := order[..|order| - 1];
    if v == order[|order| - 1] {
      x := |order| - 1;
    } else {
      assert v in Numbering(init);
      x := NumberingIndex(init, v);
    }
  }

  /** Distinct identifiers get distinct names, each `p<k>` with `1 <= k <= |order|`. */
  lemma NumberingInjective(order: seq<seq<char>>, a: seq<char>, b: seq<char>)
    requires Distinct(order) && a in Numbering(order) && b in Numbering(order)
    ensures Numbering(order)[a] == Numbering(order)[b] <==> a == b
    ensures exists k :: 1 <= k <= |order| && Numbering(order)[a] == Name(k)
  {
    var x := NumberingIndex(order, a);
    var y := NumberingIndex(order, b);
    NumberingAt(order, x);
    NumberingAt(order, y);
    if Numbering(order)[a] == Numbering(order)[b] {
      NameInjective(x + 1, y + 1);
    }
    assert Numbering(order)[a] == Name(x + 1);
  }

  lemma {:induction false} NumberingSnoc(order: seq<seq<char>>, v: seq<char>)
    ensures Numbering(order + [v]) == Numbering(order)[v := Name(|order| + 1)]
  {
    var o := order + [v];
    assert o[..|o| - 1] == order;
    assert o[|o| - 1] == v;
  }

  /** The first-seen order keeps `order` in front, holds no duplicates and loses nothing. */
  lemma {:induction false} FirstSeenShape(order: seq<seq<char>>, xs: seq<seq<char>>)
    requires Distinct(order)
    ensures Distinct(FirstSeen(order, xs))
    ensures order <= FirstSeen(order, xs)
    ensures forall v :: v in FirstSeen(order, xs) <==> v in order || v in xs
    decreases |xs|
  {
    if xs != [] {
      var next := if xs[0] in order then order else order + [xs[0]];
      FirstSeenShape(next, xs[1..]);
      assert xs == [xs[0]] + xs[1..];
    }
  }

  /** `order` after meeting identifier `v`. */
  function Meet(order: seq<seq<char>>, v: seq<char>, skip: set<seq<char>>): seq<seq<char>> {
    if v in skip || v in order then order else order + [v]
  }

  /** The callback keeps the map the numbering of the identifiers met so far. */
  lemma VisitFresh(v: seq<char>, skip: set<seq<char>>, st: State, order: seq<seq<char>>)
    requires Distinct(order) && st.names == Numbering(order) && st.counter == |order|
    ensures var o := Meet(order, v, skip);
      Distinct(o) && Visit(v, skip, st).names == Numbering(o) && Visit(v, skip, st).counter == |o|
  {
    if v !in skip {
      NumberingKeys(order, v);
      if v !in order {
        NumberingSnoc(order, v);
      }
    }
  }

  /** The identifier step of the first-seen order. */
  lemma IdentsStep(s: seq<char>, i: nat, skip: set<seq<char>>, order: seq<seq<char>>)
    requires IdentAt(s, i)
    ensures var e := WordEnd(s, i);
      FirstSeen(order, Idents(s, i, skip)) == FirstSeen(Meet(order, s[i..e], skip), Idents(s, e, skip))
  {
    var e := WordEnd(s, i);
    var v := s[i..e];
    var rest := Idents(s, e, skip);
    if v in skip {
      assert Idents(s, i, skip) == rest;
    } else {
      assert Idents(s, i, skip) == [v] + rest;
      assert ([v] + rest)[1..] == rest;
    }
  }

  /**
   * Starting from a numbering of the distinct sequence `order`, the scan ends
   * with the numbering of `order` extended by the identifiers in first-seen order.
   */
  lemma {:induction false} RunFresh(s: seq<char>, i: nat, skip: set<seq<char>>, st: State, order: seq<seq<char>>)
    requires i <= |s| && Distinct(order)
    requires st.names == Numbering(order) && st.counter == |order|
    ensures Run(s, i, skip, st).names == Numbering(FirstSeen(order, Idents(s, i, skip)))
    decreases |s| - i
  {
    if i < |s| {
      if IdentAt(s, i) {
        var e := WordEnd(s, i);
        var v := s[i..e];
        RunIdent(s, i, skip, st);
        VisitFresh(v, skip, st, order);
        RunFresh(s, e, skip, Visit(v, skip, st), Meet(order, v, skip));
        IdentsStep(s, i, skip, order);
      } else {
        RunChar(s, i, skip, st);
        IdentsChar(s, i, skip);
        RunFresh(s, i + 1, skip, st.(out := st.out + [s[i]]), order);
      }
    }
  }

  lemma RunChar(s: seq<char>, i: nat, skip: set<seq<char>>, st: State)
    requires i < |s| && !IdentAt(s, i)
    ensures Run(s, i, skip, st) == Run(s, i + 1, skip, st.(out := st.out + [s[i]]))
  {
  }

  lemma IdentsChar(s: seq<char>, i: nat, skip: set<seq<char>>)
    requires i < |s| && !IdentAt(s, i)
    ensures Idents(s, i, skip) == Idents(s, i + 1, skip)
  {
  }

  /**
   * With an empty map the final map numbers the non-skipped identifiers
   * `p1, p2, ...` in the order they are first seen; no skipped identifier gets
   * a name and no two identifiers share one.
   */
  lemma StandardizedFresh(formula: seq<char>, skip: set<seq<char>>)
    ensures var order := FirstSeen([], Idents(formula, 0, skip));
            Standardized(formula, skip, map[]).names == Numbering(order)
            && Distinct(order)
            && (forall v :: v in order <==> v in Idents(formula, 0, skip))
            && (forall v :: v in skip ==> v !in Numbering(order))
  {
    var order := FirstSeen([], Idents(formula, 0, skip));
    assert Numbering([]) == map[];
    RunFresh(formula, 0, skip, State([], map[], 0), []);
    FirstSeenShape([], Idents(formula, 0, skip));
    forall v | v in skip
      ensures v !in Numbering(order)
    {
      NumberingKeys(order, v);
      IdentsNotSkipped(formula, 0, skip, v);
    }
  }

  /** A fresh map never gives two identifiers one name and never names a skipped word. */
  lemma FreshInjective(formula: seq<char>, skip: set<seq<char>>)
    ensures var m := Standardized(formula, skip, map[]).names;
            (forall a, b :: a in m && b in m && m[a] == m[b] ==> a == b)
            && (forall v :: v in skip ==> v !in m)
  {
    var order := FirstSeen([], Idents(formula, 0, skip));
    StandardizedFresh(formula, skip);
    var m := Numbering(order);
    forall a, b | a in m && b in m && m[a] == m[b]
      ensures a == b
    {
      NumberingInjective(order, a, b);
    }
  }

  lemma {:induction false} IdentsNotSkipped(s: seq<char>, i: nat, skip: set<seq<char>>, v: seq<char>)
    requires i <= |s| && v in skip
    ensures v !in Idents(s, i, skip)
    decreases |s| - i
  {
    if i < |s| {
      if IdentAt(s, i) {
        IdentsNotSkipped(s, WordEnd(s, i), skip, v);
      } else {
        IdentsNotSkipped(s, i + 1, skip, v);
      }
    }
  }

  /** Renaming with parenthesis-free names keeps the parenthesis skeleton. */
  lemma {:induction false} RenameParens(s: seq<char>, i: nat, skip: set<seq<char>>, names: Names)
    requires i <= |s|
    requires ParenFreeNames(names)
    ensures Parens(Rename(s, i, skip, names)) == Parens(s[i..])
    decreases |s| - i
  {
    if i < |s| {
      if IdentAt(s, i) {
        var e := WordEnd(s, i);
        RenameParens(s, e, skip, names);
        RenameIdentParens(s, i, e, skip, names);
      } else {
        RenameParens(s, i + 1, skip, names);
        var rest := Rename(s, i + 1, skip, names);
        assert Rename(s, i, skip, names) == [s[i]] + rest;
        ParensAppend([s[i]], rest);
        assert s[i..] == [s[i]] + s[i + 1..];
        ParensAppend([s[i]], s[i + 1..]);
      }
    }
  }

  /** One identifier step of `RenameParens`. */
  lemma RenameIdentParens(s: seq<char>, i: nat, e: nat, skip: set<seq<char>>, names: Names)
    requires IdentAt(s, i) && e == WordEnd(s, i)
    requires ParenFreeNames(names)
    requires Parens(Rename(s, e, skip, names)) == Parens(s[e..])
    ensures Parens(Rename(s, i, skip, names)) == Parens(s[i..])
  {
    var v := s[i..e];
    var w := RenameWord(v, skip, names);
    var rest := Rename(s, e, skip, names);
    WordRunParens(s, i);
    assert Parens(w) == [];
    RenameIdent(s, i, skip, names);
    ParensAppend(w, rest);
    SliceSplit(s, i, e);
    ParensAppend(v, s[e..]);
  }

  lemma SliceSplit(s: seq<char>, i: nat, e: nat)
    requires i <= e <= |s|
    ensures s[i..] == s[i..e] + s[e..]
  {
  }

  lemma WordRunParens(s: seq<char>, i: nat)
    requires i < |s|
    ensures Parens(s[i..WordEnd(s, i)]) == []
  {
    var v := s[i..WordEnd(s, i)];
    forall x | 0 <= x < |v|
      ensures v[x] !in "()"
    {
      assert IsWord(s[i + x]);
    }
    ParensFree(v);
  }

  /** Every name in the map is free of parentheses. */
  predicate ParenFreeNames(m: Names) {
    forall v :: v in m ==> Parens(m[v]) == []
  }

  /** The callback only ever adds names `p<k>`, which hold no parenthesis. */
  lemma {:induction false} RunParenFree(s: seq<char>, i: nat, skip: set<seq<char>>, st: State)
    requires i <= |s| && ParenFreeNames(st.names)
    ensures ParenFreeNames(Run(s, i, skip, st).names)
    decreases |s| - i
  {
    if i < |s| {
      if IdentAt(s, i) {
        var e := WordEnd(s, i);
        VisitParenFree(s[i..e], skip, st);
        RunParenFree(s, e, skip, Visit(s[i..e], skip, st));
      } else {
        RunParenFree(s, i + 1, skip, st.(out := st.out + [s[i]]));
      }
    }
  }

  lemma VisitParenFree(v: seq<char>, skip: set<seq<char>>, st: State)
    requires ParenFreeNames(st.names)
    ensures ParenFreeNames(Visit(v, skip, st).names)
  {
    if v !in skip && !Known(st.names, v) {
      var n := Name(st.counter + 1);
      var m := st.names[v := n];
      forall w | w in m
        ensures Parens(m[w]) == []
      {
        if w != v {
          assert m[w] == st.names[w];
        }
      }
    }
  }

  /** Standardising with a parenthesis-free map changes no parenthesis. */
  lemma StandardizedParens(formula: seq<char>, skip: set<seq<char>>, variableMap: Names)
    requires ParenFreeNames(variableMap)
    ensures Parens(Standardized(formula, skip, variableMap).out) == Parens(formula)
  {
    var st := State([], variableMap, 0);
    var f := Standardized(formula, skip, variableMap);
    RunParenFree(formula, 0, skip, st);
    RunRename(formula, 0, skip, st);
    assert [] + Rename(formula, 0, skip, f.names) == Rename(formula, 0, skip, f.names);
    RenameParens(formula, 0, skip, f.names);
    assert formula[0..] == formula;
  }

  /**
   * The counter is local to the call: a map that already names `x` as `p1`
   * still lets the next new identifier `y` be named `p1`.
   */
  lemma CounterRestarts()
    ensures var f := Standardized("y", {}, map["x" := "p1"]);
            f.out == "p1" && "x" in f.names && "y" in f.names && f.names["x"] == f.names["y"] == "p1"
  {
    var m := map["x" := "p1"];
    assert IdentAt("y", 0);
    assert WordEnd("y", 0) == 1 by {
      WordEndIs("y", 0, 1);
    }
    assert "y"[0..1] == "y";
    assert Name(1) == "p1";
    assert !Known(m, "y");
    var next := State("p1", m["y" := "p1"], 1);
    assert Visit("y", {}, State([], m, 0)) == next;
    assert Standardized("y", {}, m) == Run("y", 1, {}, next) == next;
  }

  /** With a fresh map, the first identifier renamed is named `p1`. */
  lemma FirstName(formula: seq<char>, skip: set<seq<char>>) returns (v: seq<char>)
    requires Standardized(formula, skip, map[]).names != map[]
    ensures v in Standardized(formula, skip, map[]).names
    ensures Standardized(formula, skip, map[]).names[v] == Name(1)
  {
    var order := FirstSeen([], Idents(formula, 0, skip));
    StandardizedFresh(formula, skip);
    var w :| w in Numbering(order);
    NumberingKeys(order, w);
    NumberingAt(order, 0);
    v := order[0];
  }
}
