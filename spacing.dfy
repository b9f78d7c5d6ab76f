/**
 * `cleanUpSpacing` (Converter2, beta3) and `cleanFormula` (Converter): three
 * chained whitespace rewrites: every match of `\s*([()!&|=->X<>=])\s*` is
 * replaced by its class character, every run matched by `\s+` by one space,
 * and the result is trimmed.
 * In the character class `=->` is the range from `=` to `>`, so `-` is not in
 * it: the space before an arrow's `-` survives, the one after its `>` does not.
 */
module Spacing {
  import opened Text

  /** The characters of `[()!&|=->X<>=]`. */
  predicate InClass(c: char) {
    c == '(' || c == ')' || c == '!' || c == '&' || c == '|' || c == '=' || c == '>' || c == 'X' || c == '<'
  }

  /** The first rewrite succeeds at `i`: whitespace from `i` on, then a class character. */
  predicate ClassAt(s: seq<char>, i: nat)
    requires i <= |s|
  {
    SpaceEnd(s, i) < |s| && InClass(s[SpaceEnd(s, i)])
  }

  /** The first rewrite, scanning from `i`: each class character swallows the whitespace on both sides. */
  function Tighten(s: seq<char>, i: nat): seq<char>
    requires i <= |s|
    decreases |s| - i
  {
    if i == |s| then []
    else if ClassAt(s, i) then
      var e := SpaceEnd(s, i);
      [s[e]] + Tighten(s, SpaceEnd(s, e + 1))
    else [s[i]] + Tighten(s, i + 1)
  }

  /** The second rewrite, scanning from `i`: every whitespace run becomes one space. */
  function Collapse(s: seq<char>, i: nat): seq<char>
    requires i <= |s|
    decreases |s| - i
  {
    if i == |s| then []
    else if IsSpace(s[i]) then [' '] + Collapse(s, SpaceEnd(s, i))
    else [s[i]] + Collapse(s, i + 1)
  }

  function CleanUpSpacing(formula: seq<char>): seq<char> {
    Trim(Collapse(Tighten(formula, 0), 0))
  }

  /** No whitespace stands next to a class character. */
  predicate Tight(o: seq<char>) {
    forall k :: 0 <= k < |o| - 1 ==>
      !(IsSpace(o[k]) && InClass(o[k + 1])) && !(InClass(o[k]) && IsSpace(o[k + 1]))
  }

  /** Every whitespace character is a lone plain space. */
  predicate SingleSpaced(o: seq<char>) {
    forall k :: 0 <= k < |o| && IsSpace(o[k]) ==> o[k] == ' ' && (k + 1 < |o| ==> !IsSpace(o[k + 1]))
  }

  /** The normal form `cleanUpSpacing` produces. */
  predicate Clean(o: seq<char>) {
    Tight(o) && SingleSpaced(o) && (o == [] || (!IsSpace(o[0]) && !IsSpace(o[|o| - 1])))
  }

  lemma TightCons(c: char, t: seq<char>)
    requires Tight(t)
    requires t != [] ==> !(IsSpace(c) && InClass(t[0])) && !(InClass(c) && IsSpace(t[0]))
    ensures Tight([c] + t)
  {
    var o := [c] + t;
    forall k | 0 <= k < |o| - 1
      ensures !(IsSpace(o[k]) && InClass(o[k + 1])) && !(InClass(o[k]) && IsSpace(o[k + 1]))
    {
      if k > 0 {
        assert o[k] == t[k - 1] && o[k + 1] == t[k];
      }
    }
  }

  lemma SingleSpacedCons(c: char, t: seq<char>)
    requires SingleSpaced(t)
    requires IsSpace(c) ==> c == ' ' && (t != [] ==> !IsSpace(t[0]))
    ensures SingleSpaced([c] + t)
  {
    var o := [c] + t;
    forall k | 0 <= k < |o| && IsSpace(o[k])
      ensures o[k] == ' ' && (k + 1 < |o| ==> !IsSpace(o[k + 1]))
    {
      if k > 0 {
        assert o[k] == t[k - 1];
        if k + 1 < |o| {
          assert o[k + 1] == t[k];
        }
      }
    }
  }

  /** What the first rewrite puts first: the class character it found, or `s[i]` itself. */
  lemma TightenFirst(s: seq<char>, i: nat)
    requires i < |s|
    ensures Tighten(s, i) != []
    ensures Tighten(s, i)[0] == if ClassAt(s, i) then s[SpaceEnd(s, i)] else s[i]
  {
  }

  /** The first rewrite leaves no whitespace next to a class character. */
  lemma {:induction false} TightenTight(s: seq<char>, i: nat)
    requires i <= |s|
    ensures Tight(Tighten(s, i))
    decreases |s| - i
  {
    if i < |s| {
      if ClassAt(s, i) {
        var next := SpaceEnd(s, SpaceEnd(s, i) + 1);
        TightenTight(s, next);
        ClassStepTight(s, i);
      } else {
        TightenTight(s, i + 1);
        CharStepTight(s, i);
      }
    }
  }

  lemma ClassNotSpace(c: char)
    requires InClass(c)
    ensures !IsSpace(c)
  {
  }

  lemma TightenClass(s: seq<char>, i: nat)
    requires i < |s| && ClassAt(s, i)
    ensures Tighten(s, i) == [s[SpaceEnd(s, i)]] + Tighten(s, SpaceEnd(s, SpaceEnd(s, i) + 1))
  {
  }

  lemma TightenChar(s: seq<char>, i: nat)
    requires i < |s| && !ClassAt(s, i)
    ensures Tighten(s, i) == [s[i]] + Tighten(s, i + 1)
  {
  }

  /** Where no whitespace starts, the first rewrite puts no whitespace first. */
  lemma TightenHeadNotSpace(s: seq<char>, j: nat)
    requires j < |s| && !IsSpace(s[j])
    ensures Tighten(s, j) != [] && !IsSpace(Tighten(s, j)[0])
  {
    TightenFirst(s, j);
    SpaceEndIs(s, j, j);
    if ClassAt(s, j) {
      ClassNotSpace(s[j]);
    }
  }

  /** After whitespace that no class character follows, no class character comes first. */
  lemma TightenHeadNotClass(s: seq<char>, i: nat)
    requires i + 1 < |s| && IsSpace(s[i]) && !ClassAt(s, i)
    ensures Tighten(s, i + 1) != [] && !InClass(Tighten(s, i + 1)[0])
  {
    TightenFirst(s, i + 1);
    assert SpaceEnd(s, i) == SpaceEnd(s, i + 1);
    if !IsSpace(s[i + 1]) {
      SpaceEndIs(s, i + 1, i + 1);
    }
  }

  lemma ClassStepTight(s: seq<char>, i: nat)
    requires i < |s| && ClassAt(s, i)
    requires Tight(Tighten(s, SpaceEnd(s, SpaceEnd(s, i) + 1)))
    ensures Tight(Tighten(s, i))
  {
    var e := SpaceEnd(s, i);
    var next := SpaceEnd(s, e + 1);
    TightenClass(s, i);
    ClassNotSpace(s[e]);
    if next < |s| {
      TightenHeadNotSpace(s, next);
    }
    TightCons(s[e], Tighten(s, next));
  }

  lemma CharStepTight(s: seq<char>, i: nat)
    requires i < |s| && !ClassAt(s, i)
    requires Tight(Tighten(s, i + 1))
    ensures Tight(Tighten(s, i))
  {
    TightenChar(s, i);
    if InClass(s[i]) {
      ClassNotSpace(s[i]);
      SpaceEndIs(s, i, i);
    }
    if i + 1 < |s| && IsSpace(s[i]) {
      TightenHeadNotClass(s, i);
    }
    TightCons(s[i], Tighten(s, i + 1));
  }

  /** What the second rewrite puts first. */
  lemma CollapseFirst(s: seq<char>, i: nat)
    requires i < |s|
    ensures Collapse(s, i) != []
    ensures Collapse(s, i)[0] == if IsSpace(s[i]) then ' ' else s[i]
  {
  }

  /** On a tight string the second rewrite leaves it tight and single-spaced. */
  lemma {:induction false} CollapseShape(s: seq<char>, i: nat)
    requires i <= |s| && Tight(s)
    ensures Tight(Collapse(s, i)) && SingleSpaced(Collapse(s, i))
    decreases |s| - i
  {
    if i < |s| {
      if IsSpace(s[i]) {
        var e := SpaceEnd(s, i);
        CollapseShape(s, e);
        if e < |s| {
          CollapseFirst(s, e);
          assert IsSpace(s[e - 1]);
        }
        TightCons(' ', Collapse(s, e));
        SingleSpacedCons(' ', Collapse(s, e));
      } else {
        CollapseShape(s, i + 1);
        if i + 1 < |s| {
          CollapseFirst(s, i + 1);
        }
        TightCons(s[i], Collapse(s, i + 1));
        SingleSpacedCons(s[i], Collapse(s, i + 1));
      }
    }
  }

  /** A piece cut out of a tight, single-spaced string is tight and single-spaced. */
  lemma SliceShape(o: seq<char>, lo: nat, hi: nat)
    requires lo <= hi <= |o| && Tight(o) && SingleSpaced(o)
    ensures Tight(o[lo..hi]) && SingleSpaced(o[lo..hi])
  {
    var t := o[lo..hi];
    forall k | 0 <= k < |t| - 1
      ensures !(IsSpace(t[k]) && InClass(t[k + 1])) && !(InClass(t[k]) && IsSpace(t[k + 1]))
    {
      assert t[k] == o[lo + k] && t[k + 1] == o[lo + k + 1];
    }
    forall k | 0 <= k < |t| && IsSpace(t[k])
      ensures t[k] == ' ' && (k + 1 < |t| ==> !IsSpace(t[k + 1]))
    {
      assert t[k] == o[lo + k];
      if k + 1 < |t| {
        assert t[k + 1] == o[lo + k + 1];
      }
    }
  }

  /** The result is in normal form. */
  lemma CleanUpSpacingClean(formula: seq<char>)
    ensures Clean(CleanUpSpacing(formula))
  {
    var t := Tighten(formula, 0);
    TightenTight(formula, 0);
    var c := Collapse(t, 0);
    CollapseShape(t, 0);
    var p := SpacePrefix(c);
    var u := c[p..];
    SliceShape(c, p, |c|);
    SliceShape(u, 0, |u| - SpaceSuffix(u));
    TrimShape(c);
  }

  lemma SpaceBeforeClass(s: seq<char>, e: nat)
    requires Tight(s) && 0 < e < |s| && InClass(s[e])
    ensures !IsSpace(s[e - 1])
  {
  }

  /** In a tight string the first rewrite only matches at a class character with no whitespace after it. */
  lemma TightClassAt(s: seq<char>, i: nat)
    requires Tight(s) && i < |s| && ClassAt(s, i)
    ensures SpaceEnd(s, i) == i && SpaceEnd(s, i + 1) == i + 1
  {
    var e := SpaceEnd(s, i);
    if e > i {
      SpaceBeforeClass(s, e);
      assert false;
    }
    if i + 1 < |s| {
      assert !IsSpace(s[i + 1]);
    }
    SpaceEndIs(s, i + 1, i + 1);
  }

  /** On a tight string the first rewrite changes nothing. */
  lemma {:induction false} TightenTightIdentity(s: seq<char>, i: nat)
    requires i <= |s| && Tight(s)
    ensures Tighten(s, i) == s[i..]
    decreases |s| - i
  {
    if i < |s| {
      if ClassAt(s, i) {
        TightClassAt(s, i);
      }
      TightenTightIdentity(s, i + 1);
      assert s[i..] == [s[i]] + s[i + 1..];
    }
  }

  /** On a single-spaced string the second rewrite changes nothing. */
  lemma {:induction false} CollapseIdentity(s: seq<char>, i: nat)
    requires i <= |s| && SingleSpaced(s)
    ensures Collapse(s, i) == s[i..]
    decreases |s| - i
  {
    if i < |s| {
      if IsSpace(s[i]) {
        SpaceEndIs(s, i, i + 1);
      }
      CollapseIdentity(s, i + 1);
      assert s[i..] == [s[i]] + s[i + 1..];
    }
  }

  /** A formula already in normal form is left as it is. */
  lemma CleanFixed(formula: seq<char>)
    requires Clean(formula)
    ensures CleanUpSpacing(formula) == formula
  {
    TightenTightIdentity(formula, 0);
    CollapseIdentity(formula, 0);
    TrimNoop(formula);
  }

  /** Cleaning twice is cleaning once. */
  lemma CleanUpSpacingIdempotent(formula: seq<char>)
    ensures CleanUpSpacing(CleanUpSpacing(formula)) == CleanUpSpacing(formula)
  {
    CleanUpSpacingClean(formula);
    CleanFixed(CleanUpSpacing(formula));
  }

  /** Dropping a run of whitespace does not change the non-whitespace characters. */
  lemma {:induction false} SkipSpaces(s: seq<char>, i: nat, e: nat)
    requires i <= e <= |s| && forall x :: i <= x < e ==> IsSpace(s[x])
    ensures NonSpace(s[i..]) == NonSpace(s[e..])
    decreases e - i
  {
    if i < e {
      assert s[i..][1..] == s[i + 1..];
      SkipSpaces(s, i + 1, e);
    }
  }

  lemma {:induction false} TightenNonSpace(s: seq<char>, i: nat)
    requires i <= |s|
    ensures NonSpace(Tighten(s, i)) == NonSpace(s[i..])
    decreases |s| - i, 1
  {
    if i < |s| {
      if ClassAt(s, i) {
        ClassNonSpace(s, i);
      } else {
        TightenNonSpace(s, i + 1);
        PlainStepNonSpace(s, i);
      }
    }
  }

  /** `TightenNonSpace` from a class character: the rewrite there, then the rest of the scan. */
  lemma {:induction false} ClassNonSpace(s: seq<char>, i: nat)
    requires i < |s| && ClassAt(s, i)
    ensures NonSpace(Tighten(s, i)) == NonSpace(s[i..])
    decreases |s| - i, 0
  {
    TightenNonSpace(s, SpaceEnd(s, SpaceEnd(s, i) + 1));
    ClassStepNonSpace(s, i);
  }

  /** One step of `TightenNonSpace` at a character the rewrite leaves alone. */
  lemma PlainStepNonSpace(s: seq<char>, i: nat)
    requires i < |s| && !ClassAt(s, i) && NonSpace(Tighten(s, i + 1)) == NonSpace(s[i + 1..])
    ensures NonSpace(Tighten(s, i)) == NonSpace(s[i..])
  {
    ConsNonSpace(s, i, Tighten(s, i + 1));
  }

  /** Putting `s[i]` in front of a piece with the non-whitespace of `s[i + 1..]`. */
  lemma ConsNonSpace(s: seq<char>, i: nat, rest: seq<char>)
    requires i < |s| && NonSpace(rest) == NonSpace(s[i + 1..])
    ensures NonSpace([s[i]] + rest) == NonSpace(s[i..])
  {
    NonSpaceCons(s[i], rest);
    SliceCons(s, i);
    NonSpaceCons(s[i], s[i + 1..]);
  }

  lemma NonSpaceCons(c: char, t: seq<char>)
    ensures NonSpace([c] + t) == (if IsSpace(c) then [] else [c]) + NonSpace(t)
  {
    assert ([c] + t)[1..] == t;
  }

  lemma SliceCons(s: seq<char>, i: nat)
    requires i < |s|
    ensures s[i..] == [s[i]] + s[i + 1..]
  {
  }

  /** One class-character step of `TightenNonSpace`. */
  lemma ClassStepNonSpace(s: seq<char>, i: nat)
    requires i < |s| && ClassAt(s, i)
    requires var next := SpaceEnd(s, SpaceEnd(s, i) + 1); NonSpace(Tighten(s, next)) == NonSpace(s[next..])
    ensures NonSpace(Tighten(s, i)) == NonSpace(s[i..])
  {
    ClassTightenNonSpace(s, i);
    ClassSliceNonSpace(s, i);
  }

  /** The rewrite at a class character keeps that character and drops the blanks around it. */
  lemma ClassTightenNonSpace(s: seq<char>, i: nat)
    requires i < |s| && ClassAt(s, i)
    ensures var e := SpaceEnd(s, i);
            e < |s| &&
            NonSpace(Tighten(s, i)) == [s[e]] + NonSpace(Tighten(s, SpaceEnd(s, e + 1)))
  {
    var e := SpaceEnd(s, i);
    TightenClass(s, i);
    ClassNotSpace(s[e]);
    NonSpaceCons(s[e], Tighten(s, SpaceEnd(s, e + 1)));
  }

  /** From a class step's start, the non-blank characters are the class character and what follows its blanks. */
  lemma ClassSliceNonSpace(s: seq<char>, i: nat)
    requires i < |s| && ClassAt(s, i)
    ensures var e := SpaceEnd(s, i);
            e < |s| && NonSpace(s[i..]) == [s[e]] + NonSpace(s[SpaceEnd(s, e + 1)..])
  {
    var e := SpaceEnd(s, i);
    var next := SpaceEnd(s, e + 1);
    var c := s[e];
    ClassNotSpace(c);
    SkipSpaces(s, e + 1, next);
    SliceCons(s, e);
    NonSpaceCons(c, s[e + 1..]);
    SkipSpaces(s, i, e);
  }

  lemma {:induction false} CollapseNonSpace(s: seq<char>, i: nat)
    requires i <= |s|
    ensures NonSpace(Collapse(s, i)) == NonSpace(s[i..])
    decreases |s| - i
  {
    if i < |s| {
      if IsSpace(s[i]) {
        var e := SpaceEnd(s, i);
        CollapseNonSpace(s, e);
        SkipSpaces(s, i, e);
        assert ([' '] + Collapse(s, e))[1..] == Collapse(s, e);
      } else {
        CollapseNonSpace(s, i + 1);
        ConsNonSpace(s, i, Collapse(s, i + 1));
      }
    }
  }

  /** Only whitespace is touched: the other characters stay, in order. */
  lemma CleanUpSpacingNonSpace(formula: seq<char>)
    ensures NonSpace(CleanUpSpacing(formula)) == NonSpace(formula)
  {
    TightenNonSpace(formula, 0);
    CollapseNonSpace(Tighten(formula, 0), 0);
    TrimNonSpace(Collapse(Tighten(formula, 0), 0));
    assert formula[0..] == formula;
    assert Tighten(formula, 0)[0..] == Tighten(formula, 0);
  }

  /** The parentheses are kept, so their balance is too. */
  lemma CleanUpSpacingParens(formula: seq<char>)
    ensures Parens(CleanUpSpacing(formula)) == Parens(formula)
    ensures Excess(CleanUpSpacing(formula)) == Excess(formula)
  {
    CleanUpSpacingNonSpace(formula);
    ParensNonSpace(formula);
    ParensNonSpace(CleanUpSpacing(formula));
    SameParensSameCounts(formula, CleanUpSpacing(formula));
  }

  lemma {:induction false} ParensNonSpace(s: seq<char>)
    ensures Parens(NonSpace(s)) == Parens(s)
  {
    if s != [] {
      ParensNonSpace(s[1..]);
      var h := if IsSpace(s[0]) then [] else [s[0]];
      ParensAppend(h, NonSpace(s[1..]));
      assert s == [s[0]] + s[1..];
      ParensAppend([s[0]], s[1..]);
      if IsSpace(s[0]) {
        ParensFree([s[0]]);
      }
    }
  }

  /**
   * Whitespace between two characters outside the class is collapsed to one
   * space and nothing else happens there: the two sides are cleaned on their
   * own. Either side may end or start with `-`, which is not in the class.
   */
  lemma CleanUpSpacingSeparator(a: seq<char>, w: seq<char>, b: seq<char>)
    requires a != [] && w != [] && b != [] && AllSpace(w)
    requires !IsSpace(a[|a| - 1]) && !InClass(a[|a| - 1]) && !IsSpace(b[0]) && !InClass(b[0])
    ensures CleanUpSpacing(a + w + b) == CleanUpSpacing(a) + " " + CleanUpSpacing(b)
  {
    var ta, tb := Tighten(a, 0), Tighten(b, 0);
    TightenSeparator(a, w, b);
    TightenLast(a, 0);
    SpaceEndIs(b, 0, 0);
    TightenFirst(b, 0);
    CollapseSeparator(ta, w, tb);
    CollapseLast(ta, 0);
    CollapseFirst(tb, 0);
    TrimJoin(Collapse(ta, 0), Collapse(tb, 0));
  }

  /** The first rewrite leaves whitespace between two characters outside the class as it is. */
  lemma TightenSeparator(a: seq<char>, w: seq<char>, b: seq<char>)
    requires a != [] && w != [] && b != [] && AllSpace(w)
    requires !IsSpace(a[|a| - 1]) && !InClass(a[|a| - 1]) && !IsSpace(b[0]) && !InClass(b[0])
    ensures Tighten(a + w + b, 0) == Tighten(a, 0) + w + Tighten(b, 0)
  {
    var s := a + w + b;
    var k := |a| + |w|;
    assert s == a + (w + b);
    TightenSplit(s, a, w + b, 0);
    TightenGap(s, |a|, k, w);
    assert s[k..] == b;
    TightenShift(s, k, b, 0, k);
    SameJoin(Tighten(s, 0), Tighten(a, 0), Tighten(s, |a|), w, Tighten(s, k), Tighten(b, 0));
  }

  /** The second rewrite turns whitespace between two non-blanks into one space. */
  lemma CollapseSeparator(x: seq<char>, w: seq<char>, y: seq<char>)
    requires x != [] && w != [] && y != [] && AllSpace(w)
    requires !IsSpace(x[|x| - 1]) && !IsSpace(y[0])
    ensures Collapse(x + w + y, 0) == Collapse(x, 0) + " " + Collapse(y, 0)
  {
    var s := x + w + y;
    var k := |x| + |w|;
    assert s == x + (w + y);
    CollapseSplit(s, x, w + y, 0);
    SpaceEndIs(s, |x|, k);
    CollapseRun(s, |x|, k);
    assert s[k..] == y;
    CollapseShift(s, k, y, 0, k);
    SameJoin(Collapse(s, 0), Collapse(x, 0), Collapse(s, |x|), " ", Collapse(s, k), Collapse(y, 0));
  }

  /** `u` is `v` followed by `m` and by what `z` equals. */
  lemma SameJoin(u: seq<char>, v: seq<char>, t: seq<char>, m: seq<char>, r: seq<char>, z: seq<char>)
    requires u == v + t && t == m + r && r == z
    ensures u == v + m + z
  {
  }

  /** Two strings with the same head and equal tails are equal. */
  lemma SameTail(u: seq<char>, v: seq<char>, h: seq<char>, t: seq<char>, r: seq<char>)
    requires u == h + t && v == h + r && t == r
    ensures u == v
  {
  }

  /** `u` is `h` then `t`, and `t` continues `r` with `z`, so `u` continues `h + r` with `z`. */
  lemma SameSplit(u: seq<char>, v: seq<char>, h: seq<char>, t: seq<char>, r: seq<char>, z: seq<char>)
    requires u == h + t && v == h + r && t == r + z
    ensures u == v + z
  {
  }

  /** A whitespace run that starts inside `x` ends inside `x` when `x` ends with a non-blank. */
  lemma SpaceEndPrefix(s: seq<char>, x: seq<char>, y: seq<char>, i: nat)
    requires s == x + y && i < |x| && !IsSpace(x[|x| - 1])
    ensures SpaceEnd(x, i) < |x| && SpaceEnd(s, i) == SpaceEnd(x, i)
  {
    SpaceEndIs(s, i, SpaceEnd(x, i));
  }

  /** A whitespace run inside the suffix `y` of `s` from `n`, at the position `k` it has in `s`. */
  lemma SpaceEndShift(s: seq<char>, n: nat, y: seq<char>, i: nat, k: nat)
    requires n <= |s| && s[n..] == y && i <= |y| && k == n + i
    ensures SpaceEnd(s, k) == n + SpaceEnd(y, i)
  {
    SpaceEndIs(s, k, n + SpaceEnd(y, i));
  }

  /** What one step of the first rewrite from `i` emits. */
  function Emit(s: seq<char>, i: nat): seq<char>
    requires i < |s|
  {
    if ClassAt(s, i) then [s[SpaceEnd(s, i)]] else [s[i]]
  }

  /** Where the first rewrite resumes after one step from `i`. */
  function Resume(s: seq<char>, i: nat): nat
    requires i < |s|
  {
    if ClassAt(s, i) then SpaceEnd(s, SpaceEnd(s, i) + 1) else i + 1
  }

  /** The first rewrite is one step followed by the rest of the scan. */
  lemma TightenStep(s: seq<char>, i: nat)
    requires i < |s|
    ensures i < Resume(s, i) <= |s| && Tighten(s, i) == Emit(s, i) + Tighten(s, Resume(s, i))
  {
  }

  /** One match of the first rewrite, with the positions named. */
  lemma TightenClassAt(s: seq<char>, i: nat, e: nat, n: nat)
    requires i <= e < |s| && e == SpaceEnd(s, i) && InClass(s[e]) && n == SpaceEnd(s, e + 1)
    ensures Tighten(s, i) == [s[e]] + Tighten(s, n)
  {
  }

  /** The first rewrite does not reach across the end of `x` when `x` ends with a non-blank outside the class. */
  lemma {:induction false} TightenSplit(s: seq<char>, x: seq<char>, y: seq<char>, i: nat)
    requires s == x + y && i <= |x| && x != [] && !IsSpace(x[|x| - 1]) && !InClass(x[|x| - 1])
    ensures Tighten(s, i) == Tighten(x, i) + Tighten(s, |x|)
    decreases |x| - i
  {
    if i == |x| {
      assert Tighten(x, i) == [];
    } else {
      var j := Resume(x, i);
      TightenStep(x, i);
      StepPrefix(s, x, y, i);
      TightenSplit(s, x, y, j);
      SameSplit(Tighten(s, i), Tighten(x, i), Emit(x, i), Tighten(s, j), Tighten(x, j), Tighten(s, |x|));
    }
  }

  /** One step of the first rewrite inside `x` is the same step inside `s`. */
  lemma StepPrefix(s: seq<char>, x: seq<char>, y: seq<char>, i: nat)
    requires s == x + y && i < |x| && !IsSpace(x[|x| - 1]) && !InClass(x[|x| - 1])
    ensures i < Resume(x, i) <= |x| && Tighten(s, i) == Emit(x, i) + Tighten(s, Resume(x, i))
  {
    SpaceEndPrefix(s, x, y, i);
    if ClassAt(x, i) {
      var e := SpaceEnd(x, i);
      SpaceEndPrefix(s, x, y, e + 1);
      TightenClassAt(s, i, e, Resume(x, i));
    } else {
      TightenChar(s, i);
    }
  }

  /** The first rewrite on the suffix `y` of `s` from `n` does not depend on what precedes it; `k` is `i` seen in `s`. */
  lemma {:induction false} TightenShift(s: seq<char>, n: nat, y: seq<char>, i: nat, k: nat)
    requires n <= |s| && s[n..] == y && i <= |y| && k == n + i
    ensures Tighten(s, k) == Tighten(y, i)
    decreases |y| - i
  {
    if i < |y| {
      var j := Resume(y, i);
      TightenStep(y, i);
      TightenShift(s, n, y, j, n + j);
      ShiftOnce(s, n, y, i, k, j);
    }
  }

  /** One step in front of the part of the scan where `s` and its suffix `y` agree. */
  lemma ShiftOnce(s: seq<char>, n: nat, y: seq<char>, i: nat, k: nat, j: nat)
    requires n <= |s| && s[n..] == y && i < |y| && k == n + i && j == Resume(y, i)
    requires Tighten(s, n + j) == Tighten(y, j)
    ensures Tighten(s, k) == Tighten(y, i)
  {
    TightenStep(y, i);
    StepShift(s, n, y, i, k, n + j);
    SameTail(Tighten(s, k), Tighten(y, i), Emit(y, i), Tighten(s, n + j), Tighten(y, j));
  }

  /** One step of the first rewrite inside the suffix `y` is the same step inside `s`, moved by `n`. */
  lemma StepShift(s: seq<char>, n: nat, y: seq<char>, i: nat, i': nat, j': nat)
    requires n <= |s| && s[n..] == y && i < |y| && i' == n + i && j' == n + Resume(y, i)
    ensures Tighten(s, i') == Emit(y, i) + Tighten(s, j')
  {
    if ClassAt(y, i) {
      StepShiftClass(s, n, y, i, SpaceEnd(y, i), i', j');
    } else {
      StepShiftChar(s, n, y, i, i', j');
    }
  }

  lemma StepShiftClass(s: seq<char>, n: nat, y: seq<char>, i: nat, e: nat, i': nat, j': nat)
    requires n <= |s| && s[n..] == y && i < |y| && ClassAt(y, i) && e == SpaceEnd(y, i)
    requires i' == n + i && j' == n + Resume(y, i)
    ensures Tighten(s, i') == Emit(y, i) + Tighten(s, j')
  {
    SpaceEndShift(s, n, y, i, i');
    SpaceEndShift(s, n, y, e + 1, n + e + 1);
    ShiftIndex(s, n, y, e);
    TightenClassAt(s, i', n + e, j');
    SameHead(Tighten(s, i'), s[n + e], y[e], Emit(y, i), Tighten(s, j'));
  }

  lemma StepShiftChar(s: seq<char>, n: nat, y: seq<char>, i: nat, i': nat, j': nat)
    requires n <= |s| && s[n..] == y && i < |y| && !ClassAt(y, i)
    requires i' == n + i && j' == n + Resume(y, i)
    ensures Tighten(s, i') == Emit(y, i) + Tighten(s, j')
  {
    SpaceEndShift(s, n, y, i, i');
    if SpaceEnd(y, i) < |y| {
      ShiftIndex(s, n, y, SpaceEnd(y, i));
    }
    ShiftIndex(s, n, y, i);
    TightenCharAt(s, i', y[i], j');
    SameHead(Tighten(s, i'), y[i], y[i], Emit(y, i), Tighten(s, j'));
  }

  /** The suffix of `s` from `n` read at `x`. */
  lemma ShiftIndex(s: seq<char>, n: nat, y: seq<char>, x: nat)
    requires n <= |s| && s[n..] == y && x < |y|
    ensures n + x < |s| && s[n + x] == y[x]
  {
  }

  /** A character outside a match is copied and the scan goes on at `m`. */
  lemma TightenCharAt(s: seq<char>, i: nat, c: char, m: nat)
    requires i < |s| && !ClassAt(s, i) && c == s[i] && m == i + 1
    ensures Tighten(s, i) == [c] + Tighten(s, m)
  {
  }

  /** `u` starts with `c`, which is `d`, and `h` is just `d`. */
  lemma SameHead(u: seq<char>, c: char, d: char, h: seq<char>, t: seq<char>)
    requires u == [c] + t && c == d && h == [d]
    ensures u == h + t
  {
  }

  /** Whitespace `g` followed by a non-blank outside the class is copied as it is. */
  lemma {:induction false} TightenGap(s: seq<char>, lo: nat, hi: nat, g: seq<char>)
    requires lo <= hi < |s| && g == s[lo..hi] && (forall x :: lo <= x < hi ==> IsSpace(s[x]))
    requires !IsSpace(s[hi]) && !InClass(s[hi])
    ensures Tighten(s, lo) == g + Tighten(s, hi)
    decreases hi - lo
  {
    if lo < hi {
      SpaceEndIs(s, lo, hi);
      TightenGap(s, lo + 1, hi, s[lo + 1..hi]);
      TightenChar(s, lo);
      ConsSlice(s, lo, hi, Tighten(s, hi));
    }
  }

  lemma ConsSlice(s: seq<char>, lo: nat, hi: nat, t: seq<char>)
    requires lo < hi <= |s|
    ensures [s[lo]] + (s[lo + 1..hi] + t) == s[lo..hi] + t
  {
    assert s[lo..hi] == [s[lo]] + s[lo + 1..hi];
  }

  /** A last character that is neither blank nor in the class is the last character the first rewrite emits. */
  lemma {:induction false} TightenLast(x: seq<char>, i: nat)
    requires i < |x| && !IsSpace(x[|x| - 1]) && !InClass(x[|x| - 1])
    ensures Tighten(x, i) != [] && Tighten(x, i)[|Tighten(x, i)| - 1] == x[|x| - 1]
    decreases |x| - i
  {
    var j := Resume(x, i);
    TightenStep(x, i);
    if j < |x| {
      TightenLast(x, j);
      LastOfJoin(Tighten(x, i), Emit(x, i), Tighten(x, j));
    } else {
      LastStep(x, i);
      LastOfSingle(Tighten(x, i), Emit(x, i), Tighten(x, j), x[|x| - 1]);
    }
  }

  /** A step of the first rewrite that reaches the end copies the last character. */
  lemma LastStep(x: seq<char>, i: nat)
    requires i < |x| && !IsSpace(x[|x| - 1]) && !InClass(x[|x| - 1]) && Resume(x, i) == |x|
    ensures Emit(x, i) == [x[|x| - 1]]
  {
  }

  /** The last character of `h + t` is that of a non-empty `t`. */
  lemma LastOfJoin(u: seq<char>, h: seq<char>, t: seq<char>)
    requires u == h + t && t != []
    ensures u != [] && u[|u| - 1] == t[|t| - 1]
  {
  }

  /** The last character of `[c] + []` is `c`. */
  lemma LastOfSingle(u: seq<char>, h: seq<char>, t: seq<char>, c: char)
    requires u == h + t && h == [c] && t == []
    ensures u != [] && u[|u| - 1] == c
  {
  }

  /** The second rewrite does not reach across the end of `x` when `x` ends with a non-blank. */
  lemma {:induction false} CollapseSplit(s: seq<char>, x: seq<char>, y: seq<char>, i: nat)
    requires s == x + y && i <= |x| && x != [] && !IsSpace(x[|x| - 1])
    ensures Collapse(s, i) == Collapse(x, i) + Collapse(s, |x|)
    decreases |x| - i
  {
    if i == |x| {
      assert Collapse(x, i) == [];
    } else if IsSpace(x[i]) {
      SpaceEndPrefix(s, x, y, i);
      CollapseSplit(s, x, y, SpaceEnd(x, i));
    } else {
      CollapseSplit(s, x, y, i + 1);
    }
  }

  /** A whitespace run from `i` to `e` becomes one space. */
  lemma CollapseRun(s: seq<char>, i: nat, e: nat)
    requires i < |s| && IsSpace(s[i]) && e == SpaceEnd(s, i)
    ensures Collapse(s, i) == " " + Collapse(s, e)
  {
  }

  /** A non-blank `c` at `i` is copied and the scan goes on at `n`. */
  lemma CollapseCharAt(s: seq<char>, i: nat, c: char, n: nat)
    requires i < |s| && c == s[i] && !IsSpace(c) && n == i + 1
    ensures Collapse(s, i) == [c] + Collapse(s, n)
  {
  }

  /** The second rewrite on the suffix `y` of `s` from `n` does not depend on what precedes it; `k` is `i` seen in `s`. */
  lemma {:induction false} CollapseShift(s: seq<char>, n: nat, y: seq<char>, i: nat, k: nat)
    requires n <= |s| && s[n..] == y && i <= |y| && k == n + i
    ensures Collapse(s, k) == Collapse(y, i)
    decreases |y| - i
  {
    if i < |y| {
      if IsSpace(y[i]) {
        var e := SpaceEnd(y, i);
        SpaceEndShift(s, n, y, i, k);
        CollapseRun(s, k, n + e);
        CollapseRun(y, i, e);
        CollapseShift(s, n, y, e, n + e);
        SameTail(Collapse(s, k), Collapse(y, i), " ", Collapse(s, n + e), Collapse(y, e));
      } else {
        CollapseCharAt(s, k, y[i], k + 1);
        CollapseCharAt(y, i, y[i], i + 1);
        CollapseShift(s, n, y, i + 1, k + 1);
        SameTail(Collapse(s, k), Collapse(y, i), [y[i]], Collapse(s, k + 1), Collapse(y, i + 1));
      }
    }
  }

  /** A non-blank last character is the last character the second rewrite emits. */
  lemma {:induction false} CollapseLast(x: seq<char>, i: nat)
    requires i < |x| && !IsSpace(x[|x| - 1])
    ensures Collapse(x, i) != [] && Collapse(x, i)[|Collapse(x, i)| - 1] == x[|x| - 1]
    decreases |x| - i
  {
    if IsSpace(x[i]) {
      SpaceEndPrefix(x, x, [], i);
      CollapseLast(x, SpaceEnd(x, i));
    } else if i + 1 < |x| {
      CollapseLast(x, i + 1);
    }
  }

  /** An arrow keeps the space before its `-` and loses the one after its `>`. */
  lemma ArrowSpacing()
    ensures CleanUpSpacing("a -> b") == "a ->b"
  {
    ArrowTighten();
    ArrowCollapse();
    TrimNoop("a ->b");
  }

  lemma ArrowTighten()
    ensures Tighten("a -> b", 0) == "a ->b"
  {
    var s := "a -> b";
    SpaceEndIs(s, 5, 5);
    SpaceEndIs(s, 6, 6);
    assert !ClassAt(s, 5);
    assert Tighten(s, 5) == "b";
    SpaceEndIs(s, 3, 3);
    SpaceEndIs(s, 4, 5);
    assert ClassAt(s, 3);
    assert Tighten(s, 3) == ">b";
    SpaceEndIs(s, 2, 2);
    assert !ClassAt(s, 2);
    assert Tighten(s, 2) == "->b";
    SpaceEndIs(s, 1, 2);
    assert !ClassAt(s, 1);
    assert Tighten(s, 1) == " ->b";
    SpaceEndIs(s, 0, 0);
    assert !ClassAt(s, 0);
    assert Tighten(s, 0) == "a ->b";
  }

  lemma ArrowCollapse()
    ensures Collapse("a ->b", 0) == "a ->b"
  {
    var t := "a ->b";
    assert Collapse(t, 2) == "->b";
    SpaceEndIs(t, 1, 2);
    assert Collapse(t, 1) == " ->b";
  }
}
