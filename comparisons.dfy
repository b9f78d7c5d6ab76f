/**
 * `replaceComparisonExpressions` of beta3: every match of
 * `\([^()]*\s*(?<!-)(?:>|<|>=|<=)\s*[^()]*\)`, left to right, becomes a
 * placeholder `p0`, `p1`, ... and the placeholder is mapped to the exact text
 * it replaced. A match is a `(` whose next parenthesis is a `)`, with a `<` or
 * `>` between them that is not preceded by `-`.
 */
module Comparisons {
  import opened Text
  import Standardize

  /** Position of the first parenthesis at or after `k`, or `|s|`. */
  function NextParen(s: seq<char>, k: nat): (j: nat)
    requires k <= |s|
    ensures k <= j <= |s| && (forall x :: k <= x < j ==> s[x] !in "()") && (j < |s| ==> s[j] in "()")
    decreases |s| - k
  {
    if k == |s| || s[k] in "()" then k else NextParen(s, k + 1)
  }

  /** A `<` or `>` at `k` that the lookbehind `(?<!-)` accepts. */
  predicate Unguarded(s: seq<char>, k: nat) {
    0 < k < |s| && s[k] in "<>" && s[k - 1] != '-'
  }

  /** Where the match that starts at `i` ends (at its `)`), if there is one. */
  function GroupAt(s: seq<char>, i: nat): (m: Option<nat>)
    requires i < |s|
    ensures m.Some? ==> i < m.value < |s|
  {
    if s[i] != '(' then None
    else
      var j := NextParen(s, i + 1);
      if j < |s| && s[j] == ')' && exists k :: i < k < j && Unguarded(s, k) then Some(j) else None
  }

  /** The formula cut into kept characters and replaced groups. */
  datatype Piece = Char(c: char) | Group(text: seq<char>)

  function Scan(s: seq<char>, i: nat): seq<Piece>
    requires i <= |s|
    decreases |s| - i
  {
    if i == |s| then []
    else match GroupAt(s, i)
      case Some(j) => [Group(s[i..j + 1])] + Scan(s, j + 1)
      case None => [Char(s[i])] + Scan(s, i + 1)
  }

  function Init(ps: seq<Piece>): seq<Piece>
    requires ps != []
  {
    ps[..|ps| - 1]
  }

  function NumGroups(ps: seq<Piece>): nat {
    if ps == [] then 0 else NumGroups(Init(ps)) + (if ps[|ps| - 1].Group? then 1 else 0)
  }

  /** The texts of the groups, left to right. */
  function GroupTexts(ps: seq<Piece>): (g: seq<seq<char>>)
    ensures |g| == NumGroups(ps)
  {
    if ps == [] then []
    else GroupTexts(Init(ps)) + (match ps[|ps| - 1] case Group(t) => [t] case Char(_) => [])
  }

  /** The text one piece was cut from. */
  function PieceText(p: Piece): seq<char> {
    match p
    case Group(t) => t
    case Char(c) => [c]
  }

  /** The text the pieces were cut from. */
  function Original(ps: seq<Piece>): seq<char> {
    if ps == [] then []
    else Original(Init(ps)) + PieceText(ps[|ps| - 1])
  }

  /** The replaced formula: the `n`-th group becomes `p<n>`. */
  function Render(ps: seq<Piece>): seq<char> {
    if ps == [] then []
    else Render(Init(ps)) + (match ps[|ps| - 1] case Group(_) => Standardize.Name(NumGroups(Init(ps))) case Char(c) => [c])
  }

  /** `comparisonMap`: `p<n>` to the text of the `n`-th group. */
  function Placeholders(ps: seq<Piece>): Standardize.Names {
    if ps == [] then map[]
    else
      var m := Placeholders(Init(ps));
      match ps[|ps| - 1]
      case Group(t) => m[Standardize.Name(NumGroups(Init(ps))) := t]
      case Char(_) => m
  }

  method ReplaceComparisonExpressions(formula: seq<char>) returns (r: seq<char>, comparisonMap: Standardize.Names)
    ensures r == Render(Scan(formula, 0))
    ensures comparisonMap == Placeholders(Scan(formula, 0))
  {
    var i := 0;
    var count := 0;
    r, comparisonMap := [], map[];
    ghost var done: seq<Piece> := [];
    Start(formula);
    while i < |formula|
      invariant i <= |formula|
      invariant ScannedTo(formula, i, done)
      invariant Emitted(done, r, comparisonMap, count)
      decreases |formula| - i
    {
      var g := GroupAt(formula, i);
      if g.Some? {
        var j := g.value;
        var text := formula[i..j + 1];
        var varName := Standardize.Name(count);
        GroupStep(formula, i, j, done);
        GroupEmit(done, text, r, comparisonMap, count);
        count := count + 1;
        comparisonMap := comparisonMap[varName := text];
        r := r + varName;
        done := done + [Group(text)];
        i := j + 1;
      } else {
        CharStep(formula, i, done);
        CharEmit(done, formula[i], r, comparisonMap, count);
        r := r + [formula[i]];
        done := done + [Char(formula[i])];
        i := i + 1;
      }
    }
    Finish(formula, done, r, comparisonMap, count);
  }

  lemma Start(s: seq<char>)
    ensures ScannedTo(s, 0, []) && Emitted([], [], map[], 0)
  {
    assert [] + Scan(s, 0) == Scan(s, 0);
  }

  lemma Finish(s: seq<char>, done: seq<Piece>, r: seq<char>, m: Standardize.Names, count: nat)
    requires ScannedTo(s, |s|, done) && Emitted(done, r, m, count)
    ensures r == Render(Scan(s, 0)) && m == Placeholders(Scan(s, 0))
  {
    assert done + [] == done;
  }

  /** `r`, `m` and `count` are what the pieces `done` have produced. */
  predicate Emitted(done: seq<Piece>, r: seq<char>, m: Standardize.Names, count: nat) {
    r == Render(done) && m == Placeholders(done) && count == NumGroups(done)
  }

  lemma GroupEmit(done: seq<Piece>, t: seq<char>, r: seq<char>, m: Standardize.Names, count: nat)
    requires Emitted(done, r, m, count)
    ensures Emitted(done + [Group(t)], r + Standardize.Name(count), m[Standardize.Name(count) := t], count + 1)
  {
    Snoc(done, Group(t));
  }

  lemma CharEmit(done: seq<Piece>, c: char, r: seq<char>, m: Standardize.Names, count: nat)
    requires Emitted(done, r, m, count)
    ensures Emitted(done + [Char(c)], r + [c], m, count)
  {
    Snoc(done, Char(c));
  }

  /** The pieces `done` are the scan of the formula up to `i`. */
  predicate ScannedTo(s: seq<char>, i: nat, done: seq<Piece>)
    requires i <= |s|
  {
    Scan(s, 0) == done + Scan(s, i)
  }

  /** A replaced group at `i`: the scan goes on after its `)`. */
  lemma GroupStep(s: seq<char>, i: nat, j: nat, done: seq<Piece>)
    requires i < |s| && GroupAt(s, i) == Some(j) && ScannedTo(s, i, done)
    ensures ScannedTo(s, j + 1, done + [Group(s[i..j + 1])])
  {
    ScanAtGroup(s, i);
    Regroup(done, [Group(s[i..j + 1])], Scan(s, j + 1));
  }

  lemma ScanAtGroup(s: seq<char>, i: nat)
    requires i < |s| && GroupAt(s, i).Some?
    ensures Scan(s, i) == [Group(s[i..GroupAt(s, i).value + 1])] + Scan(s, GroupAt(s, i).value + 1)
  {
  }

  /** A kept character at `i`. */
  lemma CharStep(s: seq<char>, i: nat, done: seq<Piece>)
    requires i < |s| && GroupAt(s, i).None? && ScannedTo(s, i, done)
    ensures ScannedTo(s, i + 1, done + [Char(s[i])])
  {
    ScanAtChar(s, i);
    Regroup(done, [Char(s[i])], Scan(s, i + 1));
  }

  lemma Regroup(a: seq<Piece>, b: seq<Piece>, c: seq<Piece>)
    ensures a + (b + c) == (a + b) + c
  {
  }

  /** Appending one piece extends the output and the map by that piece alone. */
  lemma Snoc(ps: seq<Piece>, p: Piece)
    ensures NumGroups(ps + [p]) == NumGroups(ps) + (if p.Group? then 1 else 0)
    ensures Render(ps + [p]) == Render(ps) + (match p case Group(_) => Standardize.Name(NumGroups(ps)) case Char(c) => [c])
    ensures Placeholders(ps + [p]) == (match p case Group(t) => Placeholders(ps)[Standardize.Name(NumGroups(ps)) := t] case Char(_) => Placeholders(ps))
  {
    assert Init(ps + [p]) == ps;
  }

  /** The `n`-th group's placeholder maps to its text. */
  lemma {:induction false} PlaceholdersAt(ps: seq<Piece>)
    ensures forall n :: 0 <= n < NumGroups(ps) ==>
      Standardize.Name(n) in Placeholders(ps) && Placeholders(ps)[Standardize.Name(n)] == GroupTexts(ps)[n]
  {
    if ps != [] {
      var init := Init(ps);
      PlaceholdersAt(init);
      forall n | 0 <= n < NumGroups(ps)
        ensures Standardize.Name(n) in Placeholders(ps) && Placeholders(ps)[Standardize.Name(n)] == GroupTexts(ps)[n]
      {
        if n < NumGroups(init) && ps[|ps| - 1].Group? {
          if Standardize.Name(n) == Standardize.Name(NumGroups(init)) {
            Standardize.NameInjective(n, NumGroups(init));
          }
        }
      }
    }
  }

  /** The placeholder map has no key other than `p0` ... `p<n-1>`. */
  lemma {:induction false} PlaceholderKeys(ps: seq<Piece>, key: seq<char>)
    requires key in Placeholders(ps)
    ensures exists n :: 0 <= n < NumGroups(ps) && key == Standardize.Name(n)
  {
    var init := Init(ps);
    if key in Placeholders(init) {
      PlaceholderKeys(init, key);
    }
  }

  /** A replaced group: `(`, no parenthesis inside, a comparison operator, `)`. */
  predicate ComparisonGroup(t: seq<char>) {
    |t| >= 2 && t[0] == '(' && t[|t| - 1] == ')'
    && (forall x :: 0 < x < |t| - 1 ==> t[x] !in "()")
    && exists k :: 0 < k < |t| - 1 && t[k] in "<>" && t[k - 1] != '-'
  }

  lemma GroupShape(s: seq<char>, i: nat)
    requires i < |s| && GroupAt(s, i).Some?
    ensures ComparisonGroup(s[i..GroupAt(s, i).value + 1])
  {
    var j := GroupAt(s, i).value;
    var t := s[i..j + 1];
    var k :| i < k < j && Unguarded(s, k);
    assert t[k - i] == s[k] && t[k - i - 1] == s[k - 1];
    forall x | 0 < x < |t| - 1
      ensures t[x] !in "()"
    {
      assert t[x] == s[i + x];
    }
  }

  /** Conversely, a comparison group in the formula is the match that starts at its `(`. */
  lemma GroupAtComplete(s: seq<char>, i: nat, j: nat)
    requires i < j < |s| && ComparisonGroup(s[i..j + 1])
    ensures GroupAt(s, i) == Some(j)
  {
    var t := s[i..j + 1];
    assert s[i] == t[0] && s[j] == t[|t| - 1];
    forall x | i + 1 <= x < j
      ensures s[x] !in "()"
    {
      assert s[x] == t[x - i];
    }
    NextParenIs(s, i + 1, j);
    var k :| 0 < k < |t| - 1 && t[k] in "<>" && t[k - 1] != '-';
    assert s[i + k] == t[k] && s[i + k - 1] == t[k - 1];
    assert Unguarded(s, i + k);
  }

  /** The first parenthesis from `k` is the one at `j` when none comes before it. */
  lemma {:induction false} NextParenIs(s: seq<char>, k: nat, j: nat)
    requires k <= j < |s| && s[j] in "()" && forall x :: k <= x < j ==> s[x] !in "()"
    ensures NextParen(s, k) == j
    decreases j - k
  {
    if k < j {
      NextParenIs(s, k + 1, j);
    }
  }

  /** Every replaced text is a comparison group. */
  lemma {:induction false} ScanGroups(s: seq<char>, i: nat)
    requires i <= |s|
    ensures forall p :: p in Scan(s, i) && p.Group? ==> ComparisonGroup(p.text)
    decreases |s| - i
  {
    if i < |s| {
      match GroupAt(s, i)
      case Some(j) =>
        ScanGroups(s, j + 1);
        GroupShape(s, i);
      case None =>
        ScanGroups(s, i + 1);
    }
  }

  /**
   * Every match is replaced where it stands: the scan never jumps over a `(`,
   * since a group holds no parenthesis between its ends, so the pieces before
   * the `(` at `i` spell `s[..i]` and the next piece is the match from `i`.
   */
  lemma ScanComplete(s: seq<char>, i: nat) returns (pre: seq<Piece>)
    requires i < |s| && GroupAt(s, i).Some?
    ensures var j := GroupAt(s, i).value;
            Scan(s, 0) == pre + ([Group(s[i..j + 1])] + Scan(s, j + 1)) && Original(pre) == s[..i]
  {
    pre := ScanPrefix(s, 0, i);
    PrefixOriginal(s, i, pre);
    ScanAtGroup(s, i);
  }

  /** The scan from `k` reaches the `(` at `i`: it is some pieces, then the scan from `i`. */
  lemma {:induction false} ScanPrefix(s: seq<char>, k: nat, i: nat) returns (pre: seq<Piece>)
    requires k <= i < |s| && s[i] == '('
    ensures Scan(s, k) == pre + Scan(s, i)
    decreases i - k
  {
    if k == i {
      pre := [];
      assert pre + Scan(s, i) == Scan(s, i);
    } else {
      var p, next := ScanToward(s, k, i);
      var rest := ScanPrefix(s, next, i);
      pre := [p] + rest;
      Regroup([p], rest, Scan(s, i));
    }
  }

  /** The pieces in front of the scan from `i` were cut from `s[..i]`. */
  lemma PrefixOriginal(s: seq<char>, i: nat, pre: seq<Piece>)
    requires i <= |s| && Scan(s, 0) == pre + Scan(s, i)
    ensures Original(pre) == s[..i]
  {
    ScanOriginal(s, 0);
    ScanOriginal(s, i);
    OriginalAppend(pre, Scan(s, i));
    assert s[0..] == s == s[..i] + s[i..];
  }

  /** One step of the scan from before the `(` at `i` does not pass it. */
  lemma ScanToward(s: seq<char>, k: nat, i: nat) returns (p: Piece, next: nat)
    requires k < i < |s| && s[i] == '('
    ensures k < next <= i && Scan(s, k) == [p] + Scan(s, next)
  {
    if GroupAt(s, k).Some? {
      p, next := GroupToward(s, k, i);
    } else {
      p, next := Char(s[k]), k + 1;
      ScanAtChar(s, k);
    }
  }

  lemma GroupToward(s: seq<char>, k: nat, i: nat) returns (p: Piece, next: nat)
    requires k < i < |s| && s[i] == '(' && GroupAt(s, k).Some?
    ensures k < next <= i && Scan(s, k) == [p] + Scan(s, next)
  {
    GroupBefore(s, k, i);
    next := GroupAt(s, k).value + 1;
    p := Group(s[k..next]);
    ScanAtGroup(s, k);
  }

  /** A match that starts before the `(` at `i` ends before it. */
  lemma GroupBefore(s: seq<char>, k: nat, i: nat)
    requires k < i < |s| && GroupAt(s, k).Some? && s[i] == '('
    ensures GroupAt(s, k).value < i
  {
  }

  lemma {:induction false} OriginalAppend(a: seq<Piece>, b: seq<Piece>)
    ensures Original(a + b) == Original(a) + Original(b)
    decreases |b|
  {
    if b == [] {
      assert a + b == a;
    } else {
      var ab := a + b;
      assert Init(ab) == a + Init(b);
      assert ab[|ab| - 1] == b[|b| - 1];
      OriginalAppend(a, Init(b));
      TextRegroup(Original(a), Original(Init(b)), PieceText(b[|b| - 1]));
    }
  }

  lemma TextRegroup(x: seq<char>, y: seq<char>, z: seq<char>)
    ensures (x + y) + z == x + (y + z)
  {
  }

  /** The first piece of the scan at `i` and where the scan goes on. */
  lemma ScanHead(s: seq<char>, i: nat) returns (p: Piece, next: nat)
    requires i < |s|
    ensures i < next <= |s| && Scan(s, i) == [p] + Scan(s, next) && PieceText(p) == s[i..next]
  {
    if GroupAt(s, i).Some? {
      next := GroupAt(s, i).value + 1;
      p := Group(s[i..next]);
      ScanAtGroup(s, i);
    } else {
      p, next := Char(s[i]), i + 1;
      ScanAtChar(s, i);
    }
  }

  lemma ScanAtChar(s: seq<char>, i: nat)
    requires i < |s| && GroupAt(s, i).None?
    ensures Scan(s, i) == [Char(s[i])] + Scan(s, i + 1)
  {
  }

  lemma OriginalSingle(p: Piece)
    ensures Original([p]) == PieceText(p)
  {
    assert Init([p]) == [];
  }

  /** Putting the replaced texts back gives the formula: nothing else is changed. */
  lemma {:induction false} ScanOriginal(s: seq<char>, i: nat)
    requires i <= |s|
    ensures Original(Scan(s, i)) == s[i..]
    decreases |s| - i
  {
    if i < |s| {
      var p, next := ScanHead(s, i);
      var rest := Scan(s, next);
      ScanOriginal(s, next);
      OriginalAppend([p], rest);
      OriginalSingle(p);
      TextSplit(s, i, next);
    }
  }

  lemma TextSplit(s: seq<char>, i: nat, e: nat)
    requires i <= e <= |s|
    ensures s[i..] == s[i..e] + s[e..]
  {
  }

  lemma RoundTrip(formula: seq<char>)
    ensures Original(Scan(formula, 0)) == formula
  {
    ScanOriginal(formula, 0);
    assert formula[0..] == formula;
  }

  lemma ComparisonGroupExcess(t: seq<char>)
    requires ComparisonGroup(t)
    ensures Excess(t) == 0
  {
    var mid := t[1..|t| - 1];
    assert t == [t[0]] + mid + [t[|t| - 1]];
    assert forall x :: 0 <= x < |mid| ==> mid[x] == t[x + 1];
    ExcessNone(mid);
    ExcessAppend([t[0]] + mid, [t[|t| - 1]]);
    ExcessAppend([t[0]], mid);
  }

  /** Each group has one `(` and one `)` and its placeholder none, so the balance is kept. */
  lemma {:induction false} RenderExcess(ps: seq<Piece>)
    requires forall p :: p in ps && p.Group? ==> ComparisonGroup(p.text)
    ensures Excess(Render(ps)) == Excess(Original(ps))
  {
    if ps != [] {
      var init := Init(ps);
      assert forall p :: p in init ==> p in ps;
      RenderExcess(init);
      LastExcess(ps);
    }
  }

  /** The last piece adds as much excess to the output as to the original. */
  lemma LastExcess(ps: seq<Piece>)
    requires ps != [] && Excess(Render(Init(ps))) == Excess(Original(Init(ps)))
    requires ps[|ps| - 1].Group? ==> ComparisonGroup(ps[|ps| - 1].text)
    ensures Excess(Render(ps)) == Excess(Original(ps))
  {
    var init := Init(ps);
    match ps[|ps| - 1]
    case Group(t) =>
      var name := Standardize.Name(NumGroups(init));
      ExcessAppend(Render(init), name);
      ExcessAppend(Original(init), t);
      ComparisonGroupExcess(t);
      SameParensSameCounts(name, []);
    case Char(c) =>
      ExcessAppend(Render(init), [c]);
      ExcessAppend(Original(init), [c]);
  }

  lemma ReplaceComparisonsExcess(formula: seq<char>)
    ensures Excess(Render(Scan(formula, 0))) == Excess(formula)
  {
    ScanGroups(formula, 0);
    RenderExcess(Scan(formula, 0));
    RoundTrip(formula);
  }

  /** Without an unguarded `<` or `>` nothing is replaced. */
  lemma {:induction false} ScanNoComparison(s: seq<char>, i: nat)
    requires i <= |s| && forall k :: i < k < |s| ==> !Unguarded(s, k)
    ensures NumGroups(Scan(s, i)) == 0
    ensures Render(Scan(s, i)) == s[i..]
    decreases |s| - i
  {
    if i < |s| {
      assert GroupAt(s, i).None?;
      ScanNoComparison(s, i + 1);
      CharsRender(s[i], Scan(s, i + 1));
      assert s[i..] == [s[i]] + s[i + 1..];
    }
  }

  /** A kept character in front of pieces without groups. */
  lemma {:induction false} CharsRender(c: char, ps: seq<Piece>)
    requires NumGroups(ps) == 0
    ensures NumGroups([Char(c)] + ps) == 0
    ensures Render([Char(c)] + ps) == [c] + Render(ps)
    decreases |ps|
  {
    if ps == [] {
      assert Init([Char(c)]) == [];
    } else {
      var init := Init(ps);
      assert Init([Char(c)] + ps) == [Char(c)] + init;
      assert NumGroups(init) == 0 && ps[|ps| - 1].Char?;
      CharsRender(c, init);
    }
  }

  /** A group whose only `>` belongs to an arrow is kept as it is. */
  lemma ArrowGroupKept()
    ensures Render(Scan("(a -> b)", 0)) == "(a -> b)"
    ensures NumGroups(Scan("(a -> b)", 0)) == 0
  {
    var s := "(a -> b)";
    forall k | 0 < k < |s|
      ensures !Unguarded(s, k)
    {
    }
    ScanNoComparison(s, 0);
  }
}
