/**
 * `handleRelationalOperators`: four global regular-expression replacements
 * applied one after the other,
 *
 *   A < B   becomes  (!(A) & (B))      A <= B  becomes  (!(A) | (B))
 *   A > B   becomes  ((A) & !(B))      A >= B  becomes  ((A) | !(B))
 *
 * where A and B are runs of word characters and whitespace may surround the
 * operator. Each pattern `(\w+)\s*op\s*(\w+)` has exactly one way to match at a
 * position (every greedy part must stop where it does for the next part to
 * match), so each replacement is a scanner over positions that either rewrites
 * one comparison or copies one character.
 */
module Relational {
  import opened Text

  datatype Relation = Lt | Le | Gt | Ge

  function OpText(r: Relation): (op: seq<char>)
    ensures 0 < |op| <= 2 && (op[0] == '<' || op[0] == '>')
    ensures forall i :: 0 <= i < |op| ==> op[i] in "<>="
  {
    match r
    case Lt => "<"
    case Le => "<="
    case Gt => ">"
    case Ge => ">="
  }

  /** The fixed text of each replacement around `$1` and `$2`. */
  function Pieces(r: Relation): (seq<char>, seq<char>, seq<char>) {
    match r
    case Lt => ("(!(", ") & (", "))")
    case Le => ("(!(", ") | (", "))")
    case Gt => ("((", ") & !(", "))")
    case Ge => ("((", ") | !(", "))")
  }

  /** The replacement text, with `$1` and `$2` filled in. */
  function Template(r: Relation, a: seq<char>, b: seq<char>): seq<char> {
    var (x, y, z) := Pieces(r);
    x + a + y + b + z
  }

  /** Where a comparison that starts at some position lies: left operand up to
      `leftEnd`, operator at `opStart`, right operand from `rightStart` to `end`. */
  datatype Positions = Positions(leftEnd: nat, opStart: nat, rightStart: nat, end: nat)

  predicate OpAt(s: seq<char>, k: nat, op: seq<char>) {
    k + |op| <= |s| && s[k..k + |op|] == op
  }

  /** `(\w+)\s*op\s*(\w+)` matches at `i` with the parts `p`, each greedy part taken in full. */
  predicate Matched(s: seq<char>, i: nat, op: seq<char>, p: Positions) {
    i < p.leftEnd <= p.opStart && p.opStart + |op| <= p.rightStart < p.end <= |s| &&
    (forall x :: i <= x < p.leftEnd ==> IsWord(s[x])) &&
    (forall x :: p.leftEnd <= x < p.opStart ==> IsSpace(s[x])) &&
    OpAt(s, p.opStart, op) &&
    (forall x :: p.opStart + |op| <= x < p.rightStart ==> IsSpace(s[x])) &&
    (forall x :: p.rightStart <= x < p.end ==> IsWord(s[x])) &&
    (p.end < |s| ==> !IsWord(s[p.end]))
  }

  /** The match attempt at position `i`. */
  function MatchAt(s: seq<char>, i: nat, op: seq<char>): Option<Positions>
    requires i <= |s| && |op| > 0
  {
    if i == |s| || !IsWord(s[i]) then None
    else
      var j := WordEnd(s, i);
      var k := SpaceEnd(s, j);
      if !OpAt(s, k, op) then None
      else
        var m := SpaceEnd(s, k + |op|);
        if m == |s| || !IsWord(s[m]) then None
        else Some(Positions(j, k, m, WordEnd(s, m)))
  }

  /** Every match the scan reports is a comparison with greedy parts. */
  lemma MatchAtSound(s: seq<char>, i: nat, op: seq<char>)
    requires i <= |s| && |op| > 0
    ensures MatchAt(s, i, op).Some? ==> Matched(s, i, op, MatchAt(s, i, op).value)
  {
  }

  /** The replacement scan for one operator, from position `i` on. */
  function Rewrite(s: seq<char>, i: nat, r: Relation): seq<char>
    requires i <= |s|
    decreases |s| - i
  {
    if i == |s| then []
    else
      match MatchAt(s, i, OpText(r))
      case Some(p) => Template(r, s[i..p.leftEnd], s[p.rightStart..p.end]) + Rewrite(s, p.end, r)
      case None => [s[i]] + Rewrite(s, i + 1, r)
  }

  /** `s.replace(/(\w+)\s*op\s*(\w+)/g, template)`. */
  function ReplaceAll(s: seq<char>, r: Relation): seq<char> {
    Rewrite(s, 0, r)
  }

  /** `handleRelationalOperators`: the four replacements in source order. */
  function HandleRelational(s: seq<char>): seq<char> {
    ReplaceAll(ReplaceAll(ReplaceAll(ReplaceAll(s, Lt), Le), Gt), Ge)
  }

  /** The operator characters are neither word characters nor whitespace. */
  lemma OperatorChars(r: Relation)
    ensures var op := OpText(r); forall i :: 0 <= i < |op| ==> !IsWord(op[i]) && !IsSpace(op[i]) && op[i] !in "()"
  {
  }

  /** Every comparison is found: where the pattern matches, the scan reports exactly its parts. */
  lemma MatchAtComplete(s: seq<char>, i: nat, op: seq<char>, p: Positions)
    requires |op| > 0 && !IsWord(op[0]) && !IsSpace(op[0]) && Matched(s, i, op, p)
    ensures MatchAt(s, i, op) == Some(p)
  {
    var c := s[p.opStart];
    assert c == s[p.opStart..p.opStart + |op|][0] == op[0];
    if p.leftEnd < p.opStart {
      SpaceNotWord(s[p.leftEnd]);
    }
    WordNotSpace(s[p.rightStart]);
    WordEndIs(s, i, p.leftEnd);
    SpaceEndIs(s, p.leftEnd, p.opStart);
    SpaceEndIs(s, p.opStart + |op|, p.rightStart);
    WordEndIs(s, p.rightStart, p.end);
    MatchAtIs(s, i, op, p.leftEnd, p.opStart, p.rightStart, p.end);
  }

  /** `MatchAt` read off from the ends of its greedy parts. */
  lemma MatchAtIs(s: seq<char>, i: nat, op: seq<char>, j: nat, k: nat, m: nat, e: nat)
    requires |op| > 0 && i < |s| && IsWord(s[i])
    requires WordEnd(s, i) == j && SpaceEnd(s, j) == k && OpAt(s, k, op)
    requires SpaceEnd(s, k + |op|) == m < |s| && IsWord(s[m]) && WordEnd(s, m) == e
    ensures MatchAt(s, i, op) == Some(Positions(j, k, m, e))
  {
  }

  /** Where nothing matches, the scan copies its input. */
  lemma {:induction false} RewriteNoMatch(s: seq<char>, i: nat, r: Relation)
    requires i <= |s| && forall x :: i <= x < |s| ==> MatchAt(s, x, OpText(r)).None?
    ensures Rewrite(s, i, r) == s[i..]
    decreases |s| - i
  {
    if i < |s| {
      RewriteNoMatch(s, i + 1, r);
      assert s[i..] == [s[i]] + s[i + 1..];
    }
  }

  /** Every occurrence of `c` in `s` directly follows a `-`. */
  predicate GuardedOnly(s: seq<char>, c: char) {
    forall k :: 0 <= k < |s| && s[k] == c ==> k > 0 && s[k - 1] == '-'
  }

  /** The operator of a match directly follows a word character or whitespace. */
  lemma OperatorPreceded(s: seq<char>, i: nat, op: seq<char>, p: Positions)
    requires |op| > 0 && Matched(s, i, op, p)
    ensures s[p.opStart] == op[0] && p.opStart > 0 && (IsSpace(s[p.opStart - 1]) || IsWord(s[p.opStart - 1]))
  {
    assert s[p.opStart..p.opStart + |op|][0] == s[p.opStart];
    if p.leftEnd < p.opStart {
      assert IsSpace(s[p.opStart - 1]);
    }
  }

  /** An operator character that only ever appears as part of `->` cannot start a comparison. */
  lemma NoMatchWhenGuarded(s: seq<char>, x: nat, r: Relation)
    requires x <= |s| && GuardedOnly(s, OpText(r)[0])
    ensures MatchAt(s, x, OpText(r)).None?
  {
    var op := OpText(r);
    var m := MatchAt(s, x, op);
    if m.Some? {
      OperatorPreceded(s, x, op, m.value);
    }
  }

  /** A text with no unguarded operator character is left as it is. */
  lemma RewriteGuarded(s: seq<char>, r: Relation)
    requires GuardedOnly(s, OpText(r)[0])
    ensures ReplaceAll(s, r) == s
  {
    forall x | 0 <= x < |s|
      ensures MatchAt(s, x, OpText(r)).None?
    {
      NoMatchWhenGuarded(s, x, r);
    }
    RewriteNoMatch(s, 0, r);
  }

  /** An implication such as `a -> b`, with no `<` and every `>` part of `->`, is untouched. */
  lemma HandleRelationalKeepsImplications(s: seq<char>)
    requires GuardedOnly(s, '<') && GuardedOnly(s, '>')
    ensures HandleRelational(s) == s
  {
    RewriteGuarded(s, Lt);
    RewriteGuarded(s, Le);
    RewriteGuarded(s, Gt);
    RewriteGuarded(s, Ge);
  }

  lemma PiecesExcess(r: Relation)
    ensures Excess(Pieces(r).0) + Excess(Pieces(r).1) + Excess(Pieces(r).2) == 0
  {
    ExcessClose();
    match r
    case Lt => ExcessNotOpen(); ExcessAnd();
    case Le => ExcessNotOpen(); ExcessOr();
    case Gt => ExcessOpen(); ExcessAndNot();
    case Ge => ExcessOpen(); ExcessOrNot();
  }

  lemma ExcessClose()
    ensures Excess("))") == -2
  {
    assert "))"[..1] == ")" && ")"[..0] == [];
  }

  lemma ExcessOpen()
    ensures Excess("((") == 2
  {
    assert "(("[..1] == "(" && "("[..0] == [];
  }

  lemma ExcessNotOpen()
    ensures Excess("(!(") == 2
  {
    assert "(!("[..2] == "(!" && "(!"[..1] == "(" && "("[..0] == [];
  }

  lemma ExcessAnd()
    ensures Excess(") & (") == 0
  {
    assert ") & ("[..4] == ") & " && ") & "[..3] == ") &" && ") &"[..2] == ") " && ") "[..1] == ")" && ")"[..0] == [];
  }

  lemma ExcessOr()
    ensures Excess(") | (") == 0
  {
    assert ") | ("[..4] == ") | " && ") | "[..3] == ") |" && ") |"[..2] == ") " && ") "[..1] == ")" && ")"[..0] == [];
  }

  lemma ExcessAndNot()
    ensures Excess(") & !(") == 0
  {
    assert ") & !("[..5] == ") & !" && ") & !"[..4] == ") & " && ") & "[..3] == ") &";
    assert ") &"[..2] == ") " && ") "[..1] == ")" && ")"[..0] == [];
  }

  lemma ExcessOrNot()
    ensures Excess(") | !(") == 0
  {
    assert ") | !("[..5] == ") | !" && ") | !"[..4] == ") | " && ") | "[..3] == ") |";
    assert ") |"[..2] == ") " && ") "[..1] == ")" && ")"[..0] == [];
  }

  /** The template's parentheses balance when the operands have none. */
  lemma TemplateExcess(r: Relation, a: seq<char>, b: seq<char>)
    requires AllWord(a) && AllWord(b)
    ensures Excess(Template(r, a, b)) == 0
  {
    var (x, y, z) := Pieces(r);
    assert '(' !in a && ')' !in a && '(' !in b && ')' !in b;
    ExcessNone(a);
    ExcessNone(b);
    PiecesExcess(r);
    ExcessAppend(x + a + y + b, z);
    ExcessAppend(x + a + y, b);
    ExcessAppend(x + a, y);
    ExcessAppend(x, a);
  }

  /** The text a match consumes holds no parenthesis. */
  lemma MatchedExcess(s: seq<char>, i: nat, r: Relation, p: Positions)
    requires Matched(s, i, OpText(r), p)
    ensures Excess(s[i..p.end]) == 0
  {
    var op := OpText(r);
    OperatorChars(r);
    forall x | i <= x < p.end
      ensures s[x] != '(' && s[x] != ')'
    {
      if x < p.leftEnd || p.rightStart <= x {
        WordNotSpace(s[x]);
      } else if x < p.opStart || p.opStart + |op| <= x {
        SpaceNotWord(s[x]);
      } else {
        assert s[x] == s[p.opStart..p.opStart + |op|][x - p.opStart] == op[x - p.opStart];
        assert op[x - p.opStart] !in "()";
      }
    }
    assert '(' !in s[i..p.end] && ')' !in s[i..p.end];
    ExcessNone(s[i..p.end]);
  }

  lemma MatchExcess(s: seq<char>, i: nat, r: Relation, p: Positions)
    requires i < |s| && MatchAt(s, i, OpText(r)) == Some(p)
    requires Excess(Rewrite(s, p.end, r)) == Excess(s[p.end..])
    ensures Excess(Rewrite(s, i, r)) == Excess(s[i..])
  {
    RewriteMatchExcess(s, i, r, p);
    SkipMatchExcess(s, i, r, p);
  }

  /** The template adds no excess to the rest of the scan. */
  lemma RewriteMatchExcess(s: seq<char>, i: nat, r: Relation, p: Positions)
    requires i < |s| && MatchAt(s, i, OpText(r)) == Some(p)
    ensures Excess(Rewrite(s, i, r)) == Excess(Rewrite(s, p.end, r))
  {
    var a, b := s[i..p.leftEnd], s[p.rightStart..p.end];
    MatchedOperands(s, i, OpText(r), p);
    RewriteAtMatch(s, i, r, p);
    TemplateExcess(r, a, b);
    ExcessAppend(Template(r, a, b), Rewrite(s, p.end, r));
  }

  /** The matched text adds no excess to the rest of the input. */
  lemma SkipMatchExcess(s: seq<char>, i: nat, r: Relation, p: Positions)
    requires i < |s| && MatchAt(s, i, OpText(r)) == Some(p)
    ensures Excess(s[i..]) == Excess(s[p.end..])
  {
    MatchedExcess(s, i, r, p);
    SplitAt(s, i, p.end);
    ExcessAppend(s[i..p.end], s[p.end..]);
  }

  lemma MatchedOperands(s: seq<char>, i: nat, op: seq<char>, p: Positions)
    requires Matched(s, i, op, p)
    ensures AllWord(s[i..p.leftEnd]) && AllWord(s[p.rightStart..p.end])
  {
  }

  lemma RewriteAtMatch(s: seq<char>, i: nat, r: Relation, p: Positions)
    requires i < |s| && MatchAt(s, i, OpText(r)) == Some(p)
    ensures Rewrite(s, i, r) == Template(r, s[i..p.leftEnd], s[p.rightStart..p.end]) + Rewrite(s, p.end, r)
  {
  }

  lemma SplitAt(s: seq<char>, i: nat, j: nat)
    requires i <= j <= |s|
    ensures s[i..] == s[i..j] + s[j..]
  {
  }

  /** Rewriting comparisons neither unbalances nor balances the parentheses. */
  lemma {:induction false} RewriteExcess(s: seq<char>, i: nat, r: Relation)
    requires i <= |s|
    ensures Excess(Rewrite(s, i, r)) == Excess(s[i..])
    decreases |s| - i
  {
    if i < |s| {
      match MatchAt(s, i, OpText(r))
      case Some(p) =>
        RewriteExcess(s, p.end, r);
        MatchExcess(s, i, r, p);
      case None =>
        RewriteExcess(s, i + 1, r);
        ExcessAppend([s[i]], Rewrite(s, i + 1, r));
        assert s[i..] == [s[i]] + s[i + 1..];
        ExcessAppend([s[i]], s[i + 1..]);
    }
  }

  /** `handleRelationalOperators` keeps the difference between `(` and `)` counts. */
  lemma HandleRelationalExcess(s: seq<char>)
    ensures Excess(HandleRelational(s)) == Excess(s)
  {
    var s1 := ReplaceAll(s, Lt);
    var s2 := ReplaceAll(s1, Le);
    var s3 := ReplaceAll(s2, Gt);
    RewriteExcess(s, 0, Lt);
    RewriteExcess(s1, 0, Le);
    RewriteExcess(s2, 0, Gt);
    RewriteExcess(s3, 0, Ge);
    assert s[0..] == s && s1[0..] == s1 && s2[0..] == s2 && s3[0..] == s3;
  }

  /** A comparison written out: operand, whitespace, operator, whitespace, operand. */
  function Written(a: seq<char>, sp1: seq<char>, op: seq<char>, sp2: seq<char>, b: seq<char>): seq<char> {
    a + sp1 + op + sp2 + b
  }

  predicate Operands(a: seq<char>, sp1: seq<char>, sp2: seq<char>, b: seq<char>) {
    |a| > 0 && AllWord(a) && AllSpace(sp1) && AllSpace(sp2) && |b| > 0 && AllWord(b)
  }

  lemma Layout(a: seq<char>, sp1: seq<char>, op: seq<char>, sp2: seq<char>, b: seq<char>)
    ensures var s := Written(a, sp1, op, sp2, b);
            var k := |a| + |sp1|;
            var m := k + |op| + |sp2|;
            |s| == m + |b| &&
            (forall x :: 0 <= x < |a| ==> s[x] == a[x]) &&
            (forall x :: |a| <= x < k ==> s[x] == sp1[x - |a|]) &&
            (forall x :: k <= x < k + |op| ==> s[x] == op[x - k]) &&
            (forall x :: k + |op| <= x < m ==> s[x] == sp2[x - k - |op|]) &&
            (forall x :: m <= x < |s| ==> s[x] == b[x - m]) &&
            s[..|a|] == a && s[k..k + |op|] == op && s[m..] == b
  {
  }

  /** A written-out comparison is matched at its start, with exactly its two operands. */
  lemma WrittenMatch(a: seq<char>, sp1: seq<char>, r: Relation, sp2: seq<char>, b: seq<char>)
    requires Operands(a, sp1, sp2, b)
    ensures var s := Written(a, sp1, OpText(r), sp2, b);
            var k := |a| + |sp1|;
            var m := k + |OpText(r)| + |sp2|;
            MatchAt(s, 0, OpText(r)) == Some(Positions(|a|, k, m, |s|))
  {
    var op := OpText(r);
    var s := Written(a, sp1, op, sp2, b);
    var k := |a| + |sp1|;
    var m := k + |op| + |sp2|;
    OperatorChars(r);
    WrittenMatched(a, sp1, op, sp2, b);
    MatchAtComplete(s, 0, op, Positions(|a|, k, m, |s|));
  }

  lemma WrittenMatched(a: seq<char>, sp1: seq<char>, op: seq<char>, sp2: seq<char>, b: seq<char>)
    requires Operands(a, sp1, sp2, b) && |op| > 0
    ensures var s := Written(a, sp1, op, sp2, b);
            var k := |a| + |sp1|;
            Matched(s, 0, op, Positions(|a|, k, k + |op| + |sp2|, |s|))
  {
    Layout(a, sp1, op, sp2, b);
  }

  /** One replacement turns the written-out comparison into its template. */
  lemma ReplaceWritten(a: seq<char>, sp1: seq<char>, r: Relation, sp2: seq<char>, b: seq<char>)
    requires Operands(a, sp1, sp2, b)
    ensures ReplaceAll(Written(a, sp1, OpText(r), sp2, b), r) == Template(r, a, b)
  {
    ReplaceWrittenSlices(a, sp1, r, sp2, b);
    WrittenOperands(a, sp1, OpText(r), sp2, b);
  }

  lemma ReplaceWrittenSlices(a: seq<char>, sp1: seq<char>, r: Relation, sp2: seq<char>, b: seq<char>)
    requires Operands(a, sp1, sp2, b)
    ensures var s := Written(a, sp1, OpText(r), sp2, b);
            ReplaceAll(s, r) == Template(r, s[0..|a|], s[|a| + |sp1| + |OpText(r)| + |sp2|..|s|])
  {
    var op := OpText(r);
    var s := Written(a, sp1, op, sp2, b);
    WrittenMatch(a, sp1, r, sp2, b);
    RewriteWholeMatch(s, r, Positions(|a|, |a| + |sp1|, |a| + |sp1| + |op| + |sp2|, |s|));
  }

  /** A match that spans the whole string is replaced by its template alone. */
  lemma RewriteWholeMatch(s: seq<char>, r: Relation, p: Positions)
    requires 0 < |s| && MatchAt(s, 0, OpText(r)) == Some(p) && p.end == |s|
    ensures ReplaceAll(s, r) == Template(r, s[0..p.leftEnd], s[p.rightStart..|s|])
  {
    var t := Template(r, s[0..p.leftEnd], s[p.rightStart..|s|]);
    assert Rewrite(s, |s|, r) == [];
    assert t + [] == t;
  }

  lemma WrittenOperands(a: seq<char>, sp1: seq<char>, op: seq<char>, sp2: seq<char>, b: seq<char>)
    ensures var s := Written(a, sp1, op, sp2, b);
            s[0..|a|] == a && s[|a| + |sp1| + |op| + |sp2|..|s|] == b
  {
    var s := Written(a, sp1, op, sp2, b);
    assert s == a + (sp1 + op + sp2 + b);
    assert s == (a + sp1 + op + sp2) + b;
  }

  /** The templates hold neither `<` nor `>`, so later replacements leave them alone. */
  lemma TemplateHasNoComparison(r: Relation, a: seq<char>, b: seq<char>)
    requires AllWord(a) && AllWord(b)
    ensures '<' !in Template(r, a, b) && '>' !in Template(r, a, b)
  {
    var (x, y, z) := Pieces(r);
    assert '<' !in x && '>' !in x && '<' !in y && '>' !in y && '<' !in z && '>' !in z;
    assert '<' !in a && '>' !in a && '<' !in b && '>' !in b;
  }

  lemma AbsentIsGuarded(s: seq<char>, c: char)
    requires c !in s
    ensures GuardedOnly(s, c)
  {
  }

  /** `A<=B` is not taken apart by the `<` rule, nor `A>=B` by the `>` rule. */
  lemma OrEqualNotCaught(a: seq<char>, sp1: seq<char>, sp2: seq<char>, b: seq<char>, strict: Relation)
    requires Operands(a, sp1, sp2, b) && (strict == Lt || strict == Gt)
    ensures var s := Written(a, sp1, OpText(if strict == Lt then Le else Ge), sp2, b);
            ReplaceAll(s, strict) == s
  {
    assert OpText(if strict == Lt then Le else Ge) == OpText(strict) + "=";
    var s := Written(a, sp1, OpText(strict) + "=", sp2, b);
    forall x | 0 <= x < |s|
      ensures MatchAt(s, x, OpText(strict)).None?
    {
      NotCaughtAt(a, sp1, sp2, b, strict, x);
    }
    RewriteNoMatch(s, 0, strict);
  }

  lemma NotCaughtAt(a: seq<char>, sp1: seq<char>, sp2: seq<char>, b: seq<char>, strict: Relation, x: nat)
    requires Operands(a, sp1, sp2, b) && (strict == Lt || strict == Gt)
    requires x < |Written(a, sp1, OpText(strict) + "=", sp2, b)|
    ensures MatchAt(Written(a, sp1, OpText(strict) + "=", sp2, b), x, OpText(strict)).None?
  {
    var op := OpText(strict);
    var s := Written(a, sp1, op + "=", sp2, b);
    var k := |a| + |sp1|;
    var m := k + 2 + |sp2|;
    Layout(a, sp1, op + "=", sp2, b);
    OperatorChars(strict);
    if x < |a| {
      NotCaughtLeft(s, x, |a|, k, op);
    } else if m <= x {
      WordEndIs(s, x, |s|);
      SpaceEndIs(s, |s|, |s|);
    } else if x < k {
      SpaceNotWord(s[x]);
    } else {
      assert !IsWord(s[x]);
    }
  }

  /** From inside the left operand the match finds the operator followed by `=`, not by an operand. */
  lemma NotCaughtLeft(s: seq<char>, x: nat, e: nat, k: nat, op: seq<char>)
    requires |op| == 1 && (op[0] == '<' || op[0] == '>') && x < e <= k && k + 1 < |s|
    requires forall y :: x <= y < e ==> IsWord(s[y])
    requires forall y :: e <= y < k ==> IsSpace(s[y])
    requires s[k] == op[0] && s[k + 1] == '='
    ensures MatchAt(s, x, op).None?
  {
    if e < k {
      SpaceNotWord(s[e]);
    }
    WordEndIs(s, x, e);
    SpaceEndIs(s, e, k);
    assert s[k..k + 1] == op;
    SpaceEndIs(s, k + 1, k + 1);
    MatchAtNoRight(s, x, op, k);
  }

  /** The operator is found but no operand follows the whitespace after it. */
  lemma MatchAtNoRight(s: seq<char>, i: nat, op: seq<char>, k: nat)
    requires |op| > 0 && i < |s| && k <= |s|
    requires SpaceEnd(s, WordEnd(s, i)) == k && OpAt(s, k, op)
    requires var m := SpaceEnd(s, k + |op|); m == |s| || !IsWord(s[m])
    ensures MatchAt(s, i, op).None?
  {
  }

  /** Each of the four forms, written out alone, comes out of the whole chain as its template. */
  lemma HandleRelationalTemplate(a: seq<char>, sp1: seq<char>, r: Relation, sp2: seq<char>, b: seq<char>)
    requires Operands(a, sp1, sp2, b)
    ensures HandleRelational(Written(a, sp1, OpText(r), sp2, b)) == Template(r, a, b)
  {
    var t := Template(r, a, b);
    TemplateHasNoComparison(r, a, b);
    AbsentIsGuarded(t, '<');
    AbsentIsGuarded(t, '>');
    ReplaceWritten(a, sp1, r, sp2, b);
    match r
    case Lt => ChainLt(a, sp1, sp2, b);
    case Le => ChainLe(a, sp1, sp2, b);
    case Gt => ChainGt(a, sp1, sp2, b);
    case Ge => ChainGe(a, sp1, sp2, b);
  }

  lemma ChainLt(a: seq<char>, sp1: seq<char>, sp2: seq<char>, b: seq<char>)
    requires Operands(a, sp1, sp2, b)
    requires ReplaceAll(Written(a, sp1, OpText(Lt), sp2, b), Lt) == Template(Lt, a, b)
    requires GuardedOnly(Template(Lt, a, b), '<') && GuardedOnly(Template(Lt, a, b), '>')
    ensures HandleRelational(Written(a, sp1, OpText(Lt), sp2, b)) == Template(Lt, a, b)
  {
    var t := Template(Lt, a, b);
    RewriteGuarded(t, Le);
    RewriteGuarded(t, Gt);
    RewriteGuarded(t, Ge);
  }

  lemma ChainLe(a: seq<char>, sp1: seq<char>, sp2: seq<char>, b: seq<char>)
    requires Operands(a, sp1, sp2, b)
    requires ReplaceAll(Written(a, sp1, OpText(Le), sp2, b), Le) == Template(Le, a, b)
    requires GuardedOnly(Template(Le, a, b), '<') && GuardedOnly(Template(Le, a, b), '>')
    ensures HandleRelational(Written(a, sp1, OpText(Le), sp2, b)) == Template(Le, a, b)
  {
    var t := Template(Le, a, b);
    OrEqualNotCaught(a, sp1, sp2, b, Lt);
    RewriteGuarded(t, Gt);
    RewriteGuarded(t, Ge);
  }

  lemma ChainGt(a: seq<char>, sp1: seq<char>, sp2: seq<char>, b: seq<char>)
    requires Operands(a, sp1, sp2, b)
    requires ReplaceAll(Written(a, sp1, OpText(Gt), sp2, b), Gt) == Template(Gt, a, b)
    requires GuardedOnly(Template(Gt, a, b), '<') && GuardedOnly(Template(Gt, a, b), '>')
    ensures HandleRelational(Written(a, sp1, OpText(Gt), sp2, b)) == Template(Gt, a, b)
  {
    var s := Written(a, sp1, OpText(Gt), sp2, b);
    NoLessThan(a, sp1, Gt, sp2, b);
    RewriteGuarded(s, Lt);
    RewriteGuarded(s, Le);
    RewriteGuarded(Template(Gt, a, b), Ge);
  }

  lemma ChainGe(a: seq<char>, sp1: seq<char>, sp2: seq<char>, b: seq<char>)
    requires Operands(a, sp1, sp2, b)
    requires ReplaceAll(Written(a, sp1, OpText(Ge), sp2, b), Ge) == Template(Ge, a, b)
    ensures HandleRelational(Written(a, sp1, OpText(Ge), sp2, b)) == Template(Ge, a, b)
  {
    var s := Written(a, sp1, OpText(Ge), sp2, b);
    NoLessThan(a, sp1, Ge, sp2, b);
    RewriteGuarded(s, Lt);
    RewriteGuarded(s, Le);
    OrEqualNotCaught(a, sp1, sp2, b, Gt);
  }

  lemma NoLessThan(a: seq<char>, sp1: seq<char>, r: Relation, sp2: seq<char>, b: seq<char>)
    requires Operands(a, sp1, sp2, b) && (r == Gt || r == Ge)
    ensures GuardedOnly(Written(a, sp1, OpText(r), sp2, b), '<')
  {
    var s := Written(a, sp1, OpText(r), sp2, b);
    assert '<' !in a && '<' !in sp1 && '<' !in OpText(r) && '<' !in sp2 && '<' !in b;
    assert '<' !in s;
  }
}
