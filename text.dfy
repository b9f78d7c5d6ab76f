/**
 * Character classes and small string utilities shared by every stage of the
 * FRET-to-MLTL rewriter. Strings are `seq<char>`; the classes are the ones the
 * JavaScript regular expressions of the converter use.
 */
module Text {

  datatype Option<T> = None | Some(value: T)

  /** JavaScript `\w`: ASCII letters, digits and underscore. */
  predicate IsWord(c: char) {
    'a' <= c <= 'z' || 'A' <= c <= 'Z' || '0' <= c <= '9' || c == '_'
  }

  predicate IsDigit(c: char) {
    '0' <= c <= '9'
  }

  /** The first character of an identifier: `[a-zA-Z_]`. */
  predicate IsIdentStart(c: char) {
    IsWord(c) && !IsDigit(c)
  }

  /** JavaScript `\s`, which is also the set `String.prototype.trim` removes. */
  predicate IsSpace(c: char) {
    c == ' ' || c == '\t' || c == '\n' || c == '\r' || c == '\U{B}' || c == '\U{C}'
    || c == '\U{A0}' || c == '\U{1680}' || '\U{2000}' <= c <= '\U{200A}'
    || c == '\U{2028}' || c == '\U{2029}' || c == '\U{202F}' || c == '\U{205F}'
    || c == '\U{3000}' || c == '\U{FEFF}'
  }

  lemma SpaceNotWord(c: char)
    requires IsSpace(c)
    ensures !IsWord(c) && c != '(' && c != ')'
  {
  }

  lemma WordNotSpace(c: char)
    requires IsWord(c)
    ensures !IsSpace(c) && c != '(' && c != ')'
  {
  }

  predicate AllWord(s: seq<char>) {
    forall i :: 0 <= i < |s| ==> IsWord(s[i])
  }

  predicate NoWord(s: seq<char>) {
    forall i :: 0 <= i < |s| ==> !IsWord(s[i])
  }

  predicate AllSpace(s: seq<char>) {
    forall i :: 0 <= i < |s| ==> IsSpace(s[i])
  }

  /** Number of occurrences of `c` in `s`. */
  function Count(s: seq<char>, c: char): nat {
    if s == [] then 0 else Count(s[..|s| - 1], c) + (if s[|s| - 1] == c then 1 else 0)
  }

  lemma {:induction false} CountAppend(a: seq<char>, b: seq<char>, c: char)
    ensures Count(a + b, c) == Count(a, c) + Count(b, c)
  {
    if b == [] {
      assert a + b == a;
    } else {
      assert (a + b)[..|a + b| - 1] == a + b[..|b| - 1];
      CountAppend(a, b[..|b| - 1], c);
    }
  }

  /** The count is the multiplicity in the multiset of characters. */
  lemma {:induction false} CountMultiset(s: seq<char>, c: char)
    ensures Count(s, c) == multiset(s)[c]
  {
    if s != [] {
      CountMultiset(s[..|s| - 1], c);
      assert s == s[..|s| - 1] + [s[|s| - 1]];
    }
  }

  /** Opening minus closing parentheses: zero exactly when the counts agree. */
  function Excess(s: seq<char>): int {
    Count(s, '(') - Count(s, ')')
  }

  lemma ExcessAppend(a: seq<char>, b: seq<char>)
    ensures Excess(a + b) == Excess(a) + Excess(b)
  {
    CountAppend(a, b, '(');
    CountAppend(a, b, ')');
  }

  lemma ExcessNone(s: seq<char>)
    requires '(' !in s && ')' !in s
    ensures Excess(s) == 0
  {
    CountNone(s, '(');
    CountNone(s, ')');
  }

  /** The parenthesis characters of `s`, in order. */
  function Parens(s: seq<char>): seq<char> {
    if s == [] then []
    else Parens(s[..|s| - 1]) + (if s[|s| - 1] in "()" then [s[|s| - 1]] else [])
  }

  lemma {:induction false} ParensAppend(a: seq<char>, b: seq<char>)
    ensures Parens(a + b) == Parens(a) + Parens(b)
  {
    if b == [] {
      assert a + b == a;
    } else {
      assert (a + b)[..|a + b| - 1] == a + b[..|b| - 1];
      ParensAppend(a, b[..|b| - 1]);
    }
  }

  lemma {:induction false} ParensCount(s: seq<char>)
    ensures Count(Parens(s), '(') == Count(s, '(') && Count(Parens(s), ')') == Count(s, ')')
  {
    if s != [] {
      var init := s[..|s| - 1];
      var last := s[|s| - 1];
      ParensCount(init);
      CountAppend(Parens(init), if last in "()" then [last] else [], '(');
      CountAppend(Parens(init), if last in "()" then [last] else [], ')');
    }
  }

  /** The same parenthesis skeleton means the same number of `(` and of `)`. */
  lemma SameParensSameCounts(a: seq<char>, b: seq<char>)
    requires Parens(a) == Parens(b)
    ensures Count(a, '(') == Count(b, '(') && Count(a, ')') == Count(b, ')')
  {
    ParensCount(a);
    ParensCount(b);
  }

  lemma {:induction false} ParensFree(s: seq<char>)
    requires forall i :: 0 <= i < |s| ==> s[i] !in "()"
    ensures Parens(s) == []
  {
    if s != [] {
      ParensFree(s[..|s| - 1]);
    }
  }

  /** The characters of `s` that are not whitespace, in order. */
  function NonSpace(s: seq<char>): seq<char> {
    if s == [] then []
    else (if IsSpace(s[0]) then [] else [s[0]]) + NonSpace(s[1..])
  }

  lemma {:induction false} NonSpaceAppend(a: seq<char>, b: seq<char>)
    ensures NonSpace(a + b) == NonSpace(a) + NonSpace(b)
  {
    if a == [] {
      assert a + b == b;
    } else {
      assert (a + b)[1..] == a[1..] + b;
      NonSpaceAppend(a[1..], b);
    }
  }

  lemma {:induction false} NonSpaceOfSpaces(s: seq<char>)
    requires AllSpace(s)
    ensures NonSpace(s) == []
  {
    if s != [] {
      NonSpaceOfSpaces(s[1..]);
    }
  }

  /** Length of the longest prefix of `s` made of whitespace. */
  function SpacePrefix(s: seq<char>): (n: nat)
    ensures n <= |s|
    ensures AllSpace(s[..n]) && (n < |s| ==> !IsSpace(s[n]))
  {
    if s == [] || !IsSpace(s[0]) then 0
    else
      var k := SpacePrefix(s[1..]);
      assert s[..k + 1] == [s[0]] + s[1..][..k];
      k + 1
  }

  /** Length of the longest suffix of `s` made of whitespace. */
  function SpaceSuffix(s: seq<char>): (n: nat)
    ensures n <= |s|
    ensures AllSpace(s[|s| - n..]) && (n < |s| ==> !IsSpace(s[|s| - n - 1]))
  {
    if s == [] || !IsSpace(s[|s| - 1]) then 0
    else
      var k := SpaceSuffix(s[..|s| - 1]);
      SpaceSuffixStep(s, k);
      k + 1
  }

  /** A blank after a blank suffix of `k` characters makes one of `k + 1`. */
  lemma SpaceSuffixStep(s: seq<char>, k: nat)
    requires s != [] && IsSpace(s[|s| - 1]) && k <= |s| - 1
    requires AllSpace(s[..|s| - 1][|s| - 1 - k..])
    requires k < |s| - 1 ==> !IsSpace(s[..|s| - 1][|s| - 1 - k - 1])
    ensures AllSpace(s[|s| - (k + 1)..]) && (k + 1 < |s| ==> !IsSpace(s[|s| - (k + 1) - 1]))
  {
    assert s[|s| - (k + 1)..] == s[..|s| - 1][|s| - 1 - k..] + [s[|s| - 1]];
  }

  /** Length of the longest prefix of `s` made of word characters. */
  function WordPrefix(s: seq<char>): (n: nat)
    ensures n <= |s|
    ensures AllWord(s[..n]) && (n < |s| ==> !IsWord(s[n]))
  {
    if s == [] || !IsWord(s[0]) then 0
    else
      var k := WordPrefix(s[1..]);
      assert s[..k + 1] == [s[0]] + s[1..][..k];
      k + 1
  }

  /** The first word is exactly `s[..n]` when those are word characters and `s[n]` is not. */
  lemma {:induction false} WordPrefixIs(s: seq<char>, n: nat)
    requires n <= |s| && AllWord(s[..n]) && (n < |s| ==> !IsWord(s[n]))
    ensures WordPrefix(s) == n
    decreases n
  {
    if n > 0 {
      assert IsWord(s[..n][0]);
      var t := s[1..];
      assert AllWord(t[..n - 1]) by {
        forall i | 0 <= i < n - 1 ensures IsWord(t[i]) {
          assert t[i] == s[..n][i + 1];
        }
      }
      if n - 1 < |t| {
        assert t[n - 1] == s[n];
      }
      WordPrefixIs(t, n - 1);
    }
  }

  /** End of the run of word characters that starts at `i`. */
  function WordEnd(s: seq<char>, i: nat): (e: nat)
    requires i <= |s|
    ensures i <= e <= |s| && (forall x :: i <= x < e ==> IsWord(s[x])) && (e < |s| ==> !IsWord(s[e]))
    decreases |s| - i
  {
    if i == |s| || !IsWord(s[i]) then i else WordEnd(s, i + 1)
  }

  /** End of the run of whitespace that starts at `i`. */
  function SpaceEnd(s: seq<char>, i: nat): (e: nat)
    requires i <= |s|
    ensures i <= e <= |s| && (forall x :: i <= x < e ==> IsSpace(s[x])) && (e < |s| ==> !IsSpace(s[e]))
    decreases |s| - i
  {
    if i == |s| || !IsSpace(s[i]) then i else SpaceEnd(s, i + 1)
  }

  lemma {:induction false} WordEndIs(s: seq<char>, i: nat, e: nat)
    requires i <= e <= |s| && (forall x :: i <= x < e ==> IsWord(s[x])) && (e < |s| ==> !IsWord(s[e]))
    ensures WordEnd(s, i) == e
    decreases e - i
  {
    if i < e {
      WordEndIs(s, i + 1, e);
    }
  }

  lemma {:induction false} SpaceEndIs(s: seq<char>, i: nat, e: nat)
    requires i <= e <= |s| && (forall x :: i <= x < e ==> IsSpace(s[x])) && (e < |s| ==> !IsSpace(s[e]))
    ensures SpaceEnd(s, i) == e
    decreases e - i
  {
    if i < e {
      SpaceEndIs(s, i + 1, e);
    }
  }

  lemma {:induction false} SpacePrefixOf(a: seq<char>, b: seq<char>)
    requires AllSpace(a) && (b == [] || !IsSpace(b[0]))
    ensures SpacePrefix(a + b) == |a|
    decreases |a|
  {
    if a == [] {
      assert a + b == b;
    } else {
      assert (a + b)[1..] == a[1..] + b;
      SpacePrefixOf(a[1..], b);
    }
  }

  lemma {:induction false} CountNone(s: seq<char>, c: char)
    requires c !in s
    ensures Count(s, c) == 0
  {
    if s != [] {
      CountNone(s[..|s| - 1], c);
    }
  }

  /** `String.prototype.trim`: drop leading and trailing whitespace. */
  function Trim(s: seq<char>): (r: seq<char>)
    ensures |r| <= |s|
  {
    var t := s[SpacePrefix(s)..];
    t[..|t| - SpaceSuffix(t)]
  }

  /** Trimming only removes whitespace: `s` is `r` with some whitespace on either side. */
  lemma TrimShape(s: seq<char>)
    ensures exists a, b :: AllSpace(a) && AllSpace(b) && s == a + Trim(s) + b
    ensures Trim(s) == [] || (!IsSpace(Trim(s)[0]) && !IsSpace(Trim(s)[|Trim(s)| - 1]))
  {
    var a, b := TrimParts(s);
    if Trim(s) != [] {
      var t := s[SpacePrefix(s)..];
      assert Trim(s)[0] == t[0];
    }
  }

  /** The whitespace `Trim` removes on the left and on the right. */
  lemma TrimParts(s: seq<char>) returns (a: seq<char>, b: seq<char>)
    ensures AllSpace(a) && AllSpace(b) && s == a + Trim(s) + b
  {
    var p := SpacePrefix(s);
    var t := s[p..];
    var q := SpaceSuffix(t);
    a, b := s[..p], t[|t| - q..];
    SplitThree(s, p, q);
  }

  /** `s` cut after `p` characters and again `q` characters before its end. */
  lemma SplitThree(s: seq<char>, p: nat, q: nat)
    requires p <= |s| && q <= |s| - p
    ensures s == s[..p] + s[p..][..|s[p..]| - q] + s[p..][|s[p..]| - q..]
  {
    var t := s[p..];
    assert t == t[..|t| - q] + t[|t| - q..];
    assert s == s[..p] + t;
  }

  lemma TrimParens(s: seq<char>)
    ensures Parens(Trim(s)) == Parens(s)
  {
    var a, b := TrimParts(s);
    ParensAppend(a + Trim(s), b);
    ParensAppend(a, Trim(s));
    SpacesParensFree(a);
    SpacesParensFree(b);
  }

  lemma {:induction false} SpacesParensFree(s: seq<char>)
    requires AllSpace(s)
    ensures Parens(s) == []
  {
    if s != [] {
      SpacesParensFree(s[..|s| - 1]);
    }
  }

  lemma TrimNonSpace(s: seq<char>)
    ensures NonSpace(Trim(s)) == NonSpace(s)
  {
    var a, b := TrimParts(s);
    NonSpaceAppend(a + Trim(s), b);
    NonSpaceAppend(a, Trim(s));
    NonSpaceOfSpaces(a);
    NonSpaceOfSpaces(b);
  }

  /** Trimming a string that has no whitespace at either end changes nothing. */
  lemma TrimNoop(s: seq<char>)
    requires s == [] || (!IsSpace(s[0]) && !IsSpace(s[|s| - 1]))
    ensures Trim(s) == s
  {
  }

  /** Leading whitespace of `u + v` lies inside `u` when `u` ends with a non-blank. */
  lemma {:induction false} SpacePrefixAppend(u: seq<char>, v: seq<char>)
    requires u != [] && !IsSpace(u[|u| - 1])
    ensures SpacePrefix(u + v) == SpacePrefix(u)
    decreases |u|
  {
    if IsSpace(u[0]) {
      assert (u + v)[1..] == u[1..] + v;
      SpacePrefixAppend(u[1..], v);
    }
  }

  /** Trailing whitespace of `u + v` lies inside `v` when `v` starts with a non-blank. */
  lemma {:induction false} SpaceSuffixAppend(u: seq<char>, v: seq<char>)
    requires v != [] && !IsSpace(v[0])
    ensures SpaceSuffix(u + v) == SpaceSuffix(v)
    decreases |v|
  {
    var s := u + v;
    assert s[|s| - 1] == v[|v| - 1];
    if IsSpace(v[|v| - 1]) {
      assert s[..|s| - 1] == u + v[..|v| - 1];
      SpaceSuffixAppend(u, v[..|v| - 1]);
    }
  }

  /** Trimming two pieces joined by one space trims each piece: the joining space stays. */
  lemma TrimJoin(x: seq<char>, y: seq<char>)
    requires x != [] && y != [] && !IsSpace(x[|x| - 1]) && !IsSpace(y[0])
    ensures Trim(x + " " + y) == Trim(x) + " " + Trim(y)
  {
    var s := x + " " + y;
    var p := SpacePrefix(x);
    var q := SpaceSuffix(y);
    JoinPrefix(x, y);
    JoinSuffix(x, y, p);
    TrimBy(s, p, q);
    TrimLeft(x);
    TrimRight(y);
    JoinSlices(x, y, p, q);
  }

  lemma JoinPrefix(x: seq<char>, y: seq<char>)
    requires x != [] && !IsSpace(x[|x| - 1])
    ensures SpacePrefix(x + " " + y) == SpacePrefix(x)
  {
    assert x + " " + y == x + (" " + y);
    SpacePrefixAppend(x, " " + y);
  }

  lemma JoinSuffix(x: seq<char>, y: seq<char>, p: nat)
    requires p <= |x| && y != [] && !IsSpace(y[0])
    ensures SpaceSuffix((x + " " + y)[p..]) == SpaceSuffix(y)
  {
    assert (x + " " + y)[p..] == (x[p..] + " ") + y;
    SpaceSuffixAppend(x[p..] + " ", y);
  }

  lemma TrimBy(s: seq<char>, p: nat, q: nat)
    requires p == SpacePrefix(s) && q == SpaceSuffix(s[p..])
    ensures Trim(s) == s[p..][..|s| - p - q]
  {
  }

  lemma JoinSlices(x: seq<char>, y: seq<char>, p: nat, q: nat)
    requires p <= |x| && q <= |y|
    ensures var s := x + " " + y; s[p..][..|s| - p - q] == x[p..] + " " + y[..|y| - q]
  {
  }

  /** Without trailing whitespace only the leading whitespace is trimmed. */
  lemma TrimLeft(x: seq<char>)
    requires x != [] && !IsSpace(x[|x| - 1])
    ensures Trim(x) == x[SpacePrefix(x)..]
  {
    var t := x[SpacePrefix(x)..];
    assert t != [] ==> t[|t| - 1] == x[|x| - 1];
    assert SpaceSuffix(t) == 0;
  }

  /** Without leading whitespace only the trailing whitespace is trimmed. */
  lemma TrimRight(y: seq<char>)
    requires y != [] && !IsSpace(y[0])
    ensures Trim(y) == y[..|y| - SpaceSuffix(y)]
  {
    assert SpacePrefix(y) == 0;
    assert y[0..] == y;
  }

  /** Decimal rendering of a natural number, as JavaScript's template literals print it. */
  function NatToString(n: nat): (r: seq<char>)
    ensures |r| >= 1 && forall i :: 0 <= i < |r| ==> IsDigit(r[i])
    ensures (n < 10) == (|r| == 1)
  {
    var d := [(('0' as int) + n % 10) as char];
    if n < 10 then d else NatToString(n / 10) + d
  }

  /** Distinct numbers print differently. */
  lemma {:induction false} NatToStringInjective(a: nat, b: nat)
    requires NatToString(a) == NatToString(b)
    ensures a == b
  {
    var ra, rb := NatToString(a), NatToString(b);
    assert ra[|ra| - 1] == rb[|rb| - 1];
    assert a % 10 == b % 10;
    if a >= 10 && b >= 10 {
      assert ra[..|ra| - 1] == NatToString(a / 10);
      assert rb[..|rb| - 1] == NatToString(b / 10);
      NatToStringInjective(a / 10, b / 10);
    }
  }
}
