/**
 * Global replacement of a whole-word literal, the JavaScript idiom
 * `s.replace(new RegExp("\\b" + p + "\\b", "g"), rep)`, as a scanner.
 *
 * `\b` holds at a position when exactly one of the characters on either side
 * of it is a word character (a missing character counts as a non-word one).
 * The scanner walks the ORIGINAL string left to right and carries whether the
 * character before the current position is a word character; at each position
 * it either matches `p` there (emits `rep`, skips `|p|` characters) or copies
 * one character. This is exactly the leftmost, non-overlapping search that a
 * global regular expression performs for a literal pattern.
 */
module WholeWord {
  import opened Text

  /** A word-delimited token: begins and ends with a word character. */
  predicate Token(p: seq<char>) {
    |p| > 0 && IsWord(p[0]) && IsWord(p[|p| - 1])
  }

  /** A token whose non-word characters stand alone, between words (`LAST V`). */
  predicate Phrase(p: seq<char>) {
    Token(p) && forall i :: 0 < i < |p| - 1 && !IsWord(p[i]) ==> IsWord(p[i + 1])
  }

  /** No character, or a non-word one, comes first. */
  predicate NonWordStart(t: seq<char>) {
    t == [] || !IsWord(t[0])
  }

  /** `\bp\b` matches at the start of `t`, the character before being a word character iff `prevWord`. */
  predicate MatchAt(t: seq<char>, p: seq<char>, prevWord: bool)
    requires |p| > 0
  {
    p <= t && prevWord != IsWord(p[0]) &&
    (if |t| == |p| then IsWord(p[|p| - 1]) else IsWord(t[|p|]) != IsWord(p[|p| - 1]))
  }

  /** The rest of the scan, from a position whose predecessor is a word character iff `prevWord`. */
  function Replace(s: seq<char>, p: seq<char>, rep: seq<char>, prevWord: bool): seq<char>
    requires |p| > 0
    decreases |s|
  {
    if s == [] then []
    else if MatchAt(s, p, prevWord) then rep + Replace(s[|p|..], p, rep, IsWord(p[|p| - 1]))
    else [s[0]] + Replace(s[1..], p, rep, IsWord(s[0]))
  }

  /** `s.replace(/\bp\b/g, rep)`. */
  function ReplaceWord(s: seq<char>, p: seq<char>, rep: seq<char>): seq<char>
    requires |p| > 0
  {
    Replace(s, p, rep, false)
  }

  /** No whole-word occurrence of `q` from here on. */
  predicate Free(t: seq<char>, q: seq<char>, prevWord: bool)
    requires |q| > 0
    decreases |t|
  {
    t == [] || (!MatchAt(t, q, prevWord) && Free(t[1..], q, IsWord(t[0])))
  }

  /** `/\bq\b/.test(t)` is false: no position of `t` starts a whole-word `q`. */
  predicate NoWholeWord(t: seq<char>, q: seq<char>)
    requires |q| > 0
  {
    forall i :: 0 <= i < |t| ==> !MatchAt(t[i..], q, i > 0 && IsWord(t[i - 1]))
  }

  lemma {:induction false} FreeFrom(t: seq<char>, q: seq<char>, k: nat)
    requires |q| > 0 && k <= |t|
    ensures Free(t[k..], q, k > 0 && IsWord(t[k - 1])) <==>
            forall i :: k <= i < |t| ==> !MatchAt(t[i..], q, i > 0 && IsWord(t[i - 1]))
    decreases |t| - k
  {
    if k < |t| {
      assert t[k..][1..] == t[k + 1..];
      FreeFrom(t, q, k + 1);
    }
  }

  /** The scanner's notion of freedom is the positional one. */
  lemma FreeIsNoWholeWord(t: seq<char>, q: seq<char>)
    requires |q| > 0
    ensures Free(t, q, false) <==> NoWholeWord(t, q)
  {
    FreeFrom(t, q, 0);
  }

  /** Replacing a pattern by itself is the identity (the `->`, `=`, `true`, `false` entries). */
  lemma {:induction false} ReplaceSelf(s: seq<char>, p: seq<char>, f: bool)
    requires |p| > 0
    ensures Replace(s, p, p, f) == s
    decreases |s|
  {
    if s != [] {
      if MatchAt(s, p, f) {
        ReplaceSelf(s[|p|..], p, IsWord(p[|p| - 1]));
        assert s == p + s[|p|..];
      } else {
        ReplaceSelf(s[1..], p, IsWord(s[0]));
        assert s == [s[0]] + s[1..];
      }
    }
  }

  /** A replacement that has the same parentheses as its pattern keeps the parenthesis skeleton. */
  lemma {:induction false} ReplaceParens(s: seq<char>, p: seq<char>, rep: seq<char>, f: bool)
    requires |p| > 0 && Parens(p) == Parens(rep)
    ensures Parens(Replace(s, p, rep, f)) == Parens(s)
    decreases |s|
  {
    if s != [] {
      if MatchAt(s, p, f) {
        ReplaceParens(s[|p|..], p, rep, IsWord(p[|p| - 1]));
        MatchStepParens(s, p, rep, f);
      } else {
        ReplaceParens(s[1..], p, rep, IsWord(s[0]));
        CopyStepParens(s, p, rep, f);
      }
    }
  }

  /** A match step: the replacement's parentheses stand for the pattern's. */
  lemma MatchStepParens(s: seq<char>, p: seq<char>, rep: seq<char>, f: bool)
    requires |p| > 0 && Parens(p) == Parens(rep) && s != [] && MatchAt(s, p, f)
    requires Parens(Replace(s[|p|..], p, rep, IsWord(p[|p| - 1]))) == Parens(s[|p|..])
    ensures Parens(Replace(s, p, rep, f)) == Parens(s)
  {
    ParensAppend(rep, Replace(s[|p|..], p, rep, IsWord(p[|p| - 1])));
    ParensAppend(p, s[|p|..]);
    assert s == p + s[|p|..];
  }

  /** A copy step: the first character is kept. */
  lemma CopyStepParens(s: seq<char>, p: seq<char>, rep: seq<char>, f: bool)
    requires |p| > 0 && s != [] && !MatchAt(s, p, f)
    requires Parens(Replace(s[1..], p, rep, IsWord(s[0]))) == Parens(s[1..])
    ensures Parens(Replace(s, p, rep, f)) == Parens(s)
  {
    ParensAppend([s[0]], Replace(s[1..], p, rep, IsWord(s[0])));
    ParensAppend([s[0]], s[1..]);
    assert s == [s[0]] + s[1..];
  }

  // ---------------------------------------------------------------------------
  // Local facts about the scanner

  /** Before a non-word character the flag does not matter. */
  lemma FlagIrrelevant(s: seq<char>, p: seq<char>, rep: seq<char>, a: bool, b: bool)
    requires Token(p) && NonWordStart(s)
    ensures Replace(s, p, rep, a) == Replace(s, p, rep, b)
    ensures NonWordStart(Replace(s, p, rep, a))
    ensures s != [] ==> Replace(s, p, rep, a) == [s[0]] + Replace(s[1..], p, rep, false)
  {
  }

  lemma FreeFlagIrrelevant(t: seq<char>, q: seq<char>, a: bool, b: bool)
    requires Token(q) && NonWordStart(t)
    ensures Free(t, q, a) == Free(t, q, b)
  {
  }

  /** After a word character, a run of word characters is copied unchanged. */
  lemma {:induction false} SkipWordRun(s: seq<char>, p: seq<char>, rep: seq<char>)
    requires Token(p)
    ensures Replace(s, p, rep, true) ==
            s[..WordPrefix(s)] + Replace(s[WordPrefix(s)..], p, rep, true)
    decreases |s|
  {
    if s != [] && IsWord(s[0]) {
      SkipWordRun(s[1..], p, rep);
      WordPrefixCons(s);
      ReplaceCopy(s, p, rep, true);
      ConsRegroup(s[0], s[1..][..WordPrefix(s[1..])], Replace(s[WordPrefix(s)..], p, rep, true));
    }
  }

  /** Where no match starts, the scanner copies one character. */
  lemma ReplaceCopy(s: seq<char>, p: seq<char>, rep: seq<char>, f: bool)
    requires |p| > 0 && s != [] && !MatchAt(s, p, f)
    ensures Replace(s, p, rep, f) == [s[0]] + Replace(s[1..], p, rep, IsWord(s[0]))
  {
  }

  /** The first word of `s` is its first character followed by the first word of `s[1..]`. */
  lemma WordPrefixCons(s: seq<char>)
    requires s != [] && IsWord(s[0])
    ensures WordPrefix(s) == WordPrefix(s[1..]) + 1
    ensures s[..WordPrefix(s)] == [s[0]] + s[1..][..WordPrefix(s[1..])]
    ensures s[1..][WordPrefix(s[1..])..] == s[WordPrefix(s)..]
  {
  }

  lemma ConsRegroup(c: char, a: seq<char>, b: seq<char>)
    ensures [c] + (a + b) == ([c] + a) + b
  {
  }

  /** The shape of the output when no match starts at the beginning of a word. */
  lemma NoMatchShape(s: seq<char>, p: seq<char>, rep: seq<char>)
    requires Token(p) && WordPrefix(s) > 0 && !MatchAt(s, p, false)
    ensures Replace(s, p, rep, false) ==
            s[..WordPrefix(s)] + Replace(s[WordPrefix(s)..], p, rep, true)
    ensures NonWordStart(Replace(s[WordPrefix(s)..], p, rep, true))
  {
    var n := WordPrefix(s);
    WordPrefixCons(s);
    ReplaceCopy(s, p, rep, false);
    SkipWordRun(s[1..], p, rep);
    ConsRegroup(s[0], s[1..][..WordPrefix(s[1..])], Replace(s[n..], p, rep, true));
    FlagIrrelevant(s[n..], p, rep, true, false);
  }

  /** A match of a word-only token is exactly a first word equal to it. */
  lemma WordMatch(x: seq<char>, q: seq<char>)
    requires Token(q) && AllWord(q)
    ensures MatchAt(x, q, false) <==> x[..WordPrefix(x)] == q
  {
    if MatchAt(x, q, false) {
      assert x[..|q|] == q;
    }
  }

  /** The part of a phrase after its first word and separator is again a phrase. */
  lemma PhraseTail(q: seq<char>)
    requires Phrase(q) && !AllWord(q)
    ensures 0 < WordPrefix(q) && WordPrefix(q) + 1 < |q| && !IsWord(q[WordPrefix(q)])
    ensures Phrase(q[WordPrefix(q) + 1..])
  {
    var n := WordPrefix(q);
    assert n < |q|;
    var q2 := q[n + 1..];
    forall i | 0 < i < |q2| - 1 && !IsWord(q2[i]) ensures IsWord(q2[i + 1]) {
      assert q2[i] == q[n + 1 + i] && q2[i + 1] == q[n + 2 + i];
    }
  }

  /** A match of a phrase: its first word, the separator, then the rest of the phrase. */
  lemma PhraseMatch(x: seq<char>, q: seq<char>)
    requires Phrase(q) && !AllWord(q)
    ensures 0 < WordPrefix(q) && WordPrefix(q) + 1 < |q| && Phrase(q[WordPrefix(q) + 1..])
    ensures MatchAt(x, q, false) <==>
            var n := WordPrefix(q);
            n < |x| && x[..WordPrefix(x)] == q[..n] && x[n] == q[n] &&
            MatchAt(x[n + 1..], q[n + 1..], false)
  {
    PhraseTail(q);
    var n := WordPrefix(q);
    var q2 := q[n + 1..];
    if MatchAt(x, q, false) {
      PhraseMatchForward(x, q, n);
    }
    if n < |x| && x[..WordPrefix(x)] == q[..n] && x[n] == q[n] && MatchAt(x[n + 1..], q2, false) {
      PhraseMatchBackward(x, q, n);
    }
  }

  lemma PhraseMatchForward(x: seq<char>, q: seq<char>, n: nat)
    requires Phrase(q) && 0 < n && n + 1 < |q| && n == WordPrefix(q) && !IsWord(q[n])
    requires MatchAt(x, q, false)
    ensures n < |x| && x[..WordPrefix(x)] == q[..n] && x[n] == q[n]
    ensures MatchAt(x[n + 1..], q[n + 1..], false)
  {
    assert IsWord(q[n + 1]);
    MatchHead(x, q, n);
    MatchTail(x, q, n);
  }

  /** The word run a match starts with is the pattern's. */
  lemma MatchHead(x: seq<char>, q: seq<char>, n: nat)
    requires q <= x && n < |q| && AllWord(q[..n]) && !IsWord(q[n])
    ensures n < |x| && x[..WordPrefix(x)] == q[..n] && x[n] == q[n]
  {
    assert x[..n] == q[..n] && x[n] == q[n];
    WordPrefixIs(x, n);
  }

  /** A match of `q` continues as a match of what follows a non-word character of `q`. */
  lemma MatchTail(x: seq<char>, q: seq<char>, n: nat)
    requires n + 1 < |q| && MatchAt(x, q, false) && !IsWord(q[n]) && IsWord(q[n + 1])
    ensures MatchAt(x[n + 1..], q[n + 1..], false)
  {
    PrefixFrom(x, q, n + 1);
    var x2, q2 := x[n + 1..], q[n + 1..];
    assert q2[0] == q[n + 1] && q2[|q2| - 1] == q[|q| - 1];
    if |x2| != |q2| {
      assert x2[|q2|] == x[|q|];
    }
  }

  /** A prefix stays a prefix when both lose their first `k` characters. */
  lemma PrefixFrom(x: seq<char>, q: seq<char>, k: nat)
    requires q <= x && k <= |q|
    ensures q[k..] <= x[k..]
  {
    assert x[k..][..|q| - k] == q[k..];
  }

  lemma PhraseMatchBackward(x: seq<char>, q: seq<char>, n: nat)
    requires 0 < n && n + 1 < |q| && n == WordPrefix(q) && !IsWord(q[n])
    requires n < |x| && x[..WordPrefix(x)] == q[..n] && x[n] == q[n]
    requires MatchAt(x[n + 1..], q[n + 1..], false)
    ensures MatchAt(x, q, false)
  {
    var x2, q2 := x[n + 1..], q[n + 1..];
    JoinPrefix(x, q, n);
    assert q[|q| - 1] == q2[|q2| - 1];
    if |x2| != |q2| {
      assert x2[|q2|] == x[|q|];
    }
  }

  /** The first word, the separator and a prefix of the rest make a prefix of `x`. */
  lemma JoinPrefix(x: seq<char>, q: seq<char>, n: nat)
    requires n + 1 < |q| && n < |x| && x[..WordPrefix(x)] == q[..n] && x[n] == q[n]
    requires q[n + 1..] <= x[n + 1..]
    ensures q <= x
  {
    var x2, q2 := x[n + 1..], q[n + 1..];
    assert |x[..WordPrefix(x)]| == n;
    assert x[..n] == q[..n];
    assert |q2| <= |x2| && x2[..|q2|] == q2;
    forall k | 0 <= k < |q|
      ensures q[k] == x[k]
    {
      if k < n {
        assert q[k] == q[..n][k] && x[k] == x[..n][k];
      } else if n < k {
        assert q[k] == q2[k - n - 1] && x[k] == x2[k - n - 1];
      }
    }
  }

  lemma {:induction false} FreeSuffix(t: seq<char>, q: seq<char>, f: bool, k: nat)
    requires |q| > 0 && 0 < k <= |t| && Free(t, q, f)
    ensures Free(t[k..], q, IsWord(t[k - 1]))
    decreases k
  {
    if k > 1 {
      FreeSuffix(t[1..], q, IsWord(t[0]), k - 1);
      assert t[1..][k - 1..] == t[k..];
    }
  }

  /** Whole-word freedom survives dropping a tail that starts with a non-word character. */
  lemma {:induction false} FreePrefix(m: seq<char>, b: seq<char>, q: seq<char>, f: bool)
    requires Token(q) && NonWordStart(b) && Free(m + b, q, f)
    ensures Free(m, q, f)
    decreases |m|
  {
    if m != [] {
      assert (m + b)[1..] == m[1..] + b;
      FreePrefix(m[1..], b, q, IsWord(m[0]));
    }
  }

  lemma {:induction false} FreeAfterSpaces(a: seq<char>, t: seq<char>, q: seq<char>)
    requires Token(q) && AllSpace(a) && Free(a + t, q, false)
    ensures Free(t, q, false)
    decreases |a|
  {
    if a == [] {
      assert a + t == t;
    } else {
      assert (a + t)[1..] == a[1..] + t;
      assert !IsWord(a[0]);
      FreeAfterSpaces(a[1..], t, q);
    }
  }

  /** Trimming never creates a whole-word occurrence. */
  lemma FreeTrim(t: seq<char>, q: seq<char>)
    requires Token(q) && Free(t, q, false)
    ensures Free(Trim(t), q, false)
  {
    var a, b := TrimParts(t);
    FreeBetweenSpaces(a, Trim(t), b, q);
  }

  lemma FreeBetweenSpaces(a: seq<char>, m: seq<char>, b: seq<char>, q: seq<char>)
    requires Token(q) && AllSpace(a) && AllSpace(b) && Free(a + m + b, q, false)
    ensures Free(m, q, false)
  {
    assert a + m + b == a + (m + b);
    FreeAfterSpaces(a, m + b, q);
    if b != [] {
      assert !IsWord(b[0]);
    }
    FreePrefix(m, b, q, false);
  }

  // ---------------------------------------------------------------------------
  // Deleting a token creates no new phrase occurrence

  /** Without a match at its start, the output begins with the same first word as the input. */
  lemma OutputFirstWord(s: seq<char>, p: seq<char>, rep: seq<char>)
    requires Token(p) && WordPrefix(s) > 0 && !MatchAt(s, p, false)
    ensures var out, n := Replace(s, p, rep, false), WordPrefix(s);
            WordPrefix(out) == n && out[..n] == s[..n] &&
            out[n..] == Replace(s[n..], p, rep, true) && NonWordStart(out[n..])
  {
    var n := WordPrefix(s);
    NoMatchShape(s, p, rep);
    var out := Replace(s, p, rep, false);
    var rest := Replace(s[n..], p, rep, true);
    assert out == s[..n] + rest;
    assert out[..n] == s[..n];
    assert out[n..] == rest;
    WordPrefixOf(s[..n], rest);
  }

  /** The first word of `a + b`, when `a` is all word characters and `b` does not continue it. */
  lemma {:induction false} WordPrefixOf(a: seq<char>, b: seq<char>)
    requires AllWord(a) && NonWordStart(b)
    ensures WordPrefix(a + b) == |a|
    decreases |a|
  {
    if a == [] {
      assert a + b == b;
    } else {
      assert (a + b)[1..] == a[1..] + b;
      WordPrefixOf(a[1..], b);
    }
  }

  /** A phrase matching the output already matched the input at the same place. */
  lemma {:induction false} DeleteBackMatch(t: seq<char>, p: seq<char>, q: seq<char>)
    requires Token(p) && Phrase(q)
    requires MatchAt(Replace(t, p, [], false), q, false)
    ensures MatchAt(t, q, false)
    decreases |t|
  {
    var out := Replace(t, p, [], false);
    if t == [] || MatchAt(t, p, false) || WordPrefix(t) == 0 {
      NoWordOutput(t, p);
      assert false;
    } else if AllWord(q) {
      OutputFirstWord(t, p, []);
      WordMatch(out, q);
      WordMatch(t, q);
    } else {
      DeleteBackMatchPhrase(t, p, q);
    }
  }

  /** When the input starts with no word, or with a deleted match, the output starts with no word. */
  lemma NoWordOutput(t: seq<char>, p: seq<char>)
    requires Token(p) && (t == [] || MatchAt(t, p, false) || WordPrefix(t) == 0)
    ensures NonWordStart(Replace(t, p, [], false))
  {
    if t != [] {
      if MatchAt(t, p, false) {
        var u := t[|p|..];
        assert Replace(t, p, [], false) == [] + Replace(u, p, [], true);
        if u != [] {
          assert u[0] == t[|p|];
          assert !MatchAt(u, p, true);
        }
      } else {
        assert !IsWord(t[0]);
      }
    }
  }

  lemma {:induction false} DeleteBackMatchPhrase(t: seq<char>, p: seq<char>, q: seq<char>)
    requires Token(p) && Phrase(q) && !AllWord(q)
    requires WordPrefix(t) > 0 && !MatchAt(t, p, false)
    requires MatchAt(Replace(t, p, [], false), q, false)
    ensures MatchAt(t, q, false)
    decreases |t|, 0
  {
    var out := Replace(t, p, [], false);
    var n := WordPrefix(t);
    PhraseMatch(out, q);
    DeleteTail(t, p, n);
    var k := WordPrefix(q);
    assert |out[..WordPrefix(out)]| == n;
    assert k == n;
    var rest := Replace(t[n + 1..], p, [], false);
    assert out[n + 1..] == rest;
    assert MatchAt(rest, q[n + 1..], false);
    DeleteBackMatch(t[n + 1..], p, q[n + 1..]);
    assert t[..n] == q[..n] && t[n] == q[n];
    PhraseMatch(t, q);
  }

  /** Past the unmatched first word, deletion copies the separator and restarts after it. */
  lemma DeleteTail(t: seq<char>, p: seq<char>, n: nat)
    requires Token(p) && n == WordPrefix(t) > 0 && !MatchAt(t, p, false)
    ensures var out := Replace(t, p, [], false);
      WordPrefix(out) == n && out[..n] == t[..n] &&
      (n < |out| ==> n < |t| && out[n] == t[n] && out[n + 1..] == Replace(t[n + 1..], p, [], false))
  {
    var out := Replace(t, p, [], false);
    OutputFirstWord(t, p, []);
    if n < |out| {
      var rest := Replace(t[n..], p, [], true);
      assert t[n..] != [];
      FlagIrrelevant(t[n..], p, [], true, false);
      SliceTail(t, n);
      SliceTail(out, n);
    }
  }

  lemma SliceTail(x: seq<char>, n: nat)
    requires n < |x|
    ensures x[n..][0] == x[n] && x[n..][1..] == x[n + 1..]
  {
  }

  /**
   * Deleting the whole-word occurrences of `p` leaves none of `p`, and creates
   * no whole-word occurrence of any phrase `q` that was absent.
   */
  lemma {:induction false} FreeAfterDelete(s: seq<char>, p: seq<char>, q: seq<char>, f: bool)
    requires Token(p) && Phrase(q)
    requires q == p || Free(s, q, f)
    ensures Free(Replace(s, p, [], f), q, f)
    decreases |s|
  {
    if s == [] {
    } else if MatchAt(s, p, f) {
      var r := s[|p|..];
      assert !f;
      if q != p {
        FreeSuffix(s, q, f, |p|);
      }
      FreeAfterDelete(r, p, q, true);
      FlagIrrelevant(r, p, [], true, false);
      FreeFlagIrrelevant(Replace(r, p, [], true), q, true, false);
      assert [] + Replace(r, p, [], true) == Replace(r, p, [], true);
    } else {
      if q != p {
        FreeSuffix(s, q, f, 1);
      }
      FreeAfterDelete(s[1..], p, q, IsWord(s[0]));
      var out := Replace(s, p, [], f);
      assert out == [s[0]] + Replace(s[1..], p, [], IsWord(s[0]));
      assert out[1..] == Replace(s[1..], p, [], IsWord(s[0]));
      if !f && IsWord(s[0]) && MatchAt(out, q, f) {
        DeleteBackMatch(s, p, q);
        assert false;
      }
    }
  }

  // ---------------------------------------------------------------------------
  // Replacing a token by a word or by punctuation creates no new keyword

  lemma {:induction false} FreeWordThenRest(w: seq<char>, b: seq<char>, q: seq<char>)
    requires Token(q) && AllWord(w) && |w| > 0 && NonWordStart(b) && Free(b, q, true)
    ensures Free(w[1..] + b, q, true)
    decreases |w|
  {
    if |w| == 1 {
      assert w[1..] + b == b;
    } else {
      assert (w[1..] + b)[1..] == w[2..] + b;
      assert w[2..] == w[1..][1..];
      FreeWordThenRest(w[1..], b, q);
    }
  }

  lemma {:induction false} FreeNoWordThenRest(w: seq<char>, b: seq<char>, q: seq<char>, f: bool)
    requires Token(q) && NoWord(w) && Free(b, q, false)
    ensures Free(w + b, q, f) || (w == [] && Free(b, q, f))
    ensures w != [] ==> Free(w + b, q, f)
    decreases |w|
  {
    if w != [] {
      assert (w + b)[1..] == w[1..] + b;
      FreeNoWordThenRest(w[1..], b, q, false);
      if w[1..] == [] {
        assert w[1..] + b == b;
      }
    }
  }

  /**
   * Replacing the whole-word occurrences of `p` by a word different from the
   * keyword `q`, or by punctuation, leaves no whole-word `q` if there was none
   * or if `q` is `p` itself.
   */
  lemma {:induction false} FreeAfterReplace(s: seq<char>, p: seq<char>, rep: seq<char>, q: seq<char>, f: bool)
    requires Token(p) && Token(q) && AllWord(q)
    requires (AllWord(rep) && rep != q) || NoWord(rep)
    requires q == p || Free(s, q, f)
    ensures Free(Replace(s, p, rep, f), q, f)
    decreases |s|
  {
    if s == [] {
    } else if MatchAt(s, p, f) {
      var r := s[|p|..];
      if q != p {
        FreeSuffix(s, q, f, |p|);
      }
      FreeAfterReplace(r, p, rep, q, true);
      FreeReplacementThenRest(r, p, rep, q);
      assert !f;
    } else {
      if q != p {
        FreeSuffix(s, q, f, 1);
      }
      FreeAfterReplace(s[1..], p, rep, q, IsWord(s[0]));
      var out := Replace(s, p, rep, f);
      assert out[1..] == Replace(s[1..], p, rep, IsWord(s[0]));
      if !f && IsWord(s[0]) {
        OutputFirstWord(s, p, rep);
        WordMatch(out, q);
        WordMatch(s, q);
      }
    }
  }

  /** The replacement text followed by the rest of the scan holds no whole-word keyword. */
  lemma FreeReplacementThenRest(r: seq<char>, p: seq<char>, rep: seq<char>, q: seq<char>)
    requires Token(p) && Token(q) && AllWord(q) && NonWordStart(r)
    requires (AllWord(rep) && rep != q) || NoWord(rep)
    requires Free(Replace(r, p, rep, true), q, true)
    ensures Free(rep + Replace(r, p, rep, true), q, false)
  {
    var tail := Replace(r, p, rep, true);
    FlagIrrelevant(r, p, rep, true, false);
    FreeFlagIrrelevant(tail, q, true, false);
    if rep == [] {
      assert rep + tail == tail;
    } else if NoWord(rep) {
      FreeNoWordThenRest(rep, tail, q, false);
    } else {
      FreeWordThenTail(rep, tail, q);
    }
  }

  lemma FreeWordThenTail(w: seq<char>, tail: seq<char>, q: seq<char>)
    requires Token(q) && AllWord(q) && AllWord(w) && |w| > 0 && w != q
    requires NonWordStart(tail) && Free(tail, q, true)
    ensures Free(w + tail, q, false)
  {
    FreeWordThenRest(w, tail, q);
    WordThenTailNoMatch(w, tail, q);
    assert (w + tail)[0] == w[0] && (w + tail)[1..] == w[1..] + tail;
  }

  /** A word-only token does not match at a different whole word. */
  lemma WordThenTailNoMatch(w: seq<char>, tail: seq<char>, q: seq<char>)
    requires Token(q) && AllWord(q) && AllWord(w) && |w| > 0 && w != q && NonWordStart(tail)
    ensures !MatchAt(w + tail, q, false)
  {
    WordPrefixOf(w, tail);
    WordMatch(w + tail, q);
    assert (w + tail)[..|w|] == w;
  }

  /** Where the pattern never matches, the scan copies its input. */
  lemma {:induction false} ReplaceFree(s: seq<char>, p: seq<char>, rep: seq<char>, f: bool)
    requires |p| > 0 && Free(s, p, f)
    ensures Replace(s, p, rep, f) == s
    decreases |s|
  {
    if s != [] {
      ReplaceFree(s[1..], p, rep, IsWord(s[0]));
      assert s == [s[0]] + s[1..];
    }
  }

  /** Inside a run of word characters no token can start. */
  lemma {:induction false} FreeWithinWord(t: seq<char>, q: seq<char>)
    requires AllWord(t) && Token(q)
    ensures Free(t, q, true)
    decreases |t|
  {
    if t != [] {
      FreeWithinWord(t[1..], q);
    }
  }

  /** A single word is free of a token exactly when it is not that token. */
  lemma LoneWordFree(w: seq<char>, q: seq<char>)
    requires |w| > 0 && AllWord(w) && Token(q)
    ensures Free(w, q, false) <==> w != q
  {
    FreeWithinWord(w[1..], q);
  }

  /** A string that is exactly the pattern is replaced as a whole. */
  lemma ReplaceWholeInput(p: seq<char>, rep: seq<char>)
    requires Token(p)
    ensures ReplaceWord(p, p, rep) == rep
  {
    assert MatchAt(p, p, false);
    assert p[|p|..] == [];
    assert Replace([], p, rep, IsWord(p[|p| - 1])) == [];
    assert Replace(p, p, rep, false) == rep + Replace(p[|p|..], p, rep, IsWord(p[|p| - 1]));
  }

  /** A string shorter than the pattern holds no occurrence of it. */
  lemma {:induction false} ShortFree(t: seq<char>, q: seq<char>, f: bool)
    requires 0 < |q| && |t| < |q|
    ensures Free(t, q, f)
    decreases |t|
  {
    if t != [] {
      ShortFree(t[1..], q, IsWord(t[0]));
    }
  }

  /** A string of word characters holds no occurrence of a pattern with a non-word character. */
  lemma {:induction false} AllWordFree(t: seq<char>, q: seq<char>, f: bool)
    requires 0 < |q| && AllWord(t) && !AllWord(q)
    ensures Free(t, q, f)
    decreases |t|
  {
    if t != [] {
      var i :| 0 <= i < |q| && !IsWord(q[i]);
      if i < |t| {
        assert IsWord(t[i]);
      }
      assert !MatchAt(t, q, f);
      AllWordFree(t[1..], q, IsWord(t[0]));
    }
  }
}
