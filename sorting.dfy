/**
 * `merge`, `mergeSort` and `quickSort` of fullmark.java, on `int` arrays.
 * Only comparisons are made on the elements, so Java's 32-bit `int` is
 * modelled by Dafny's `int` without loss.
 */
module Sorting {

  predicate Sorted(s: seq<int>) {
    forall p, q :: 0 <= p < q < |s| ==> s[p] <= s[q]
  }

  /**
   * The merge of `l[i..]` and `r[j..]`: repeatedly take the smaller head, the
   * left one on a tie (`left[i] <= right[j]`), then the rest of whichever
   * sequence remains.
   */
  function MergedFrom(l: seq<int>, r: seq<int>, i: nat, j: nat): (m: seq<int>)
    requires i <= |l| && j <= |r|
    ensures |m| == |l| - i + |r| - j
    decreases |l| - i + |r| - j
  {
    if i == |l| then r[j..]
    else if j == |r| then l[i..]
    else if l[i] <= r[j] then [l[i]] + MergedFrom(l, r, i + 1, j)
    else [r[j]] + MergedFrom(l, r, i, j + 1)
  }

  function Merged(l: seq<int>, r: seq<int>): seq<int> {
    MergedFrom(l, r, 0, 0)
  }

  /** The merge holds exactly the elements of both inputs. */
  lemma {:induction false} MergedFromPermutation(l: seq<int>, r: seq<int>, i: nat, j: nat)
    requires i <= |l| && j <= |r|
    ensures multiset(MergedFrom(l, r, i, j)) == multiset(l[i..]) + multiset(r[j..])
    decreases |l| - i + |r| - j
  {
    if i == |l| {
      SuffixMultiset(l, i);
    } else if j == |r| {
      SuffixMultiset(r, j);
    } else if l[i] <= r[j] {
      MergedFromPermutation(l, r, i + 1, j);
      SuffixMultiset(l, i);
    } else {
      MergedFromPermutation(l, r, i, j + 1);
      SuffixMultiset(r, j);
    }
  }

  /** The elements of `s[i..]`: none when `i` is at the end, else `s[i]` and those of `s[i + 1..]`. */
  lemma SuffixMultiset(s: seq<int>, i: nat)
    requires i <= |s|
    ensures i == |s| ==> multiset(s[i..]) == multiset{}
    ensures i < |s| ==> multiset(s[i..]) == multiset{s[i]} + multiset(s[i + 1..])
  {
    if i < |s| {
      assert s[i..] == [s[i]] + s[i + 1..];
    }
  }

  lemma MergedPermutation(l: seq<int>, r: seq<int>)
    ensures multiset(Merged(l, r)) == multiset(l) + multiset(r)
  {
    MergedFromPermutation(l, r, 0, 0);
    assert l[0..] == l && r[0..] == r;
  }

  /** Every element of `s` from position `i` on is at least `b`. */
  predicate AtLeast(s: seq<int>, i: nat, b: int) {
    forall k :: i <= k < |s| ==> b <= s[k]
  }

  /** A bound on every element of both inputs bounds every element of the merge. */
  lemma {:induction false} MergedBounded(l: seq<int>, r: seq<int>, i: nat, j: nat, b: int)
    requires i <= |l| && j <= |r|
    requires AtLeast(l, i, b) && AtLeast(r, j, b)
    ensures AtLeast(MergedFrom(l, r, i, j), 0, b)
    decreases |l| - i + |r| - j
  {
    if i < |l| && j < |r| {
      if l[i] <= r[j] {
        MergedBounded(l, r, i + 1, j, b);
      } else {
        MergedBounded(l, r, i, j + 1, b);
      }
    }
  }

  /** A sorted sequence whose elements are all at least `h` stays sorted with `h` in front. */
  lemma SortedCons(h: int, m: seq<int>)
    requires Sorted(m) && AtLeast(m, 0, h)
    ensures Sorted([h] + m)
  {
    forall p, q | 0 <= p < q < |[h] + m|
      ensures ([h] + m)[p] <= ([h] + m)[q]
    {
      assert ([h] + m)[q] == m[q - 1];
    }
  }

  /** Merging two sorted sequences gives a sorted sequence. */
  lemma {:induction false} MergedFromSorted(l: seq<int>, r: seq<int>, i: nat, j: nat)
    requires i <= |l| && j <= |r|
    requires Sorted(l) && Sorted(r)
    ensures Sorted(MergedFrom(l, r, i, j))
    decreases |l| - i + |r| - j
  {
    if i == |l| {
      assert forall p, q :: 0 <= p < q < |r[j..]| ==> r[j..][p] == r[j + p] && r[j..][q] == r[j + q];
    } else if j == |r| {
      assert forall p, q :: 0 <= p < q < |l[i..]| ==> l[i..][p] == l[i + p] && l[i..][q] == l[i + q];
    } else if l[i] <= r[j] {
      MergedFromSorted(l, r, i + 1, j);
      MergedBounded(l, r, i + 1, j, l[i]);
      SortedCons(l[i], MergedFrom(l, r, i + 1, j));
    } else {
      MergedFromSorted(l, r, i, j + 1);
      MergedBounded(l, r, i, j + 1, r[j]);
      SortedCons(r[j], MergedFrom(l, r, i, j + 1));
    }
  }

  lemma MergedSorted(l: seq<int>, r: seq<int>)
    requires Sorted(l) && Sorted(r)
    ensures Sorted(Merged(l, r))
  {
    MergedFromSorted(l, r, 0, 0);
  }

  /**
   * `merge(array, left, right)`: writes the merge of `left` and `right` into
   * the front of `a` (the source's `array`); the rest of `a` is not touched.
   * `merge` never writes `left` or `right`, so they are taken as the
   * sequences of their contents.
   */
  method Merge(a: array<int>, left: seq<int>, right: seq<int>)
    requires |left| + |right| <= a.Length
    modifies a
    ensures forall p :: 0 <= p < |left| + |right| ==> a[p] == Merged(left, right)[p]
    ensures forall p :: |left| + |right| <= p < a.Length ==> a[p] == old(a[p])
  {
    ghost var m := Merged(left, right);
    var i, j := MergeHeads(a, left, right);
    var k := i + j;
    // The first loop stops when one side is exhausted; the rest of the merge
    // is the rest of the other side.
    PendingRest(left, right, i, j, m);
    CopyRest(a, left, i, k, m);
    k := k + (|left| - i);
    CopyRest(a, right, j, k, m);
  }

  /**
   * The first loop of `merge`: while both sides have elements, write the
   * smaller head (the left one on a tie). It stops with one side exhausted,
   * having written the first `i + j` elements of the merge.
   */
  method MergeHeads(a: array<int>, left: seq<int>, right: seq<int>) returns (i: nat, j: nat)
    requires |left| + |right| <= a.Length
    modifies a
    ensures i <= |left| && j <= |right| && (i == |left| || j == |right|)
    ensures forall p :: 0 <= p < i + j ==> a[p] == Merged(left, right)[p]
    ensures Pending(left, right, i, j, Merged(left, right))
    ensures forall p :: i + j <= p < a.Length ==> a[p] == old(a[p])
  {
    ghost var m := Merged(left, right);
    i, j := 0, 0;
    var k := 0;
    while i < |left| && j < |right|
      invariant i <= |left| && j <= |right| && k == i + j
      invariant forall p :: 0 <= p < k ==> a[p] == m[p]
      invariant Pending(left, right, i, j, m)
      invariant forall p :: k <= p < a.Length ==> a[p] == old(a[p])
    {
      if left[i] <= right[j] {
        TakeLeft(left, right, i, j, m);
        a[k] := left[i];
        i := i + 1;
      } else {
        TakeRight(left, right, i, j, m);
        a[k] := right[j];
        j := j + 1;
      }
      k := k + 1;
    }
  }

  /**
   * The second and third loops of `merge`: copy `src[i..]` to `a` from
   * position `k` on, where the merge `m` continues with exactly those elements.
   */
  method CopyRest(a: array<int>, src: seq<int>, i: int, k: int, ghost m: seq<int>)
    requires 0 <= i <= |src| && 0 <= k && k + (|src| - i) <= |m| <= a.Length
    requires forall p :: 0 <= p < k ==> a[p] == m[p]
    requires m[k..k + (|src| - i)] == src[i..]
    modifies a
    ensures forall p :: 0 <= p < k + (|src| - i) ==> a[p] == m[p]
    ensures forall p :: k + (|src| - i) <= p < a.Length ==> a[p] == old(a[p])
  {
    var from, to := i, k;
    while from < |src|
      invariant i <= from <= |src| && to == k + (from - i)
      invariant forall p :: 0 <= p < to ==> a[p] == m[p]
      invariant forall p :: to <= p < a.Length ==> a[p] == old(a[p])
    {
      assert m[to] == m[k..k + (|src| - i)][from - i];
      a[to] := src[from];
      from, to := from + 1, to + 1;
    }
  }

  /** The merge `m` continues, after its first `i + j` elements, with the merge of `l[i..]` and `r[j..]`. */
  ghost predicate Pending(l: seq<int>, r: seq<int>, i: nat, j: nat, m: seq<int>) {
    i <= |l| && j <= |r| && i + j <= |m| && m[i + j..] == MergedFrom(l, r, i, j)
  }

  /** Once one side is exhausted, the merge continues with the rest of `l`, then the rest of `r`. */
  lemma PendingRest(l: seq<int>, r: seq<int>, i: nat, j: nat, m: seq<int>)
    requires Pending(l, r, i, j, m) && (i == |l| || j == |r|)
    ensures |m| == |l| + |r|
    ensures m[i + j..i + j + (|l| - i)] == l[i..]
    ensures m[i + j + (|l| - i)..i + j + (|l| - i) + (|r| - j)] == r[j..]
  {
    if i == |l| {
      assert m[i + j..] == r[j..];
    } else {
      assert m[i + j..] == l[i..];
    }
  }

  /** `merge` takes `l[i]` when the right side is exhausted or `l[i] <= r[j]`. */
  lemma TakeLeft(l: seq<int>, r: seq<int>, i: nat, j: nat, m: seq<int>)
    requires Pending(l, r, i, j, m) && i < |l| && (j == |r| || l[i] <= r[j])
    ensures i + j < |m| && m[i + j] == l[i] && Pending(l, r, i + 1, j, m)
  {
    if j == |r| {
      assert MergedFrom(l, r, i + 1, j) == l[i + 1..];
    }
    assert m[i + j..] == [l[i]] + MergedFrom(l, r, i + 1, j);
    assert m[i + j + 1..] == m[i + j..][1..];
  }

  /** `merge` takes `r[j]` when the left side is exhausted or `r[j] < l[i]`. */
  lemma TakeRight(l: seq<int>, r: seq<int>, i: nat, j: nat, m: seq<int>)
    requires Pending(l, r, i, j, m) && j < |r| && (i == |l| || r[j] < l[i])
    ensures i + j < |m| && m[i + j] == r[j] && Pending(l, r, i, j + 1, m)
  {
    if i == |l| {
      assert MergedFrom(l, r, i, j + 1) == r[j + 1..];
    }
    assert m[i + j..] == [r[j]] + MergedFrom(l, r, i, j + 1);
    assert m[i + j + 1..] == m[i + j..][1..];
  }

  /** The elements of a sequence are those of its two parts. */
  lemma SplitMultiset(s: seq<int>, mid: int)
    requires 0 <= mid <= |s|
    ensures multiset(s) == multiset(s[..mid]) + multiset(s[mid..])
  {
    assert s == s[..mid] + s[mid..];
  }

  /** `Arrays.copyOfRange(a, from, to)`: a new array holding `a[from..to]`. */
  method CopyOfRange(a: array<int>, from: int, to: int) returns (r: array<int>)
    requires 0 <= from <= to <= a.Length
    ensures fresh(r) && r[..] == a[from..to]
  {
    r := new int[to - from];
    for i := 0 to to - from
      invariant r[..i] == a[from..from + i]
    {
      r[i] := a[from + i];
    }
  }

  /** `mergeSort(a)`: sorts in place, splitting into two fresh halves and merging them back. */
  method MergeSort(a: array<int>)
    modifies a
    ensures Sorted(a[..]) && multiset(a[..]) == multiset(old(a[..]))
    ensures a.Length < 2 ==> a[..] == old(a[..])
    decreases a.Length
  {
    if a.Length < 2 {
      return;
    }
    ghost var original := a[..];
    var left, right := Halves(a);
    MergeSort(left);
    MergeSort(right);
    var l, r := left[..], right[..];
    Merge(a, l, r);
    assert a[..] == Merged(l, r);
    SortedHalves(original, a.Length / 2, l, r);
  }

  /** The two fresh copies `mergeSort` makes: `a[..mid]` and `a[mid..]` with `mid := a.Length / 2`. */
  method Halves(a: array<int>) returns (left: array<int>, right: array<int>)
    ensures fresh(left) && fresh(right) && left != right
    ensures left[..] == a[..a.Length / 2] && right[..] == a[a.Length / 2..]
  {
    var mid := a.Length / 2;
    left := CopyOfRange(a, 0, mid);
    right := CopyOfRange(a, mid, a.Length);
    assert a[mid..a.Length] == a[mid..];
  }

  /** Merging the two sorted halves of `s` gives a sorted permutation of `s`. */
  lemma SortedHalves(s: seq<int>, mid: int, l: seq<int>, r: seq<int>)
    requires 0 <= mid <= |s|
    requires Sorted(l) && multiset(l) == multiset(s[..mid])
    requires Sorted(r) && multiset(r) == multiset(s[mid..])
    ensures Sorted(Merged(l, r)) && multiset(Merged(l, r)) == multiset(s)
  {
    MergedSorted(l, r);
    MergedPermutation(l, r);
    SplitMultiset(s, mid);
  }

  /** `s[lo..hi]` is in ascending order. */
  predicate SortedRange(s: seq<int>, lo: int, hi: int) {
    forall p, q :: lo <= p < q < hi && 0 <= p && q < |s| ==> s[p] <= s[q]
  }

  /** `s` and `t` agree outside `[lo, hi)`. */
  predicate SameOutside(s: seq<int>, t: seq<int>, lo: int, hi: int) {
    |s| == |t| && forall p :: 0 <= p < |s| && !(lo <= p < hi) ==> s[p] == t[p]
  }

  /**
   * `quickSort(array, left, right)`: nothing happens when `left > right`;
   * otherwise the segment `a[left..right]` is partitioned around `a[left]` and
   * both sides are sorted recursively. The segment ends up sorted and the
   * array a permutation of what it was, unchanged outside the segment.
   */
  method QuickSort(a: array<int>, left: int, right: int)
    requires left > right || (0 <= left && right < a.Length)
    modifies a
    ensures SortedRange(a[..], left, right + 1)
    ensures multiset(a[..]) == multiset(old(a[..]))
    ensures SameOutside(a[..], old(a[..]), left, right + 1)
    ensures left > right ==> a[..] == old(a[..])
    decreases right - left
  {
    if left > right {
      return;
    }
    ghost var s0 := a[..];
    var i := Partition(a, left, right);
    ghost var s1 := a[..];
    QuickSort(a, left, i - 1);
    ghost var s2 := a[..];
    QuickSort(a, i + 1, right);
    QuickSortJoin(s0, s1, s2, a[..], left, i, right);
  }

  /**
   * The two recursive calls of `quickSort` complete the partition: the left
   * part stays below the pivot and the right part above it, so the whole
   * segment is sorted.
   */
  lemma QuickSortJoin(s0: seq<int>, s1: seq<int>, s2: seq<int>, s3: seq<int>, left: int, i: int, right: int)
    requires 0 <= left <= i <= right < |s0|
    requires multiset(s1) == multiset(s0) && SameOutside(s1, s0, left, right + 1)
    requires forall p :: left <= p < i ==> s1[p] <= s1[i]
    requires forall p :: i < p <= right ==> s1[i] <= s1[p]
    requires SortedRange(s2, left, i) && multiset(s2) == multiset(s1) && SameOutside(s2, s1, left, i)
    requires SortedRange(s3, i + 1, right + 1) && multiset(s3) == multiset(s2)
    requires SameOutside(s3, s2, i + 1, right + 1)
    ensures SortedRange(s3, left, right + 1)
    ensures multiset(s3) == multiset(s0) && SameOutside(s3, s0, left, right + 1)
  {
    var pivot := s1[i];
    assert AtMost(s1[left..i], pivot);
    PermutedSegmentBounds(s1, s2, left, i, pivot);
    assert AtLeast(s2[i + 1..right + 1], 0, pivot);
    PermutedSegmentBounds(s2, s3, i + 1, right + 1, pivot);
    assert s3[left..i] == s2[left..i];
    SortedAroundPivot(s3, left, i, right);
  }

  /** A bound on every element of a segment survives permuting that segment. */
  lemma PermutedSegmentBounds(s: seq<int>, t: seq<int>, lo: int, hi: int, b: int)
    requires 0 <= lo <= hi <= |s|
    requires multiset(s) == multiset(t) && SameOutside(s, t, lo, hi)
    ensures AtMost(s[lo..hi], b) ==> AtMost(t[lo..hi], b)
    ensures AtLeast(s[lo..hi], 0, b) ==> AtLeast(t[lo..hi], 0, b)
  {
    SegmentPermutation(s, t, lo, hi);
    BoundedPermutation(s[lo..hi], t[lo..hi], b);
  }

  /** A sorted left part at most `s[i]` and a sorted right part at least `s[i]` make a sorted segment. */
  lemma SortedAroundPivot(s: seq<int>, left: int, i: int, right: int)
    requires 0 <= left <= i <= right < |s|
    requires SortedRange(s, left, i) && AtMost(s[left..i], s[i])
    requires SortedRange(s, i + 1, right + 1) && AtLeast(s[i + 1..right + 1], 0, s[i])
    ensures SortedRange(s, left, right + 1)
  {
    forall p, q | left <= p < q < right + 1
      ensures s[p] <= s[q]
    {
      if p < i {
        assert s[p] == s[left..i][p - left];
      }
      if i < q {
        assert s[q] == s[i + 1..right + 1][q - i - 1];
      }
    }
  }

  /** Every element of `s` is at most `b`. */
  predicate AtMost(s: seq<int>, b: int) {
    forall k :: 0 <= k < |s| ==> s[k] <= b
  }

  /** A bound on every element survives a permutation. */
  lemma BoundedPermutation(s: seq<int>, t: seq<int>, b: int)
    requires multiset(s) == multiset(t)
    ensures AtMost(s, b) ==> AtMost(t, b)
    ensures AtLeast(s, 0, b) ==> AtLeast(t, 0, b)
  {
    forall k | 0 <= k < |t|
      ensures exists q :: 0 <= q < |s| && s[q] == t[k]
    {
      assert t[k] in multiset(t);
    }
  }

  /** Two arrays that are permutations of each other and agree outside `[lo, hi)` permute that segment. */
  lemma SegmentPermutation(s: seq<int>, t: seq<int>, lo: int, hi: int)
    requires 0 <= lo <= hi <= |s|
    requires multiset(s) == multiset(t) && SameOutside(s, t, lo, hi)
    ensures multiset(s[lo..hi]) == multiset(t[lo..hi])
  {
    ThreeParts(s, lo, hi);
    ThreeParts(t, lo, hi);
    assert s[..lo] == t[..lo];
    assert s[hi..] == t[hi..];
    assert multiset(s[lo..hi]) == multiset(s) - multiset(s[..lo]) - multiset(s[hi..]);
  }

  lemma ThreeParts(s: seq<int>, lo: int, hi: int)
    requires 0 <= lo <= hi <= |s|
    ensures multiset(s) == multiset(s[..lo]) + multiset(s[lo..hi]) + multiset(s[hi..])
  {
    assert s == s[..lo] + s[lo..hi] + s[hi..];
  }

  /**
   * The partition step of `quickSort` (its lines up to placing the pivot):
   * with `base := a[left]`, `j` moves left past elements `>= base`, `i` moves
   * right past elements `<= base`, the two are swapped, until they meet; the
   * pivot is then swapped into the meeting point `i`.
   */
  method Partition(a: array<int>, left: int, right: int) returns (i: int)
    requires 0 <= left <= right < a.Length
    modifies a
    ensures left <= i <= right && a[i] == old(a[left])
    ensures forall p :: left <= p < i ==> a[p] <= a[i]
    ensures forall p :: i < p <= right ==> a[i] <= a[p]
    ensures multiset(a[..]) == multiset(old(a[..]))
    ensures forall p :: 0 <= p < a.Length && !(left <= p <= right) ==> a[p] == old(a[p])
  {
    var base := a[left];
    i := left;
    var j := right;
    while i != j
      invariant left <= i <= j <= right && a[left] == base
      invariant forall p :: left <= p <= i ==> a[p] <= base
      invariant forall p :: j < p <= right ==> base <= a[p]
      invariant multiset(a[..]) == multiset(old(a[..]))
      invariant forall p :: 0 <= p < a.Length && !(left <= p <= right) ==> a[p] == old(a[p])
      decreases j - i
    {
      j := MoveDown(a, base, i, j);
      i := MoveUp(a, base, i, j);
      Swap(a, i, j);
    }
    // `array[left] = array[i]; array[i] = base;` exchanges the two, as `a[left] == base`.
    Swap(a, left, i);
  }

  /** `while (array[j] >= base && i < j) j--;` */
  method MoveDown(a: array<int>, base: int, i: int, j: int) returns (j': int)
    requires 0 <= i <= j < a.Length
    ensures i <= j' <= j
    ensures forall p :: j' < p <= j ==> base <= a[p]
    ensures i < j' ==> a[j'] < base
  {
    j' := j;
    while a[j'] >= base && i < j'
      invariant i <= j' <= j
      invariant forall p :: j' < p <= j ==> base <= a[p]
      decreases j'
    {
      j' := j' - 1;
    }
  }

  /** `while (array[i] <= base && i < j) i++;` */
  method MoveUp(a: array<int>, base: int, i: int, j: int) returns (i': int)
    requires 0 <= i <= j < a.Length
    ensures i <= i' <= j
    ensures forall p :: i <= p < i' ==> a[p] <= base
    ensures i' < j ==> base < a[i']
  {
    i' := i;
    while a[i'] <= base && i' < j
      invariant i <= i' <= j
      invariant forall p :: i <= p < i' ==> a[p] <= base
      decreases j - i'
    {
      i' := i' + 1;
    }
  }

  /** Exchanges `a[i]` and `a[j]` through a temporary. */
  method Swap(a: array<int>, i: int, j: int)
    requires 0 <= i < a.Length && 0 <= j < a.Length
    modifies a
    ensures a[i] == old(a[j]) && a[j] == old(a[i])
    ensures forall p :: 0 <= p < a.Length && p != i && p != j ==> a[p] == old(a[p])
    ensures multiset(a[..]) == multiset(old(a[..]))
  {
    var temp := a[i];
    a[i] := a[j];
    a[j] := temp;
    assert a[..] == old(a[..])[i := old(a[j])][j := old(a[i])];
  }
}
