/** Merge sort (Algorithms/examples/04_merge_sort.c). */
module MergeSort {
  import opened Common

  /** The merge of two sequences as the merge loop produces it: the smaller
      head goes first and the left head wins ties. */
  function MergeSeq(x: seq<int>, y: seq<int>): seq<int>
    decreases |x| + |y|
  {
    if x == [] then y
    else if y == [] then x
    else if x[0] <= y[0] then [x[0]] + MergeSeq(x[1..], y)
    else [y[0]] + MergeSeq(x, y[1..])
  }

  /** Merging keeps every element of both inputs. */
  lemma {:induction false} MergeMultiset(x: seq<int>, y: seq<int>)
    ensures multiset(MergeSeq(x, y)) == multiset(x) + multiset(y)
    decreases |x| + |y|
  {
    if x != [] && y != [] {
      if x[0] <= y[0] {
        MergeMultiset(x[1..], y);
        assert x == [x[0]] + x[1..];
        assert MergeSeq(x, y) == [x[0]] + MergeSeq(x[1..], y);
        assert multiset(x) == multiset{x[0]} + multiset(x[1..]);
      } else {
        MergeMultiset(x, y[1..]);
        assert y == [y[0]] + y[1..];
        assert MergeSeq(x, y) == [y[0]] + MergeSeq(x, y[1..]);
        assert multiset(y) == multiset{y[0]} + multiset(y[1..]);
      }
    }
  }

  /** Every element of a merge is an element of one of its inputs. */
  lemma MergeElements(x: seq<int>, y: seq<int>)
    ensures forall v :: v in MergeSeq(x, y) <==> v in x || v in y
  {
    MergeMultiset(x, y);
    assert forall v :: v in MergeSeq(x, y) <==> v in multiset(MergeSeq(x, y));
  }

  /** Merging two sorted sequences gives a sorted sequence. */
  lemma {:induction false} MergeSorted(x: seq<int>, y: seq<int>)
    requires Sorted(x) && Sorted(y)
    ensures Sorted(MergeSeq(x, y))
    decreases |x| + |y|
  {
    if x != [] && y != [] {
      var m := MergeSeq(x, y);
      if x[0] <= y[0] {
        MergeSorted(x[1..], y);
        MergeElements(x[1..], y);
        var rest := MergeSeq(x[1..], y);
        forall v | v in rest ensures x[0] <= v {
          if v in x[1..] { var k :| 0 <= k < |x[1..]| && x[1..][k] == v; assert v == x[k + 1]; }
          else { var k :| 0 <= k < |y| && y[k] == v; assert y[0] <= v; }
        }
        HeadThenSorted(x[0], rest);
      } else {
        MergeSorted(x, y[1..]);
        MergeElements(x, y[1..]);
        var rest := MergeSeq(x, y[1..]);
        forall v | v in rest ensures y[0] <= v {
          if v in y[1..] { var k :| 0 <= k < |y[1..]| && y[1..][k] == v; assert v == y[k + 1]; }
          else { var k :| 0 <= k < |x| && x[k] == v; assert x[0] <= v; }
        }
        HeadThenSorted(y[0], rest);
      }
    }
  }

  lemma HeadThenSorted(h: int, rest: seq<int>)
    requires Sorted(rest) && forall v :: v in rest ==> h <= v
    ensures Sorted([h] + rest)
  {
    var s := [h] + rest;
    forall i, j | 0 <= i < j < |s| ensures s[i] <= s[j] {
      if i == 0 { assert s[j] == rest[j - 1] && s[j] in rest; }
      else { assert s[i] == rest[i - 1] && s[j] == rest[j - 1]; }
    }
  }

  /** Copies a[lo..lo + n] into a new temporary array. */
  method CopyOut(a: array<int>, lo: nat, n: nat) returns (t: array<int>)
    requires lo + n <= a.Length
    ensures fresh(t) && t[..] == a[lo..lo + n]
  {
    t := new int[n];
    for i := 0 to n
      invariant t[..i] == a[lo..lo + i]
    {
      t[i] := a[lo + i];
    }
  }

  /** The rest of `merged`, after its first i + j elements, is the merge of
      what is left of the two runs. */
  ghost predicate MergesTo(xs: seq<int>, ys: seq<int>, i: nat, j: nat, merged: seq<int>)
  {
    i <= |xs| && j <= |ys| && i + j <= |merged| && MergeSeq(xs[i..], ys[j..]) == merged[i + j..]
  }

  /** One step of the merge loops: when the rest of the merge is
      MergeSeq(xs[i..], ys[j..]), its next element is the head of xs[i..] if
      that is no larger than the head of ys[j..] or ys is used up ... */
  lemma AdvanceLeft(xs: seq<int>, ys: seq<int>, i: nat, j: nat, merged: seq<int>)
    requires i < |xs| && j <= |ys| && (j == |ys| || xs[i] <= ys[j])
    requires MergesTo(xs, ys, i, j, merged)
    ensures i + j < |merged| && merged[i + j] == xs[i]
    ensures MergesTo(xs, ys, i + 1, j, merged)
  {
    assert xs[i..][1..] == xs[i + 1..];
    assert MergeSeq(xs[i..], ys[j..]) == [xs[i]] + MergeSeq(xs[i + 1..], ys[j..]);
    assert merged[i + j..] == [merged[i + j]] + merged[i + j + 1..];
  }

  /** ... and otherwise the head of ys[j..]. */
  lemma AdvanceRight(xs: seq<int>, ys: seq<int>, i: nat, j: nat, merged: seq<int>)
    requires i <= |xs| && j < |ys| && (i == |xs| || xs[i] > ys[j])
    requires MergesTo(xs, ys, i, j, merged)
    ensures i + j < |merged| && merged[i + j] == ys[j]
    ensures MergesTo(xs, ys, i, j + 1, merged)
  {
    assert ys[j..][1..] == ys[j + 1..];
    assert MergeSeq(xs[i..], ys[j..]) == [ys[j]] + MergeSeq(xs[i..], ys[j + 1..]);
    assert merged[i + j..] == [merged[i + j]] + merged[i + j + 1..];
  }

  /** The main merge loop: repeatedly moves the smaller head of L[i..] and
      R[j..] to a[k], until one run is used up. */
  method MergeHeads(a: array<int>, L: array<int>, R: array<int>, left: nat, ghost merged: seq<int>)
    returns (i: nat, j: nat)
    requires a != L && a != R && left + |merged| <= a.Length
    requires MergesTo(L[..], R[..], 0, 0, merged)
    modifies a
    ensures (i == L.Length || j == R.Length) && MergesTo(L[..], R[..], i, j, merged)
    ensures forall p :: left <= p < left + i + j ==> a[p] == merged[p - left]
    ensures forall p :: 0 <= p < a.Length && !(left <= p < left + i + j) ==> a[p] == old(a[p])
  {
    ghost var xs, ys := L[..], R[..];
    i, j := 0, 0;
    var k := left;
    while i < L.Length && j < R.Length
      invariant k == left + i + j && MergesTo(xs, ys, i, j, merged)
      invariant forall p :: left <= p < k ==> a[p] == merged[p - left]
      invariant forall p :: 0 <= p < a.Length && !(left <= p < k) ==> a[p] == old(a[p])
    {
      if L[i] <= R[j] {
        AdvanceLeft(xs, ys, i, j, merged);
        a[k] := L[i];
        i := i + 1;
      } else {
        AdvanceRight(xs, ys, i, j, merged);
        a[k] := R[j];
        j := j + 1;
      }
      k := k + 1;
    }
  }

  /** A drain loop: copies what is left of one run, t[from..], to a[k..];
      that is exactly what is left of the merge. */
  method Drain(a: array<int>, t: array<int>, from: nat, k: nat, ghost left: nat, ghost merged: seq<int>)
    requires a != t && from <= t.Length && left <= k && left + |merged| <= a.Length
    requires k - left <= |merged| && merged[k - left..] == t[from..]
    requires forall p :: left <= p < k ==> a[p] == merged[p - left]
    modifies a
    ensures forall p :: left <= p < left + |merged| ==> a[p] == merged[p - left]
    ensures forall p :: 0 <= p < a.Length && !(left <= p < left + |merged|) ==> a[p] == old(a[p])
  {
    var i, m := from, k;
    while i < t.Length
      invariant from <= i <= t.Length && m == k + (i - from)
      invariant merged[m - left..] == t[i..]
      invariant forall p :: left <= p < m ==> a[p] == merged[p - left]
      invariant forall p :: 0 <= p < a.Length && !(left <= p < m) ==> a[p] == old(a[p])
    {
      assert merged[m - left] == t[i] by { assert t[i..][0] == t[i]; }
      assert merged[m - left + 1..] == t[i + 1..] by { assert t[i..][1..] == t[i + 1..]; }
      a[m] := t[i];
      i, m := i + 1, m + 1;
    }
  }

  /** After the main loop one run is used up: drains the other one, which
      completes the merge in a[left..left + |merged|]. */
  method DrainRest(a: array<int>, L: array<int>, R: array<int>, i: nat, j: nat, left: nat, ghost merged: seq<int>)
    requires a != L && a != R && left + |merged| <= a.Length
    requires (i == L.Length || j == R.Length) && MergesTo(L[..], R[..], i, j, merged)
    requires forall p :: left <= p < left + i + j ==> a[p] == merged[p - left]
    modifies a
    ensures a[left..left + |merged|] == merged
    ensures forall p :: 0 <= p < a.Length && !(left <= p < left + |merged|) ==> a[p] == old(a[p])
  {
    if i < L.Length {
      assert MergeSeq(L[..][i..], R[..][j..]) == L[i..];
      Drain(a, L, i, left + i + j, left, merged);
    } else {
      assert L[..][i..] == [] && R[..][j..] == R[j..];
      Drain(a, R, j, left + i + j, left, merged);
    }
    assert a[left..left + |merged|] == merged;
  }

  /** Merges the sorted runs a[left..mid] and a[mid+1..right] (inclusive
      bounds, as in the source) through two temporary arrays. */
  method Merge(a: array<int>, left: nat, mid: nat, right: nat)
    requires left <= mid <= right < a.Length
    modifies a
    ensures a[left..right + 1] == MergeSeq(old(a[left..mid + 1]), old(a[mid + 1..right + 1]))
    ensures forall p :: 0 <= p < a.Length && !(left <= p <= right) ==> a[p] == old(a[p])
  {
    var n1 := mid - left + 1;
    var n2 := right - mid;
    var L := CopyOut(a, left, n1);
    var R := CopyOut(a, mid + 1, n2);
    assert a[left..mid + 1] == a[left..left + n1];
    ghost var xs, ys := L[..], R[..];
    ghost var merged := MergeSeq(xs, ys);
    assert xs == old(a[left..mid + 1]) && ys == old(a[mid + 1..right + 1]);
    assert MergesTo(xs, ys, 0, 0, merged) by { assert xs[0..] == xs && ys[0..] == ys; }
    MergeMultiset(xs, ys);
    assert |merged| == n1 + n2 by { assert |multiset(merged)| == |multiset(xs)| + |multiset(ys)|; }
    var i, j := MergeHeads(a, L, R, left, merged);
    DrainRest(a, L, R, i, j, left, merged);
    assert a[left..right + 1] == merged;
  }

  /* The glue of one recursive step of merge_sort_recursive, in three
     parts. s0 is the array on entry, s1 after sorting the left half, s2
     after sorting the right half, s3 after the merge. */

  /** The merged range is sorted. */
  lemma HalvesSorted(s1: seq<int>, s2: seq<int>, s3: seq<int>, left: nat, mid: nat, right: nat)
    requires left <= mid < right < |s1| == |s2| == |s3|
    requires Sorted(s1[left..mid + 1]) && s2[..mid + 1] == s1[..mid + 1]
    requires Sorted(s2[mid + 1..right + 1])
    requires s3[left..right + 1] == MergeSeq(s2[left..mid + 1], s2[mid + 1..right + 1])
    ensures Sorted(s3[left..right + 1])
  {
    SliceOfPrefix(s2, s1, left, mid + 1, mid + 1);
    MergeSorted(s2[left..mid + 1], s2[mid + 1..right + 1]);
  }

  /** The merged range is a permutation of the range on entry. */
  lemma HalvesPermuted(s0: seq<int>, s1: seq<int>, s2: seq<int>, s3: seq<int>, left: nat, mid: nat, right: nat)
    requires left <= mid < right < |s0| == |s1| == |s2| == |s3|
    requires s1[mid + 1..] == s0[mid + 1..] && multiset(s1[left..mid + 1]) == multiset(s0[left..mid + 1])
    requires s2[..mid + 1] == s1[..mid + 1] && multiset(s2[mid + 1..right + 1]) == multiset(s1[mid + 1..right + 1])
    requires s3[left..right + 1] == MergeSeq(s2[left..mid + 1], s2[mid + 1..right + 1])
    ensures multiset(s3[left..right + 1]) == multiset(s0[left..right + 1])
  {
    var x, y := s2[left..mid + 1], s2[mid + 1..right + 1];
    SliceOfPrefix(s2, s1, left, mid + 1, mid + 1);
    SliceOfSuffix(s1, s0, mid + 1, right + 1, mid + 1);
    MergeMultiset(x, y);
    JoinPermuted(s0, x, y, s3[left..right + 1], left, mid, right);
  }

  /** Nothing outside the range has changed. */
  lemma HalvesOutside(s0: seq<int>, s1: seq<int>, s2: seq<int>, s3: seq<int>, left: nat, mid: nat, right: nat)
    requires left <= mid < right < |s0| == |s1| == |s2| == |s3|
    requires s1[..left] == s0[..left] && s1[mid + 1..] == s0[mid + 1..]
    requires s2[..mid + 1] == s1[..mid + 1] && s2[right + 1..] == s1[right + 1..]
    requires forall p :: 0 <= p < |s3| && !(left <= p <= right) ==> s3[p] == s2[p]
    ensures s3[..left] == s0[..left] && s3[right + 1..] == s0[right + 1..]
  {
    SameOutside(s2, s3, left, right + 1);
    SliceOfPrefix(s2, s1, 0, left, mid + 1);
    SliceOfSuffix(s1, s0, right + 1, |s0|, mid + 1);
  }

  /** Permutations of the two halves of a range join into a permutation of
      the whole range. */
  lemma JoinPermuted(s0: seq<int>, x: seq<int>, y: seq<int>, m: seq<int>, left: nat, mid: nat, right: nat)
    requires left <= mid < right < |s0|
    requires multiset(x) == multiset(s0[left..mid + 1]) && multiset(y) == multiset(s0[mid + 1..right + 1])
    requires multiset(m) == multiset(x) + multiset(y)
    ensures multiset(m) == multiset(s0[left..right + 1])
  {
    SplitRange(s0, left, mid + 1, right + 1);
  }

  /** Elementwise agreement outside [lo, hi) as equal prefix and suffix. */
  lemma SameOutside(b: seq<int>, c: seq<int>, lo: nat, hi: nat)
    requires lo <= hi <= |b| == |c|
    requires forall p :: 0 <= p < |c| && !(lo <= p < hi) ==> c[p] == b[p]
    ensures c[..lo] == b[..lo] && c[hi..] == b[hi..]
  {
    assert forall p :: 0 <= p < lo ==> c[..lo][p] == b[..lo][p];
    assert forall p :: 0 <= p < |c| - hi ==> c[hi..][p] == c[hi + p] && b[hi..][p] == b[hi + p];
  }

  /** merge_sort_recursive: sorts a[left..right] (inclusive bounds). A
      range of at most one element is left as it is. */
  method MergeSortRec(a: array<int>, left: int, right: int)
    requires 0 <= left <= right + 1 <= a.Length
    modifies a
    ensures Sorted(a[left..right + 1])
    ensures multiset(a[left..right + 1]) == multiset(old(a[left..right + 1]))
    ensures a[..left] == old(a[..left]) && a[right + 1..] == old(a[right + 1..])
    decreases right - left
  {
    if left < right {
      var mid := left + (right - left) / 2;
      ghost var s0 := a[..];
      MergeSortRec(a, left, mid);
      ghost var s1 := a[..];
      MergeSortRec(a, mid + 1, right);
      ghost var s2 := a[..];
      Merge(a, left, mid, right);
      HalvesSorted(s1, s2, a[..], left, mid, right);
      HalvesPermuted(s0, s1, s2, a[..], left, mid, right);
      HalvesOutside(s0, s1, s2, a[..], left, mid, right);
    }
  }

  /** merge_sort: sorts the whole array. */
  method MergeSortAll(a: array<int>)
    modifies a
    ensures Sorted(a[..]) && multiset(a[..]) == multiset(old(a[..]))
  {
    assert a[..] == a[0..a.Length];
    MergeSortRec(a, 0, a.Length - 1);
    assert a[..] == a[0..a.Length];
  }
}
