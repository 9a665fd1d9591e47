/** Quick sort with the Lomuto partition (Algorithms/examples/05_quick_sort.c). */
module QuickSort {
  import opened Common

  /** The loop state of partition: s[low..i] (inclusive) holds elements
      below the pivot, s[i+1..j-1] elements at least the pivot. */
  ghost predicate Split(s: seq<int>, low: int, i: int, j: int, pivot: int)
    requires 0 <= low && low - 1 <= i < j <= |s|
  {
    (forall k :: low <= k <= i ==> s[k] < pivot) &&
    (forall k :: i < k < j ==> s[k] >= pivot)
  }

  /** An element below the pivot is swapped to position i + 1. */
  lemma SplitSwap(a0: seq<int>, b: seq<int>, c: seq<int>, low: nat, i: int, j: int, high: nat, pivot: int)
    requires low - 1 <= i < j < high < |a0| == |b| == |c|
    requires Split(b, low, i, j, pivot) && b[j] < pivot
    requires PermutedWithin(b, a0, low, high + 1)
    requires c[i + 1] == b[j] && c[j] == b[i + 1]
    requires forall k :: 0 <= k < |b| && k != i + 1 && k != j ==> c[k] == b[k]
    ensures Split(c, low, i + 1, j + 1, pivot)
    ensures PermutedWithin(c, a0, low, high + 1)
  {
    SwapInRange(b, c, i + 1, j, low, high + 1);
    PermutedWithinTrans(a0, b, c, low, high + 1);
  }

  /** An element at least the pivot stays where it is. */
  lemma SplitSkip(b: seq<int>, low: int, i: int, j: int, pivot: int)
    requires 0 <= low && low - 1 <= i < j < |b|
    requires Split(b, low, i, j, pivot) && b[j] >= pivot
    ensures Split(b, low, i, j + 1, pivot)
  {
  }

  /** The loop of partition: scans a[low..high-1] and swaps every
      element below the pivot a[high] to the front; returns the last
      index i of the smaller elements (low - 1 if there are none). */
  method PartitionScan(a: array<int>, low: nat, high: nat) returns (i: int)
    requires low <= high < a.Length
    modifies a
    ensures low - 1 <= i < high && a[high] == old(a[high])
    ensures Split(a[..], low, i, high, a[high])
    ensures PermutedWithin(a[..], old(a[..]), low, high + 1)
  {
    var pivot := a[high];
    i := low - 1;
    ghost var a0 := a[..];
    for j := low to high
      invariant low - 1 <= i < j && a[high] == pivot
      invariant Split(a[..], low, i, j, pivot)
      invariant PermutedWithin(a[..], a0, low, high + 1)
    {
      if a[j] < pivot {
        ghost var b := a[..];
        Swap(a, i + 1, j);
        SplitSwap(a0, b, a[..], low, i, j, high, pivot);
        i := i + 1;
      } else {
        SplitSkip(a[..], low, i, j, pivot);
      }
    }
  }

  /** partition: places the pivot a[high] at its final position pi, with
      smaller elements before it and the others after it, by swaps inside
      a[low..high]. */
  method Partition(a: array<int>, low: nat, high: nat) returns (pi: nat)
    requires low <= high < a.Length
    modifies a
    ensures low <= pi <= high && a[pi] == old(a[high])
    ensures forall k :: low <= k < pi ==> a[k] < a[pi]
    ensures forall k :: pi < k <= high ==> a[k] >= a[pi]
    ensures PermutedWithin(a[..], old(a[..]), low, high + 1)
  {
    ghost var a0 := a[..];
    var pivot := a[high];
    var i := PartitionScan(a, low, high);
    ghost var b := a[..];
    Swap(a, i + 1, high);
    SwapInRange(b, a[..], i + 1, high, low, high + 1);
    PermutedWithinTrans(a0, b, a[..], low, high + 1);
    PivotPlaced(b, a[..], low, i, high, pivot);
    pi := i + 1;
  }

  /** The final swap of partition puts the pivot between the two parts. */
  lemma PivotPlaced(b: seq<int>, c: seq<int>, low: int, i: int, high: int, pivot: int)
    requires 0 <= low && low - 1 <= i < high < |b| == |c|
    requires Split(b, low, i, high, pivot) && b[high] == pivot
    requires c[i + 1] == b[high] && c[high] == b[i + 1]
    requires forall k :: 0 <= k < |b| && k != i + 1 && k != high ==> c[k] == b[k]
    ensures c[i + 1] == pivot
    ensures forall k :: low <= k < i + 1 ==> c[k] < pivot
    ensures forall k :: i + 1 < k <= high ==> c[k] >= pivot
  {
    forall k | i + 1 < k <= high ensures c[k] >= pivot {
      if k == high { assert c[k] == b[i + 1]; }
    }
  }

  /** A bound on every element of a range survives a permutation of it. */
  lemma BelowPermuted(x: seq<int>, y: seq<int>, p: int)
    requires multiset(x) == multiset(y) && forall k :: 0 <= k < |x| ==> x[k] < p
    ensures forall k :: 0 <= k < |y| ==> y[k] < p
  {
    forall k | 0 <= k < |y| ensures y[k] < p {
      assert y[k] in multiset(x);
      var m :| 0 <= m < |x| && x[m] == y[k];
    }
  }

  lemma AtLeastPermuted(x: seq<int>, y: seq<int>, p: int)
    requires multiset(x) == multiset(y) && forall k :: 0 <= k < |x| ==> x[k] >= p
    ensures forall k :: 0 <= k < |y| ==> y[k] >= p
  {
    forall k | 0 <= k < |y| ensures y[k] >= p {
      assert y[k] in multiset(x);
      var m :| 0 <= m < |x| && x[m] == y[k];
    }
  }

  /** Two sorted runs around a pivot, smaller elements first, make a sorted
      sequence. */
  lemma SortedAroundPivot(l: seq<int>, p: int, r: seq<int>)
    requires Sorted(l) && Sorted(r)
    requires forall k :: 0 <= k < |l| ==> l[k] < p
    requires forall k :: 0 <= k < |r| ==> r[k] >= p
    ensures Sorted(l + [p] + r)
  {
    var s := l + [p] + r;
    forall i, j | 0 <= i < j < |s| ensures s[i] <= s[j] {
      if j < |l| { assert s[i] == l[i] && s[j] == l[j]; }
      else if i > |l| { assert s[i] == r[i - |l| - 1] && s[j] == r[j - |l| - 1]; }
      else if i < |l| { assert s[i] == l[i]; if j > |l| { assert s[j] == r[j - |l| - 1]; } }
      else { assert s[j] == r[j - |l| - 1]; }
    }
  }

  /* The glue of one recursive step of quick_sort_recursive. s1 is the array
     after partition (pivot at pi), s2 after sorting the left part, s3 after
     sorting the right part. */

  /** The whole range is sorted. */
  lemma PartsSorted(s1: seq<int>, s2: seq<int>, s3: seq<int>, low: nat, pi: nat, high: nat)
    requires low <= pi <= high < |s1| == |s2| == |s3|
    requires forall k :: low <= k < pi ==> s1[k] < s1[pi]
    requires forall k :: pi < k <= high ==> s1[k] >= s1[pi]
    requires Sorted(s2[low..pi]) && PermutedWithin(s2, s1, low, pi)
    requires Sorted(s3[pi + 1..high + 1]) && PermutedWithin(s3, s2, pi + 1, high + 1)
    ensures Sorted(s3[low..high + 1])
  {
    var p := s1[pi];
    var l, r := s3[low..pi], s3[pi + 1..high + 1];
    assert l == s2[low..pi] by { SliceOfPrefix(s3, s2, low, pi, pi + 1); }
    assert s3[pi] == p by { assert s3[pi] == s3[..pi + 1][pi]; assert s2[pi] == s2[pi..][0]; }
    assert s2[pi + 1..high + 1] == s1[pi + 1..high + 1] by { SliceOfSuffix(s2, s1, pi + 1, high + 1, pi); }
    var l1, r1 := s1[low..pi], s1[pi + 1..high + 1];
    forall k | 0 <= k < |l1| ensures l1[k] < p { assert l1[k] == s1[low + k]; }
    BelowPermuted(l1, l, p);
    forall k | 0 <= k < |r1| ensures r1[k] >= p { assert r1[k] == s1[pi + 1 + k]; }
    AtLeastPermuted(r1, r, p);
    SortedAroundPivot(l, p, r);
    assert s3[low..high + 1] == l + [p] + r;
  }

  /** The whole range is a permutation of the range after partition, and
      nothing outside it changes. */
  lemma PartsPermuted(s1: seq<int>, s2: seq<int>, s3: seq<int>, low: nat, pi: nat, high: nat)
    requires low <= pi <= high < |s1| == |s2| == |s3|
    requires PermutedWithin(s2, s1, low, pi) && PermutedWithin(s3, s2, pi + 1, high + 1)
    ensures PermutedWithin(s3, s1, low, high + 1)
  {
    WidenPermuted(s2, s1, low, pi, low, high + 1);
    WidenPermuted(s3, s2, pi + 1, high + 1, low, high + 1);
    PermutedWithinTrans(s1, s2, s3, low, high + 1);
  }

  /** One recursive step: partition followed by sorting both sides sorts
      and permutes the range s0[low..high]. */
  lemma RecursionStep(s0: seq<int>, s1: seq<int>, s2: seq<int>, s3: seq<int>, low: nat, pi: nat, high: nat)
    requires low <= pi <= high < |s0| == |s1| == |s2| == |s3|
    requires PermutedWithin(s1, s0, low, high + 1)
    requires forall k :: low <= k < pi ==> s1[k] < s1[pi]
    requires forall k :: pi < k <= high ==> s1[k] >= s1[pi]
    requires Sorted(s2[low..pi]) && PermutedWithin(s2, s1, low, pi)
    requires Sorted(s3[pi + 1..high + 1]) && PermutedWithin(s3, s2, pi + 1, high + 1)
    ensures Sorted(s3[low..high + 1]) && PermutedWithin(s3, s0, low, high + 1)
  {
    PartsSorted(s1, s2, s3, low, pi, high);
    PartsPermuted(s1, s2, s3, low, pi, high);
    PermutedWithinTrans(s0, s1, s3, low, high + 1);
  }

  /** quick_sort_recursive: sorts a[low..high] (inclusive bounds) by
      permuting that range only. A range of at most one element is left as
      it is. */
  method QuickSortRec(a: array<int>, low: int, high: int)
    requires 0 <= low <= high + 1 <= a.Length
    modifies a
    ensures Sorted(a[low..high + 1]) && PermutedWithin(a[..], old(a[..]), low, high + 1)
    decreases high - low
  {
    if low < high {
      ghost var s0 := a[..];
      var pi := Partition(a, low, high);
      ghost var s1 := a[..];
      QuickSortRec(a, low, pi as int - 1);
      ghost var s2 := a[..];
      QuickSortRec(a, pi + 1, high);
      RecursionStep(s0, s1, s2, a[..], low, pi, high);
    }
  }

  /** quick_sort: sorts the whole array. */
  method QuickSortAll(a: array<int>)
    modifies a
    ensures Sorted(a[..]) && multiset(a[..]) == multiset(old(a[..]))
  {
    QuickSortRec(a, 0, a.Length - 1);
    assert a[..] == a[0..a.Length] && old(a[..]) == old(a[..])[0..a.Length];
  }
}
