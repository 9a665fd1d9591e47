/** Searching (Algorithms/examples/06_binary_search.c): iterative and
    recursive binary search, first-occurrence binary search and linear
    search over the first n elements of an array. */
module BinarySearch {
  import opened Common

  /** The reference definition: the first index of t in s, or -1. */
  function IndexOf(s: seq<int>, t: int): (r: int)
    ensures -1 <= r < |s|
    ensures r == -1 <==> t !in s
    ensures 0 <= r ==> s[r] == t && t !in s[..r]
  {
    if s == [] then -1
    else if s[0] == t then 0
    else
      var r := IndexOf(s[1..], t);
      assert s == [s[0]] + s[1..];
      if r == -1 then -1
      else
        assert s[..r + 1] == [s[0]] + s[1..][..r];
        r + 1
  }

  /** The midpoint left + (right - left) / 2: it lies in [left, right],
      and neither right - left nor the sum leaves the range of a C int. */
  function Mid(left: int, right: int): (m: int)
    requires 0 <= left <= right <= INT_MAX
    ensures left <= m <= right
    ensures IntRange(right - left) && IntRange(m)
    ensures m - left == (right - left) / 2
  {
    left + CDiv(right - left, 2)
  }

  /** In a sorted sequence, everything left of an element below t and
      right of an element above t is not t. */
  lemma SortedExcludes(s: seq<int>, m: int, t: int)
    requires Sorted(s) && 0 <= m < |s|
    ensures s[m] < t ==> forall k :: 0 <= k <= m ==> s[k] != t
    ensures s[m] > t ==> forall k :: m <= k < |s| ==> s[k] != t
  {
  }

  /** binary_search: the index of some occurrence of target in the sorted
      a[..n], or -1 exactly when target does not occur there. */
  method Search(a: array<int>, n: nat, target: int) returns (r: int)
    requires n <= a.Length && n <= INT_MAX && Sorted(a[..n])
    ensures r == -1 <==> target !in a[..n]
    ensures r != -1 ==> 0 <= r < n && a[r] == target
  {
    var left, right := 0, n - 1;
    while left <= right
      invariant 0 <= left <= n && -1 <= right < n && left <= right + 1
      invariant forall k :: 0 <= k < left ==> a[k] != target
      invariant forall k :: right < k < n ==> a[k] != target
      decreases right - left
    {
      var mid := Mid(left, right);
      if a[mid] == target {
        return mid;
      }
      SortedExcludes(a[..n], mid, target);
      if a[mid] < target {
        left := mid + 1;
      } else {
        right := mid - 1;
      }
    }
    r := -1;
  }

  /** binary_search_recursive over a[left..right] (inclusive bounds): an
      index in that range holding target, or -1; on a sorted sequence -1
      means target is not in the range. */
  function SearchRec(s: seq<int>, left: int, right: int, target: int): (r: int)
    requires 0 <= left && right < |s| && right <= INT_MAX
    ensures r == -1 || (left <= r <= right && s[r] == target)
    ensures Sorted(s) && r == -1 ==> forall k :: left <= k <= right ==> s[k] != target
    decreases right - left
  {
    if left > right then -1
    else
      var mid := Mid(left, right);
      if s[mid] == target then mid
      else if s[mid] < target then
        SortedImpl(s, mid, target);
        SearchRec(s, mid + 1, right, target)
      else
        SortedImpl(s, mid, target);
        SearchRec(s, left, mid - 1, target)
  }

  /** The exclusion facts of SortedExcludes, for use under a Sorted
      hypothesis. */
  lemma SortedImpl(s: seq<int>, m: int, t: int)
    requires 0 <= m < |s|
    ensures Sorted(s) && s[m] < t ==> forall k :: 0 <= k <= m ==> s[k] != t
    ensures Sorted(s) && s[m] > t ==> forall k :: m <= k < |s| ==> s[k] != t
  {
    if Sorted(s) { SortedExcludes(s, m, t); }
  }

  /** Called on the whole array, the recursive search meets the same
      postcondition as the iterative one. */
  lemma SearchRecWhole(s: seq<int>, target: int)
    requires Sorted(s) && |s| <= INT_MAX
    ensures var r := SearchRec(s, 0, |s| - 1, target);
      (r == -1 <==> target !in s) && (r != -1 ==> 0 <= r < |s| && s[r] == target)
  {
  }

  /** binary_search_first: on sorted a[..n], the least index holding
      target, or -1. */
  method SearchFirst(a: array<int>, n: nat, target: int) returns (r: int)
    requires n <= a.Length && n <= INT_MAX && Sorted(a[..n])
    ensures r == IndexOf(a[..n], target)
  {
    var left, right := 0, n - 1;
    r := -1;
    while left <= right
      invariant 0 <= left <= n && -1 <= right < n && left <= right + 1
      invariant forall k :: 0 <= k < left ==> a[k] != target
      invariant r == -1 ==> forall k :: right < k < n ==> a[k] != target
      invariant r != -1 ==> right < r < n && a[r] == target
      invariant r != -1 ==> forall k :: right < k < r ==> a[k] != target
      decreases right - left
    {
      var mid := Mid(left, right);
      SortedExcludes(a[..n], mid, target);
      if a[mid] == target {
        r := mid;
        right := mid - 1;
      } else if a[mid] < target {
        left := mid + 1;
      } else {
        right := mid - 1;
      }
    }
    IndexOfUnique(a[..n], target, r);
  }

  /** IndexOf is the only value with its two properties. */
  lemma IndexOfUnique(s: seq<int>, t: int, r: int)
    requires r == -1 ==> t !in s
    requires r != -1 ==> 0 <= r < |s| && s[r] == t && forall k :: 0 <= k < r ==> s[k] != t
    ensures r == IndexOf(s, t)
  {
    var i := IndexOf(s, t);
    assert i != -1 ==> forall k :: 0 <= k < i ==> s[..i][k] != t;
  }

  /** linear_search: the first index of target in a[..n], or -1. */
  method LinearSearch(a: array<int>, n: nat, target: int) returns (r: int)
    requires n <= a.Length
    ensures r == IndexOf(a[..n], target)
  {
    for i := 0 to n
      invariant forall k :: 0 <= k < i ==> a[k] != target
    {
      if a[i] == target {
        IndexOfUnique(a[..n], target, i);
        return i;
      }
    }
    IndexOfUnique(a[..n], target, -1);
    r := -1;
  }
}
