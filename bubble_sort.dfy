/** Bubble sort (Algorithms/examples/01_bubble_sort.c). */
module BubbleSort {
  import opened Common

  /** After a pass: the elements from m on are in final position, i.e. sorted
      and no smaller than anything before m. */
  ghost predicate SuffixPlaced(s: seq<int>, m: nat)
    requires m <= |s|
  {
    && (forall k, l :: m <= k < l < |s| ==> s[k] <= s[l])
    && (forall k, l :: 0 <= k < m <= l < |s| ==> s[k] <= s[l])
  }

  /** One pass over a[..len]: swaps each adjacent pair that is out of order,
      which carries the largest element of the prefix to position len - 1. */
  method BubblePass(a: array<int>, len: nat) returns (swapped: bool)
    requires 1 <= len <= a.Length
    modifies a
    ensures multiset(a[..len]) == multiset(old(a[..len]))
    ensures a[len..] == old(a[len..])
    ensures forall k :: 0 <= k < len ==> a[k] <= a[len - 1]
    ensures !swapped ==> Sorted(a[..len])
  {
    swapped := false;
    var j := 0;
    while j < len - 1
      invariant 0 <= j <= len - 1
      invariant multiset(a[..len]) == multiset(old(a[..len]))
      invariant a[len..] == old(a[len..])
      invariant forall k :: 0 <= k <= j ==> a[k] <= a[j]
      invariant !swapped ==> Sorted(a[..j + 1])
    {
      if a[j] > a[j + 1] {
        ghost var b := a[..];
        Swap(a, j, j + 1);
        SwapInRange(b, a[..], j, j + 1, 0, len);
        swapped := true;
      }
      j := j + 1;
    }
  }

  /** A pass over s[..len] that keeps its multiset and moves its maximum to
      the end extends the placed suffix by one. */
  lemma PassExtends(before: seq<int>, after: seq<int>, len: nat)
    requires 1 <= len <= |before| == |after|
    requires SuffixPlaced(before, len)
    requires multiset(after[..len]) == multiset(before[..len])
    requires after[len..] == before[len..]
    requires forall k :: 0 <= k < len ==> after[k] <= after[len - 1]
    ensures SuffixPlaced(after, len - 1)
  {
    forall k | len <= k < |after| ensures after[k] == before[k] {
      assert after[k] == after[len..][k - len];
    }
    forall k, l | 0 <= k < len <= l < |after| ensures after[k] <= after[l] {
      assert after[k] in multiset(before[..len]) by { assert after[k] == after[..len][k]; }
      var k' :| 0 <= k' < len && before[..len][k'] == after[k];
    }
  }

  lemma PlacedAndSortedPrefix(s: seq<int>, m: nat)
    requires m <= |s| && SuffixPlaced(s, m) && Sorted(s[..m])
    ensures Sorted(s)
  {
    forall k, l | 0 <= k < l < m ensures s[k] <= s[l] {
      assert s[k] == s[..m][k] && s[l] == s[..m][l];
    }
  }

  /** Sorts `a` in place; stops after a pass that swaps nothing. */
  method BubbleSort(a: array<int>)
    modifies a
    ensures Sorted(a[..])
    ensures multiset(a[..]) == multiset(old(a[..]))
  {
    var n := a.Length;
    var i := 0;
    while i < n - 1
      invariant 0 <= i <= n
      invariant multiset(a[..]) == multiset(old(a[..]))
      invariant SuffixPlaced(a[..], n - i)
      invariant n - i <= 1 ==> Sorted(a[..])
    {
      ghost var before := a[..];
      var swapped := BubblePass(a, n - i);
      PassExtends(before, a[..], n - i);
      PrefixPermuted(before, a[..], n - i);
      if !swapped {
        // a pass without swaps: the unsorted prefix was already in order
        PlacedAndSortedPrefix(a[..], n - i - 1);
        break;
      }
      i := i + 1;
      if n - i <= 1 {
        PlacedAndSortedPrefix(a[..], n - i);
      }
    }
  }
}
