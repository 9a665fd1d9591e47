/** Selection sort (Algorithms/examples/02_selection_sort.c). */
module SelectionSort {
  import opened Common

  /** The inner scan: the index of the first minimum of a[i..]. */
  method MinIndex(a: array<int>, i: nat) returns (m: nat)
    requires i < a.Length
    ensures i <= m < a.Length
    ensures forall k :: i <= k < a.Length ==> a[m] <= a[k]
    ensures forall k :: i <= k < m ==> a[m] < a[k]
  {
    m := i;
    var j := i + 1;
    while j < a.Length
      invariant i <= m < j <= a.Length
      invariant forall k :: i <= k < j ==> a[m] <= a[k]
      invariant forall k :: i <= k < m ==> a[m] < a[k]
    {
      if a[j] < a[m] {
        m := j;
      }
      j := j + 1;
    }
  }

  /** The first i positions hold the i smallest elements, in order. */
  ghost predicate PrefixPlaced(s: seq<int>, i: nat)
  {
    forall k, l :: 0 <= k < l < |s| && k < i ==> s[k] <= s[l]
  }

  /** Swapping the minimum of the unsorted part to its front extends the
      placed prefix by one. */
  lemma SelectExtends(before: seq<int>, after: seq<int>, i: nat, m: nat)
    requires i <= m < |before| == |after|
    requires PrefixPlaced(before, i)
    requires forall k :: i <= k < |before| ==> before[m] <= before[k]
    requires after == before[i := before[m]][m := before[i]]
    ensures PrefixPlaced(after, i + 1)
  {
    forall k, l | 0 <= k < l < |after| && k < i + 1 ensures after[k] <= after[l] {
      if k < i {
        assert after[k] == before[k];
        assert after[l] == before[l] || after[l] == before[m] || after[l] == before[i];
      }
    }
  }

  lemma PlacedIsSorted(s: seq<int>, i: nat)
    requires PrefixPlaced(s, i) && |s| <= i + 1
    ensures Sorted(s)
  {
  }

  /** Sorts `a` in place; returns the number of swaps performed. */
  method SelectionSort(a: array<int>) returns (swaps: nat)
    modifies a
    ensures Sorted(a[..])
    ensures multiset(a[..]) == multiset(old(a[..]))
    ensures swaps <= if a.Length == 0 then 0 else a.Length - 1
  {
    var n := a.Length;
    swaps := 0;
    var i := 0;
    while i < n - 1
      invariant 0 <= i <= n && (n > 0 ==> i <= n - 1)
      invariant swaps <= i
      invariant multiset(a[..]) == multiset(old(a[..]))
      invariant PrefixPlaced(a[..], i)
    {
      var m := MinIndex(a, i);
      if m != i {
        ghost var before := a[..];
        Swap(a, i, m);
        SelectExtends(before, a[..], i, m);
        swaps := swaps + 1;
      } else {
        SelectExtends(a[..], a[..], i, m);
      }
      i := i + 1;
    }
    PlacedIsSorted(a[..], i);
  }
}
