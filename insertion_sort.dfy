/** Insertion sort (Algorithms/examples/03_insertion_sort.c). */
module InsertionSort {
  import opened Common

  /** The state of the shift loop while inserting `key` (taken from orig[i]):
      s has a gap at j + 1; writing the key there restores orig's multiset,
      everything after i is untouched, the rest of s[..i + 1] is in order and
      everything after the gap is larger than the key. */
  ghost predicate ShiftInv(s: seq<int>, orig: seq<int>, i: nat, j: int, key: int)
  {
    && -1 <= j < i < |s| == |orig|
    && multiset(s[j + 1 := key]) == multiset(orig)
    && (forall k :: i < k < |s| ==> s[k] == orig[k])
    && (forall k, l :: 0 <= k < l <= i && k != j + 1 && l != j + 1 ==> s[k] <= s[l])
    && (forall k :: j + 1 < k <= i ==> key < s[k])
  }

  lemma ShiftInit(orig: seq<int>, i: nat)
    requires 1 <= i < |orig| && Sorted(orig[..i])
    ensures ShiftInv(orig, orig, i, i - 1, orig[i])
  {
    assert orig[i := orig[i]] == orig;
    forall k, l | 0 <= k < l < i ensures orig[k] <= orig[l] {
      assert orig[k] == orig[..i][k] && orig[l] == orig[..i][l];
    }
  }

  /** Shifting s[j] into the gap at j + 1 moves the gap to j. */
  lemma ShiftStep(s: seq<int>, orig: seq<int>, i: nat, j: nat, key: int)
    requires ShiftInv(s, orig, i, j, key) && s[j] > key
    ensures ShiftInv(s[j + 1 := s[j]], orig, i, j - 1, key)
  {
    var t := s[j + 1 := s[j]];
    ShiftKeepsMultiset(s, j, key);
    ShiftKeepsOrder(s, i, j);
    forall k | j < k <= i ensures key < t[k] {
      if k == j + 1 { assert t[k] == s[j]; } else { assert t[k] == s[k]; }
    }
  }

  lemma ShiftKeepsMultiset(s: seq<int>, j: nat, key: int)
    requires j + 1 < |s|
    ensures multiset(s[j + 1 := s[j]][j := key]) == multiset(s[j + 1 := key])
  {
    var u := s[j + 1 := key];
    assert s[j + 1 := s[j]][j := key] == u[j := u[j + 1]][j + 1 := u[j]];
  }

  lemma ShiftKeepsOrder(s: seq<int>, i: nat, j: nat)
    requires j < i < |s|
    requires forall k, l :: 0 <= k < l <= i && k != j + 1 && l != j + 1 ==> s[k] <= s[l]
    ensures var t := s[j + 1 := s[j]];
      forall k, l :: 0 <= k < l <= i && k != j && l != j ==> t[k] <= t[l]
  {
    var t := s[j + 1 := s[j]];
    forall k, l | 0 <= k < l <= i && k != j && l != j ensures t[k] <= t[l] {
      var k' := if k == j + 1 then j else k;
      var l' := if l == j + 1 then j else l;
      assert t[k] == s[k'] && t[l] == s[l'];
    }
  }

  /** Dropping the key into the gap leaves orig's first i + 1 elements sorted. */
  lemma FillHole(s: seq<int>, orig: seq<int>, i: nat, j: int, key: int)
    requires ShiftInv(s, orig, i, j, key) && (j >= 0 ==> s[j] <= key)
    ensures Sorted(s[j + 1 := key][..i + 1])
    ensures multiset(s[j + 1 := key]) == multiset(orig)
    ensures s[j + 1 := key][i + 1..] == orig[i + 1..]
  {
  }

  /** One iteration of the outer loop: inserts the key a[i] into the sorted
      prefix a[..i] by shifting every larger element one place to the right
      (the strict comparison leaves equal elements in front of the key).
      Returns the number of shifts. */
  method InsertKey(a: array<int>, i: nat) returns (shifts: nat)
    requires 1 <= i < a.Length
    requires Sorted(a[..i])
    modifies a
    ensures Sorted(a[..i + 1])
    ensures multiset(a[..]) == multiset(old(a[..]))
    ensures a[i + 1..] == old(a[i + 1..])
    ensures shifts <= i
  {
    var key := a[i];
    var j := i - 1;
    shifts := 0;
    ShiftInit(a[..], i);
    while j >= 0 && a[j] > key
      invariant ShiftInv(a[..], old(a[..]), i, j, key)
      invariant shifts == i - 1 - j
    {
      ShiftStep(a[..], old(a[..]), i, j, key);
      a[j + 1] := a[j];
      j := j - 1;
      shifts := shifts + 1;
    }
    FillHole(a[..], old(a[..]), i, j, key);
    a[j + 1] := key;
  }

  /** Sorts `a` in place by insertion. */
  method InsertionSort(a: array<int>)
    modifies a
    ensures Sorted(a[..])
    ensures multiset(a[..]) == multiset(old(a[..]))
  {
    var n := a.Length;
    var i := 1;
    while i < n
      invariant n == 0 || 1 <= i <= n
      invariant Sorted(a[..if n == 0 then 0 else i])
      invariant multiset(a[..]) == multiset(old(a[..]))
    {
      var shifts := InsertKey(a, i);
      i := i + 1;
    }
    assert n > 0 ==> a[..i] == a[..];
  }
}
