/** The array-backed min-heap of DataStructures/examples/08_heap.c: sift-up,
    sift-down, insert, extract_min, peek_min, build_heap and heap_sort. */
module Heap {
  import opened Common

  /** parent(i) = (i - 1) / 2 with C's truncating division: for i == 0 it
      gives 0 (the root is its own parent), for i > 0 the floor. */
  function Parent(i: nat): nat
  {
    if i == 0 then 0 else (i - 1) / 2
  }

  function LeftChild(i: nat): nat { 2 * i + 1 }

  function RightChild(i: nat): nat { 2 * i + 2 }

  /** parent inverts left_child and right_child, and moves strictly up. */
  lemma ParentOfChildren(i: nat)
    ensures Parent(LeftChild(i)) == i && Parent(RightChild(i)) == i
    ensures forall c: nat {:trigger Parent(c)} :: c > 0 && Parent(c) == i ==> c == LeftChild(i) || c == RightChild(i)
    ensures i > 0 ==> Parent(i) < i
  {
  }

  /** Every node below n whose parent is at index lo or later is no smaller
      than its parent. */
  ghost predicate HeapFrom(h: seq<int>, n: int, lo: int)
    requires n <= |h|
  {
    forall c: nat {:trigger Parent(c)} :: 0 < c < n && lo <= Parent(c) ==> h[Parent(c)] <= h[c]
  }

  /** The min-heap property of h[0..n). */
  ghost predicate IsMinHeap(h: seq<int>, n: int)
    requires n <= |h|
  {
    HeapFrom(h, n, 0)
  }

  /** The root of a min-heap is its least element. */
  lemma {:induction false} HeapMin(h: seq<int>, n: int, k: nat)
    requires n <= |h| && IsMinHeap(h, n) && k < n
    ensures h[0] <= h[k]
    decreases k
  {
    if k > 0 {
      HeapMin(h, n, Parent(k));
    }
  }

  lemma HeapRootMin(h: seq<int>, n: int)
    requires n <= |h| && IsMinHeap(h, n)
    ensures forall k :: 0 <= k < n ==> h[0] <= h[k]
  {
    forall k | 0 <= k < n ensures h[0] <= h[k] {
      HeapMin(h, n, k);
    }
  }

  /** extract_min's move of the last element to the root: the root leaves
      the multiset and only the new root may be out of order. */
  lemma LastToRoot(b: seq<int>, c: seq<int>, n: int)
    requires 1 < n <= |b| == |c| && IsMinHeap(b, n) && c == b[0 := b[n - 1]]
    ensures DownInv(c, n - 1, 0, 0)
    ensures multiset(c[..n - 1]) + multiset{b[0]} == multiset(b[..n])
  {
    assert b[..n] == [b[0]] + b[1..n - 1] + [b[n - 1]];
    assert c[..n - 1] == [b[n - 1]] + b[1..n - 1];
  }

  /** A permutation of [0, n) keeps the multiset of the first n elements. */
  lemma PermutedPrefix(c: seq<int>, b: seq<int>, n: nat)
    requires n <= |b| == |c| && PermutedWithin(c, b, 0, n)
    ensures multiset(c[..n]) == multiset(b[..n])
  {
    assert c[..n] == c[0..n] && b[..n] == b[0..n];
  }

  /** The state heapify_up keeps: every node but index is ordered under its
      parent, and index's children are no smaller than index's parent. */
  ghost predicate UpInv(h: seq<int>, n: int, index: nat)
    requires n <= |h|
  {
    && (forall c: nat {:trigger Parent(c)} :: 0 < c < n && c != index ==> h[Parent(c)] <= h[c])
    && (index > 0 ==> forall c: nat {:trigger Parent(c)} :: 0 < c < n && Parent(c) == index ==> h[Parent(index)] <= h[c])
  }

  /** One swap of heapify_up moves the disorder to the parent. */
  lemma UpStep(b: seq<int>, c: seq<int>, n: int, index: nat)
    requires 0 < index < n <= |b| == |c| && UpInv(b, n, index) && b[Parent(index)] > b[index]
    requires c == b[Parent(index) := b[index]][index := b[Parent(index)]]
    ensures UpInv(c, n, Parent(index))
  {
  }

  /** heapify_up stops at the root or under a parent no larger: a heap. */
  lemma UpDone(h: seq<int>, n: int, index: nat)
    requires index < n <= |h| && UpInv(h, n, index)
    requires index == 0 || h[Parent(index)] <= h[index]
    ensures IsMinHeap(h, n)
  {
  }

  /** Writing v just past a heap of n - 1 elements leaves only the new
      node possibly out of order. */
  lemma AppendUp(b: seq<int>, h: seq<int>, n: int, v: int)
    requires 0 < n <= |b| == |h| && IsMinHeap(b, n - 1) && h == b[n - 1 := v]
    ensures UpInv(h, n, n - 1) && h[..n] == b[..n - 1] + [v]
  {
    assert forall c: nat {:trigger Parent(c)} :: 0 < c < n ==> Parent(c) < c;
  }

  /** The state heapify_down keeps for the nodes whose parent is at lo or
      later: all are ordered except the children of index, and those
      children are no smaller than index's parent. */
  ghost predicate DownInv(h: seq<int>, n: int, lo: int, index: nat)
    requires n <= |h|
  {
    && (forall c: nat {:trigger Parent(c)} :: 0 < c < n && lo <= Parent(c) && Parent(c) != index ==> h[Parent(c)] <= h[c])
    && (index > 0 && lo <= Parent(index) ==>
          forall c: nat {:trigger Parent(c)} :: 0 < c < n && Parent(c) == index ==> h[Parent(index)] <= h[c])
  }

  /** One swap of heapify_down with the smallest child s moves the
      disorder down to s. */
  lemma DownStep(b: seq<int>, c: seq<int>, n: int, lo: int, index: nat, s: nat)
    requires index < s < n <= |b| == |c| && lo <= index && Parent(s) == index && DownInv(b, n, lo, index)
    requires b[s] < b[index] && forall x: nat :: 0 < x < n && Parent(x) == index ==> b[s] <= b[x]
    requires c == b[index := b[s]][s := b[index]]
    ensures DownInv(c, n, lo, s)
  {
  }

  /** heapify_down stops when index is no larger than its children. */
  lemma DownDone(h: seq<int>, n: int, lo: int, index: nat)
    requires n <= |h| && lo <= index && DownInv(h, n, lo, index)
    requires LeftChild(index) < n ==> h[index] <= h[LeftChild(index)]
    requires RightChild(index) < n ==> h[index] <= h[RightChild(index)]
    ensures HeapFrom(h, n, lo)
  {
    ParentOfChildren(index);
  }

  /** Nodes past the last parent have no children: any h is a heap from n / 2. */
  lemma LeavesHeap(h: seq<int>, n: int)
    requires 0 <= n <= |h|
    ensures HeapFrom(h, n, n / 2)
  {
  }

  /** A MinHeap: array of capacity slots whose first size hold the heap. */
  class MinHeap {
    const arr: array<int>
    const capacity: int
    var size: int

    ghost predicate Valid()
      reads this
    {
      arr.Length == capacity && 0 <= size <= capacity
    }

    /** The heap's elements. */
    ghost function Elements(): seq<int>
      reads this, arr
      requires Valid()
    {
      arr[..size]
    }

    /** create_heap: an empty heap of the given capacity. */
    constructor (cap: nat)
      ensures Valid() && capacity == cap && size == 0 && fresh(arr)
    {
      arr := new int[cap];
      capacity := cap;
      size := 0;
    }

    /** heapify_up: swaps the value at index up while its parent is larger. */
    method HeapifyUp(index0: nat)
      requires Valid() && index0 < size && UpInv(arr[..], size, index0)
      modifies arr
      ensures IsMinHeap(arr[..], size) && PermutedWithin(arr[..], old(arr[..]), 0, size)
    {
      var index: nat := index0;
      while index > 0 && arr[Parent(index)] > arr[index]
        invariant index < size && UpInv(arr[..], size, index)
        invariant PermutedWithin(arr[..], old(arr[..]), 0, size)
        decreases index
      {
        ghost var b := arr[..];
        Swap(arr, Parent(index), index);
        assert arr[..] == b[Parent(index) := b[index]][index := b[Parent(index)]];
        SwapInRange(b, arr[..], Parent(index), index, 0, size);
        PermutedWithinTrans(old(arr[..]), b, arr[..], 0, size);
        UpStep(b, arr[..], size, index);
        index := Parent(index);
      }
      UpDone(arr[..], size, index);
    }

    /** heapify_down: swaps the value at index with its smaller child while
        that child is smaller, then continues from the child. Only
        arr[index..size) is permuted; the heap property is restored for
        every node whose parent is at lo or later. */
    method HeapifyDown(index: nat, ghost lo: nat)
      requires Valid() && lo <= index < size && DownInv(arr[..], size, lo, index)
      modifies arr
      ensures HeapFrom(arr[..], size, lo) && PermutedWithin(arr[..], old(arr[..]), index, size)
      decreases size - index
    {
      var smallest := index;
      var left := LeftChild(index);
      var right := RightChild(index);
      if left < size && arr[left] < arr[smallest] {
        smallest := left;
      }
      if right < size && arr[right] < arr[smallest] {
        smallest := right;
      }
      if smallest != index {
        ghost var b := arr[..];
        SwapDown(index, smallest, lo);
        ghost var c := arr[..];
        HeapifyDown(smallest, lo);
        WidenPermuted(arr[..], c, smallest, size, index, size);
        PermutedWithinTrans(b, c, arr[..], index, size);
      } else {
        DownDone(arr[..], size, lo, index);
      }
    }

    /** The swap of one heapify_down step: index with its smallest child. */
    method SwapDown(index: nat, smallest: nat, ghost lo: nat)
      requires Valid() && lo <= index < smallest < size && DownInv(arr[..], size, lo, index)
      requires smallest == LeftChild(index) || smallest == RightChild(index)
      requires arr[smallest] < arr[index]
      requires LeftChild(index) < size ==> arr[smallest] <= arr[LeftChild(index)]
      requires RightChild(index) < size ==> arr[smallest] <= arr[RightChild(index)]
      modifies arr
      ensures DownInv(arr[..], size, lo, smallest) && PermutedWithin(arr[..], old(arr[..]), index, size)
    {
      ParentOfChildren(index);
      ghost var b := arr[..];
      Swap(arr, index, smallest);
      assert arr[..] == b[index := b[smallest]][smallest := b[index]];
      SwapInRange(b, arr[..], index, smallest, index, size);
      DownStep(b, arr[..], size, lo, index, smallest);
    }

    /** insert: a full heap is left as it is; otherwise value is appended
        and sifted up. */
    method Insert(value: int)
      requires Valid() && IsMinHeap(arr[..], size)
      modifies this, arr
      ensures Valid() && IsMinHeap(arr[..], size)
      ensures old(size) == capacity ==> size == old(size) && arr[..] == old(arr[..])
      ensures old(size) < capacity ==>
        size == old(size) + 1 && multiset(arr[..size]) == multiset(old(arr[..size])) + multiset{value}
    {
      if size == capacity {
        return;
      }
      ghost var b := arr[..];
      arr[size] := value;
      size := size + 1;
      AppendUp(b, arr[..], size, value);
      HeapifyUp(size - 1);
      assert arr[..size] == arr[..][0..size];
    }

    /** extract_min: -1 from an empty heap, which is left as it is;
        otherwise the root, the least element, is returned and the last
        element takes its place and is sifted down. */
    method ExtractMin() returns (r: int)
      requires Valid() && IsMinHeap(arr[..], size)
      modifies this, arr
      ensures Valid() && IsMinHeap(arr[..], size)
      ensures old(size) == 0 ==> r == -1 && size == 0 && arr[..] == old(arr[..])
      ensures old(size) > 0 ==>
        && size == old(size) - 1 && r == old(arr[0])
        && (forall k :: 0 <= k < old(size) ==> r <= old(arr[k]))
        && multiset(arr[..size]) + multiset{r} == multiset(old(arr[..size]))
    {
      if size == 0 {
        return -1;
      }
      HeapRootMin(arr[..], size);
      if size == 1 {
        size := size - 1;
        return arr[0];
      }
      ghost var b := arr[..];
      var root := arr[0];
      arr[0] := arr[size - 1];
      size := size - 1;
      ghost var c := arr[..];
      LastToRoot(b, c, size + 1);
      HeapifyDown(0, 0);
      PermutedPrefix(arr[..], c, size);
      return root;
    }

    /** peek_min: -1 for an empty heap, otherwise the least element. */
    function PeekMin(): (r: int)
      reads this, arr
      requires Valid()
      ensures size == 0 ==> r == -1
      ensures size > 0 && IsMinHeap(arr[..], size) ==>
        r in arr[..size] && forall k :: 0 <= k < size ==> r <= arr[k]
    {
      if size == 0 then -1
      else
        assert IsMinHeap(arr[..], size) ==> forall k :: 0 <= k < size ==> arr[0] <= arr[k] by {
          if IsMinHeap(arr[..], size) {
            HeapRootMin(arr[..], size);
          }
        }
        arr[0]
    }

    /** build_heap: copies input[0..n) into the heap and sifts down every
        parent from n / 2 - 1 back to the root. */
    method BuildHeap(input: array<int>, n: nat)
      requires Valid() && n <= capacity && n <= input.Length && input != arr
      modifies this, arr
      ensures Valid() && size == n && IsMinHeap(arr[..], size)
      ensures multiset(arr[..size]) == multiset(input[..n])
    {
      size := n;
      for i := 0 to n
        invariant Valid() && size == n && arr[..i] == input[..i]
      {
        arr[i] := input[i];
      }
      LeavesHeap(arr[..], n);
      var i := n / 2 - 1;
      while i >= 0
        invariant Valid() && size == n && -1 <= i < n
        invariant HeapFrom(arr[..], n, i + 1)
        invariant multiset(arr[..n]) == multiset(input[..n])
      {
        ghost var b := arr[..];
        HeapifyDown(i, i);
        WidenPermuted(arr[..], b, i, n, 0, n);
        i := i - 1;
      }
    }
  }

  /** heap_sort: builds a heap of arr[0..n) and extracts the minimum n times
      into arr[0], arr[1], ...: arr[0..n) ends sorted ascending and holds
      the same elements. */
  method HeapSort(a: array<int>, n: nat)
    requires n <= a.Length
    modifies a
    ensures Sorted(a[..n]) && multiset(a[..n]) == multiset(old(a[..n])) && a[n..] == old(a[n..])
  {
    var heap := new MinHeap(n);
    heap.BuildHeap(a, n);
    ghost var input := a[..n];
    for i := 0 to n
      invariant heap.Valid() && heap.size == n - i && IsMinHeap(heap.arr[..], heap.size)
      invariant Sorted(a[..i]) && a[n..] == old(a[n..])
      invariant AllBelow(a[..i], heap.arr[..heap.size])
      invariant multiset(a[..i]) + multiset(heap.arr[..heap.size]) == multiset(input)
    {
      ghost var before := heap.arr[..heap.size];
      var m := heap.ExtractMin();
      ExtractedInOrder(a[..i], m, before, heap.arr[..heap.size]);
      a[i] := m;
      assert a[..i + 1] == a[..i] + [m];
    }
    assert a[..n] == a[..n];
  }

  /** Every element of out is at most every element of rest. */
  ghost predicate AllBelow(out: seq<int>, rest: seq<int>)
  {
    forall j, k :: 0 <= j < |out| && 0 <= k < |rest| ==> out[j] <= rest[k]
  }

  /** Appending the minimum m of what the heap held keeps the output
      sorted and no larger than anything still in the heap. */
  lemma ExtractedInOrder(out: seq<int>, m: int, before: seq<int>, after: seq<int>)
    requires Sorted(out) && AllBelow(out, before)
    requires forall k :: 0 <= k < |before| ==> m <= before[k]
    requires multiset(after) + multiset{m} == multiset(before)
    ensures Sorted(out + [m]) && AllBelow(out + [m], after)
  {
    assert m in multiset(before);
    forall j, k | 0 <= j <= |out| && 0 <= k < |after| ensures (out + [m])[j] <= after[k] {
      assert after[k] in multiset(before);
    }
  }
}
