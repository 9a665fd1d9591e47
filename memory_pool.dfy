/** The fixed-size object pool of MemoryManagement/examples/03_memory_pool.c.
    The buffer holds count slots of object_size bytes; the free slots are
    chained through their first word. Here a slot is named by its byte
    offset in the buffer, NULL by None, and the free list by the sequence
    of slots it links, head first. */
module MemoryPool {
  import opened Common
  import LinkedList
  import NumberTheory

  /** sizeof(PoolNode): one pointer. */
  const NODE_SIZE: nat := 8

  /** The free list after pool_create has pushed slots 0 .. count - 1 in
      turn: the last slot pushed is at the head. */
  function PushedSlots(count: nat, objectSize: nat): (r: seq<nat>)
    ensures |r| == count
    ensures forall k :: 0 <= k < count ==> r[k] == (count - 1 - k) * objectSize
  {
    if count == 0 then [] else [(count - 1) * objectSize] + PushedSlots(count - 1, objectSize)
  }

  /** With a non-zero object size the slots are distinct. */
  lemma SlotsDistinct(count: nat, objectSize: nat)
    requires objectSize > 0
    ensures LinkedList.Distinct(PushedSlots(count, objectSize))
  {
    var r := PushedSlots(count, objectSize);
    forall i, j | 0 <= i < j < count
      ensures r[i] != r[j]
    {
      MulLess(count - 1 - j, count - 1 - i, objectSize);
    }
  }

  /** Each slot is a multiple of the object size and lies inside the
      buffer of count * objectSize bytes. */
  lemma SlotsInBuffer(count: nat, objectSize: nat)
    requires objectSize > 0
    ensures forall s :: s in PushedSlots(count, objectSize) ==>
      s % objectSize == 0 && s + objectSize <= count * objectSize
  {
    var r := PushedSlots(count, objectSize);
    forall k | 0 <= k < count
      ensures r[k] % objectSize == 0 && r[k] + objectSize <= count * objectSize
    {
      SlotInBuffer(count, objectSize, k);
    }
  }

  lemma SlotInBuffer(count: nat, objectSize: nat, k: nat)
    requires objectSize > 0 && k < count
    ensures (count - 1 - k) * objectSize % objectSize == 0
    ensures (count - 1 - k) * objectSize + objectSize <= count * objectSize
  {
    var a: nat := count - 1 - k;
    NumberTheory.MultipleDivisible(objectSize, a);
    assert objectSize * a == a * objectSize;
    assert a * objectSize + objectSize == (a + 1) * objectSize;
    if a + 1 < count {
      MulLess(a + 1, count, objectSize);
    }
  }

  /** Scaling by a positive factor keeps strict order. */
  lemma MulLess(a: nat, b: nat, c: nat)
    requires a < b && c > 0
    ensures a * c < b * c
  {
    assert b * c == a * c + (b - a) * c;
  }

  /** Pool: the slot size, the slot count, the free list and its length. */
  class Pool {
    const objectSize: nat
    const totalCount: nat
    var freeList: seq<nat>
    var freeCount: nat

    ghost predicate Valid()
      reads this
    {
      objectSize >= NODE_SIZE && freeCount == |freeList|
    }

    /** pool_create: the object size is raised to at least one pointer, and
        every slot is pushed onto the free list in turn. */
    constructor (objectSize: nat, count: nat)
      ensures Valid() && totalCount == count && freeCount == count
      ensures this.objectSize == if objectSize < NODE_SIZE then NODE_SIZE else objectSize
      ensures freeList == PushedSlots(count, this.objectSize)
      ensures LinkedList.Distinct(freeList)
      ensures forall s :: s in freeList ==> s % this.objectSize == 0 && s + this.objectSize <= count * this.objectSize
    {
      var size := if objectSize < NODE_SIZE then NODE_SIZE else objectSize;
      var list: seq<nat> := [];
      var i := 0;
      while i < count
        invariant 0 <= i <= count && list == PushedSlots(i, size)
      {
        list := [i * size] + list;
        i := i + 1;
      }
      SlotsDistinct(count, size);
      SlotsInBuffer(count, size);
      this.objectSize := size;
      totalCount := count;
      freeCount := count;
      freeList := list;
    }

    /** pool_alloc: None when the list is empty; otherwise the head slot is
        unlinked and returned. */
    method Alloc() returns (ptr: Option<nat>)
      requires Valid()
      modifies this
      ensures Valid()
      ensures old(freeList) == [] ==> ptr == None && freeList == [] && freeCount == old(freeCount)
      ensures old(freeList) != [] ==>
        ptr == Some(old(freeList)[0]) && freeList == old(freeList)[1..] && freeCount == old(freeCount) - 1
    {
      if freeList == [] {
        return None;
      }
      ptr := Some(freeList[0]);
      freeList := freeList[1..];
      freeCount := freeCount - 1;
    }

    /** pool_free: NULL is ignored; any other pointer is pushed back on the
        list, unchecked. */
    method Free(ptr: Option<nat>)
      requires Valid()
      modifies this
      ensures Valid()
      ensures ptr.None? ==> freeList == old(freeList) && freeCount == old(freeCount)
      ensures ptr.Some? ==> freeList == [ptr.value] + old(freeList) && freeCount == old(freeCount) + 1
    {
      if ptr == None {
        return;
      }
      freeList := [ptr.value] + freeList;
      freeCount := freeCount + 1;
    }
  }

  /** Handing a slot back that is not already free keeps the free list
      free of duplicates. */
  lemma FreeKeepsDistinct(list: seq<nat>, p: nat)
    requires LinkedList.Distinct(list) && p !in list
    ensures LinkedList.Distinct([p] + list)
  {
    LinkedList.DistinctInsert(list, p, 0);
    assert list[..0] + [p] + list[0..] == [p] + list;
  }
}
