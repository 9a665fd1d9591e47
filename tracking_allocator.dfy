/** The leak-tracking wrapper of MemoryManagement/examples/05_tracking_allocator.c.
    The tracker keeps a list of live allocations (newest first) and running
    totals. What malloc itself returns is a parameter of TrackedMalloc, and
    pointers are plain numbers, NULL being None. */
module TrackingAllocator {
  import opened Common

  /** One Allocation record: the block, its size and where it was made. */
  datatype Allocation = Allocation(ptr: nat, size: nat, file: string, line: int)

  /** The bytes held by the recorded allocations. */
  function SumSizes(allocs: seq<Allocation>): (total: nat)
    ensures allocs != [] ==> total >= allocs[0].size
  {
    if allocs == [] then 0 else allocs[0].size + SumSizes(allocs[1..])
  }

  /** The index of the first record of ptr, or -1. */
  function FindPtr(allocs: seq<Allocation>, ptr: nat): (r: int)
    ensures -1 <= r < |allocs|
    ensures r == -1 <==> forall k :: 0 <= k < |allocs| ==> allocs[k].ptr != ptr
    ensures r >= 0 ==> allocs[r].ptr == ptr && forall k :: 0 <= k < r ==> allocs[k].ptr != ptr
  {
    if allocs == [] then -1
    else if allocs[0].ptr == ptr then 0
    else
      var r := FindPtr(allocs[1..], ptr);
      if r == -1 then -1 else r + 1
  }

  /** The total of two lists laid end to end is the sum of their totals. */
  lemma {:induction false} SumAppend(a: seq<Allocation>, b: seq<Allocation>)
    ensures SumSizes(a + b) == SumSizes(a) + SumSizes(b)
  {
    if a != [] {
      assert (a + b)[0] == a[0] && (a + b)[1..] == a[1..] + b;
      SumAppend(a[1..], b);
    } else {
      assert a + b == b;
    }
  }

  /** Removing the record at i takes exactly its size off the total. */
  lemma SumRemove(allocs: seq<Allocation>, i: nat)
    requires i < |allocs|
    ensures SumSizes(allocs[..i] + allocs[i + 1..]) == SumSizes(allocs) - allocs[i].size
  {
    var pre, post := allocs[..i], allocs[i + 1..];
    var mid := [allocs[i]] + post;
    assert allocs == pre + mid;
    SumAppend(pre, mid);
    SumAppend(pre, post);
    assert mid[1..] == post && mid[0] == allocs[i];
    assert SumSizes(mid) == allocs[i].size + SumSizes(post);
  }

  /** MemoryTracker: the live records and the six counters. The counters
      are size_t in the source; here they are unbounded. */
  class Tracker {
    var allocations: seq<Allocation>
    var totalAllocated: nat
    var totalFreed: nat
    var currentUsage: nat
    var peakUsage: nat
    var allocationCount: nat
    var freeCount: nat

    /** The totals agree with each other and with the list. */
    ghost predicate Valid()
      reads this
    {
      && totalFreed <= totalAllocated && currentUsage == totalAllocated - totalFreed
      && peakUsage >= currentUsage
      && currentUsage == SumSizes(allocations)
      && freeCount <= allocationCount && |allocations| == allocationCount - freeCount
    }

    /** g_tracker starts zeroed. */
    constructor ()
      ensures Valid() && allocations == [] && totalAllocated == 0 && totalFreed == 0
      ensures currentUsage == 0 && peakUsage == 0 && allocationCount == 0 && freeCount == 0
    {
      allocations := [];
      totalAllocated := 0;
      totalFreed := 0;
      currentUsage := 0;
      peakUsage := 0;
      allocationCount := 0;
      freeCount := 0;
    }

    /** tracked_malloc: result is what malloc returned. A block is recorded
        at the head of the list and counted; the peak follows the current
        usage upwards. A NULL result changes nothing. */
    method TrackedMalloc(size: nat, file: string, line: int, result: Option<nat>) returns (ptr: Option<nat>)
      requires Valid()
      modifies this
      ensures Valid() && ptr == result
      ensures result.None? ==>
        && allocations == old(allocations) && totalAllocated == old(totalAllocated)
        && currentUsage == old(currentUsage) && peakUsage == old(peakUsage)
        && allocationCount == old(allocationCount)
      ensures result.Some? ==>
        && allocations == [Allocation(result.value, size, file, line)] + old(allocations)
        && totalAllocated == old(totalAllocated) + size
        && currentUsage == old(currentUsage) + size
        && allocationCount == old(allocationCount) + 1
        && peakUsage == if currentUsage > old(peakUsage) then currentUsage else old(peakUsage)
      ensures totalFreed == old(totalFreed) && freeCount == old(freeCount)
    {
      ptr := result;
      if result.Some? {
        allocations := [Allocation(result.value, size, file, line)] + allocations;
        totalAllocated := totalAllocated + size;
        currentUsage := currentUsage + size;
        allocationCount := allocationCount + 1;
        if currentUsage > peakUsage {
          peakUsage := currentUsage;
        }
      }
    }

    /** tracked_free: NULL is ignored. Otherwise the list is walked for the
        first record of ptr; if there is one it is unlinked and its size
        counted as freed. An untracked pointer only draws a warning. */
    method TrackedFree(ptr: Option<nat>, file: string, line: int)
      requires Valid()
      modifies this
      ensures Valid() && peakUsage == old(peakUsage) && totalAllocated == old(totalAllocated)
      ensures allocationCount == old(allocationCount)
      ensures ptr.None? || FindPtr(old(allocations), ptr.value) == -1 ==>
        && allocations == old(allocations) && totalFreed == old(totalFreed)
        && currentUsage == old(currentUsage) && freeCount == old(freeCount)
      ensures ptr.Some? && FindPtr(old(allocations), ptr.value) >= 0 ==>
        var i := FindPtr(old(allocations), ptr.value);
        && allocations == old(allocations)[..i] + old(allocations)[i + 1..]
        && totalFreed == old(totalFreed) + old(allocations)[i].size
        && currentUsage == old(currentUsage) - old(allocations)[i].size
        && freeCount == old(freeCount) + 1
    {
      if ptr == None {
        return;
      }
      var i := 0;
      while i < |allocations|
        invariant 0 <= i <= |allocations|
        invariant forall k :: 0 <= k < i ==> allocations[k].ptr != ptr.value
      {
        if allocations[i].ptr == ptr.value {
          var toRemove := allocations[i];
          SumRemove(allocations, i);
          allocations := allocations[..i] + allocations[i + 1..];
          totalFreed := totalFreed + toRemove.size;
          currentUsage := currentUsage - toRemove.size;
          freeCount := freeCount + 1;
          return;
        }
        i := i + 1;
      }
    }

    /** check_leaks: walks the list adding up the sizes still held. */
    method LeakedBytes() returns (totalLeaked: nat, leakCount: nat)
      requires Valid()
      ensures totalLeaked == currentUsage == totalAllocated - totalFreed
      ensures leakCount == |allocations| == allocationCount - freeCount
    {
      totalLeaked := 0;
      leakCount := 0;
      var i := 0;
      while i < |allocations|
        invariant 0 <= i <= |allocations| && leakCount == i
        invariant totalLeaked + SumSizes(allocations[i..]) == SumSizes(allocations)
      {
        assert allocations[i..][1..] == allocations[i + 1..];
        totalLeaked := totalLeaked + allocations[i].size;
        leakCount := leakCount + 1;
        i := i + 1;
      }
    }
  }
}
