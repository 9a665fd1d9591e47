/** The LIFO allocator of MemoryManagement/examples/04_stack_allocator.c.
    Each allocation is preceded in the buffer by a 16-byte header recording
    where the allocation starts and how many bytes it took. Pointers are
    byte offsets into the buffer, NULL is None, and sizes are 64-bit
    size_t values. */
module StackAllocator {
  import opened Common

  /** sizeof(StackHeader): two size_t fields. */
  const HEADER_SIZE: nat := 16

  /** A StackHeader: the allocation's offset and its total size. */
  datatype Header = Header(offset: nat, size: nat)

  /** The total size stack_alloc computes as written: header plus request,
      then rounded up to a multiple of 8, each step modulo 2^64. */
  function TotalSizeAsWritten(size: nat): (r: nat)
    requires size < TWO_64
    ensures r % 8 == 0 && r < TWO_64
    ensures size <= TWO_64 - 24 ==> HEADER_SIZE + size <= r < HEADER_SIZE + size + 8
  {
    (((HEADER_SIZE + size) % TWO_64 + 7) % TWO_64) / 8 * 8
  }

  /** The header stack_alloc writes as written, or None when it refuses. */
  function AllocAsWritten(used: nat, cap: nat, size: nat): (r: Option<Header>)
    requires used <= cap < TWO_64 && size < TWO_64
    ensures r.Some? ==> r.value.offset == used && (used + r.value.size) % TWO_64 <= cap
  {
    var total := TotalSizeAsWritten(size);
    if (used + total) % TWO_64 > cap then None else Some(Header(used, total))
  }

  /** A request for SIZE_MAX - 15 bytes wraps the total to 0, so on a full
      64-byte stack it is accepted and its header lands on bytes 64 to 79,
      past the end of the buffer. */
  lemma HugeRequestHeaderPastEnd()
    ensures AllocAsWritten(64, 64, TWO_64 - 16) == Some(Header(64, 0))
  {
    assert TotalSizeAsWritten(TWO_64 - 16) == 0;
  }

  /** Header plus request, rounded up to a multiple of 8, without
      wrap-around. */
  function TotalSize(size: nat): (r: nat)
    ensures r % 8 == 0 && HEADER_SIZE + size <= r < HEADER_SIZE + size + 8
  {
    (HEADER_SIZE + size + 7) / 8 * 8
  }

  /** The header a corrected stack_alloc writes: refused when the total
      would wrap or does not fit in the space left. */
  function AllocHeader(used: nat, cap: nat, size: nat): (r: Option<Header>)
    requires used <= cap
    ensures r.None? <==> size > TWO_64 - 24 || TotalSize(size) > cap - used
    ensures r.Some? ==> r.value.offset == used && used + r.value.size <= cap && r.value.size >= HEADER_SIZE + size
  {
    if size > TWO_64 - 24 || TotalSize(size) > cap - used then None
    else Some(Header(used, TotalSize(size)))
  }

  /** Where no wrap-around happens, the code as written agrees with the
      corrected AllocHeader. */
  lemma AllocAsWrittenAgrees(used: nat, cap: nat, size: nat)
    requires used <= cap < TWO_64 && size <= TWO_64 - 24 && used + TotalSize(size) < TWO_64
    ensures AllocAsWritten(used, cap, size) == AllocHeader(used, cap, size)
  {
    assert TotalSizeAsWritten(size) == TotalSize(size);
  }

  /** stack_free's decision given the header it reads: only the block
      whose end is the top of the stack is popped, back to its own start;
      any other leaves used alone. */
  function FreeTo(used: nat, h: Header): (r: nat)
    ensures r == used || (r == h.offset && h.offset + h.size == used)
    ensures h.offset + h.size == used ==> r == h.offset
  {
    if h.offset + h.size != used then used else h.offset
  }

  /** Freeing the block just allocated returns the stack to where it was. */
  lemma {:induction false} FreeUndoesAlloc(used: nat, cap: nat, size: nat)
    requires used <= cap && AllocHeader(used, cap, size).Some?
    ensures var h := AllocHeader(used, cap, size).value; FreeTo(used + h.size, h) == used
  {
  }

  /** StackAllocator: used bytes of a size-byte buffer are taken; headers
      holds the header written at each offset so far (the buffer's other
      bytes are not modelled). */
  class Allocator {
    const size: nat
    var used: nat
    var headers: map<nat, Header>

    ghost predicate Valid()
      reads this
    {
      && size < TWO_64 && used <= size
      && forall k :: k in headers ==>
           headers[k].offset == k && HEADER_SIZE <= headers[k].size && k + headers[k].size <= size
    }

    /** stack_create: nothing is in use. */
    constructor (size: nat)
      requires size < TWO_64
      ensures Valid() && this.size == size && used == 0 && headers == map[]
    {
      this.size := size;
      used := 0;
      headers := map[];
    }

    /** stack_alloc: a header is written at used recording used and the
        total size, used grows by the total, and the pointer just past the
        header is returned; a request that does not fit returns None and
        changes nothing. */
    method Alloc(n: nat) returns (ptr: Option<nat>)
      requires Valid()
      modifies this
      ensures Valid()
      ensures AllocHeader(old(used), size, n).None? ==>
        ptr == None && used == old(used) && headers == old(headers)
      ensures AllocHeader(old(used), size, n).Some? ==>
        var h := AllocHeader(old(used), size, n).value;
        && ptr == Some(old(used) + HEADER_SIZE)
        && used == old(used) + h.size
        && headers == old(headers)[old(used) := h]
    {
      if n > TWO_64 - 24 {
        return None;
      }
      var total := TotalSize(n);
      if total > size - used {
        return None;
      }
      headers := headers[used := Header(used, total)];
      ptr := Some(used + HEADER_SIZE);
      used := used + total;
    }

    /** stack_free: NULL is ignored; otherwise the header before ptr is
        read, and the stack is popped back to its offset only when that
        block ends at the top. */
    method Free(ptr: Option<nat>)
      requires Valid()
      requires ptr.Some? ==> ptr.value >= HEADER_SIZE && ptr.value - HEADER_SIZE in headers
      modifies this
      ensures Valid() && headers == old(headers)
      ensures ptr.None? ==> used == old(used)
      ensures ptr.Some? ==> used == FreeTo(old(used), old(headers)[ptr.value - HEADER_SIZE])
    {
      if ptr == None {
        return;
      }
      var header := headers[ptr.value - HEADER_SIZE];
      if header.offset + header.size != used {
        return;
      }
      used := header.offset;
    }

    /** stack_get_marker: the current top. */
    function GetMarker(): (marker: nat)
      reads this
      requires Valid()
      ensures marker <= size
    {
      used
    }

    /** stack_free_to_marker: a marker at or below the top becomes the top;
        a higher one is ignored, so used never grows. */
    method FreeToMarker(marker: nat)
      requires Valid()
      modifies this
      ensures Valid() && headers == old(headers) && used <= old(used)
      ensures used == if marker <= old(used) then marker else old(used)
    {
      if marker <= used {
        used := marker;
      }
    }
  }
}
