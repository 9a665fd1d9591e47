/** The bump allocator of MemoryManagement/examples/02_arena_allocator.c.
    Pointers into the arena's buffer are modelled as byte offsets, and
    NULL as None. Sizes are size_t: 64-bit unsigned. */
module ArenaAllocator {
  import opened Common

  /** The rounding arena_alloc performs, (size + 7) & ~7, in 64-bit
      unsigned arithmetic: a request within 7 bytes of SIZE_MAX wraps to
      0. */
  function AlignedSizeAsWritten(size: nat): (r: nat)
    requires size < TWO_64
    ensures r % 8 == 0 && r < TWO_64
    ensures size <= TWO_64 - 8 ==> size <= r < size + 8
    ensures size > TWO_64 - 8 ==> r == 0
  {
    ((size + 7) % TWO_64) / 8 * 8
  }

  /** arena_alloc as written, on the arena's used and size fields: the
      offset handed out and the new used, or None. Both the rounding and the
      sum used + aligned_size are taken modulo 2^64. */
  function AllocAsWritten(used: nat, cap: nat, size: nat): (r: Option<(nat, nat)>)
    requires used <= cap < TWO_64 && size < TWO_64
    ensures r.Some? ==> r.value.0 == used && r.value.1 <= cap
  {
    var aligned := AlignedSizeAsWritten(size);
    if (used + aligned) % TWO_64 > cap then None
    else Some((used, (used + aligned) % TWO_64))
  }

  /** A request for SIZE_MAX bytes from an empty arena of no bytes at all
      succeeds as written, and reserves nothing. */
  lemma HugeRequestSucceeds()
    ensures AllocAsWritten(0, 0, TWO_64 - 1) == Some((0, 0))
  {
    assert AlignedSizeAsWritten(TWO_64 - 1) == 0;
  }

  /** The least multiple of 8 that is at least size, without wrap-around. */
  function AlignedSize(size: nat): (r: nat)
    ensures r % 8 == 0 && size <= r < size + 8
  {
    (size + 7) / 8 * 8
  }

  /** Where no wrap-around happens, the code as written and the corrected
      Arena.Alloc agree. */
  lemma AllocAsWrittenAgrees(used: nat, cap: nat, size: nat)
    requires used <= cap < TWO_64 && size <= TWO_64 - 8 && used + AlignedSize(size) < TWO_64
    ensures AllocAsWritten(used, cap, size) ==
      if AlignedSize(size) > cap - used then None else Some((used, (used + AlignedSize(size)) as nat))
  {
    assert AlignedSizeAsWritten(size) == AlignedSize(size);
  }

  /** One allocation: its offset and its rounded length. */
  datatype Block = Block(offset: nat, length: nat)

  /** The blocks lie one after another from offset 0, and the last one ends
      at used. */
  ghost predicate Contiguous(blocks: seq<Block>, used: nat)
  {
    && (blocks == [] ==> used == 0)
    && (blocks != [] ==> blocks[0].offset == 0 && blocks[|blocks| - 1].offset + blocks[|blocks| - 1].length == used)
    && forall i :: 0 <= i < |blocks| - 1 ==> blocks[i].offset + blocks[i].length == blocks[i + 1].offset
  }

  /** Blocks laid one after another never overlap, and none reaches past
      used. */
  lemma {:induction false} ContiguousDisjoint(blocks: seq<Block>, used: nat)
    requires Contiguous(blocks, used)
    ensures forall i, j :: 0 <= i < j < |blocks| ==> blocks[i].offset + blocks[i].length <= blocks[j].offset
    ensures forall i :: 0 <= i < |blocks| ==> blocks[i].offset + blocks[i].length <= used
  {
    if blocks != [] {
      var last := blocks[|blocks| - 1];
      var init := blocks[..|blocks| - 1];
      assert Contiguous(init, last.offset);
      ContiguousDisjoint(init, last.offset);
    }
  }

  /** Arena: a buffer of size bytes of which the first used are handed
      out. */
  class Arena {
    const size: nat
    var used: nat
    /** The allocations made since the last reset, oldest first. */
    ghost var blocks: seq<Block>

    ghost predicate Valid()
      reads this
    {
      && size < TWO_64 && used <= size && used % 8 == 0
      && Contiguous(blocks, used)
      && forall i :: 0 <= i < |blocks| ==> blocks[i].length % 8 == 0
    }

    /** arena_create: nothing is in use. */
    constructor (size: nat)
      requires size < TWO_64
      ensures Valid() && this.size == size && used == 0 && blocks == []
    {
      this.size := size;
      used := 0;
      blocks := [];
    }

    /** arena_alloc: the request rounded up to a multiple of 8 is carved
        off at used, unless it does not fit, which returns None and changes
        nothing. A request too large to round without wrap-around is
        refused too. */
    method Alloc(n: nat) returns (ptr: Option<nat>)
      requires Valid() && n < TWO_64
      modifies this
      ensures Valid()
      ensures n > TWO_64 - 8 || AlignedSize(n) > old(size - used) ==>
        ptr == None && used == old(used) && blocks == old(blocks)
      ensures n <= TWO_64 - 8 && AlignedSize(n) <= old(size - used) ==>
        && ptr == Some(old(used))
        && used == old(used) + AlignedSize(n)
        && blocks == old(blocks) + [Block(old(used), AlignedSize(n))]
      ensures ptr.Some? ==> forall b :: b in old(blocks) ==> b.offset + b.length <= ptr.value
    {
      if n > TWO_64 - 8 {
        return None;
      }
      var aligned := AlignedSize(n);
      if aligned > size - used {
        return None;
      }
      AllocFresh(blocks, used, size, n);
      ptr := Some(used);
      blocks := blocks + [Block(used, aligned)];
      used := used + aligned;
    }

    /** arena_reset: everything is released at once. */
    method Reset()
      requires Valid()
      modifies this
      ensures Valid() && used == 0 && blocks == []
    {
      used := 0;
      blocks := [];
    }
  }

  /** A successful allocation overlaps none of the blocks handed out before
      it, and lies inside the buffer. */
  lemma AllocFresh(blocks: seq<Block>, used: nat, cap: nat, n: nat)
    requires Contiguous(blocks, used) && used + AlignedSize(n) <= cap
    ensures forall b :: b in blocks ==> b.offset + b.length <= used
    ensures Contiguous(blocks + [Block(used, AlignedSize(n))], used + AlignedSize(n))
  {
    ContiguousDisjoint(blocks, used);
    var bs := blocks + [Block(used, AlignedSize(n))];
    if blocks != [] {
      assert bs[|blocks| - 1] == blocks[|blocks| - 1];
    }
  }
}
