/** The bump arena (`ex_arena_*`). Addresses are (block, offset) pairs: the
    block is the position of its base pointer in `arena->blocks`, and the
    offset is measured from that base. `malloc` returns storage aligned for
    any type, so a block base is 8-aligned and an offset is 8-aligned exactly
    when the address it stands for is. */
module Arena {

  const ALIGNMENT: nat := 8
  const BLOCK_SIZE: nat := 64 * 1024

  /** `EX_ARENA_ALIGN_UP(n, EX_ARENA_ALIGNMENT)`: `(n + 7) & ~7`, which rounds
      `n` up to the next multiple of the (power-of-two) alignment. */
  function AlignUp(n: nat): (r: nat)
    ensures r % ALIGNMENT == 0
    ensures n <= r < n + ALIGNMENT
  {
    ((n + ALIGNMENT - 1) / ALIGNMENT) * ALIGNMENT
  }

  /** A multiple of the alignment at or above `n` is at or above `AlignUp(n)`. */
  lemma AlignUpLeast(n: nat, m: nat)
    requires n <= m && m % ALIGNMENT == 0
    ensures AlignUp(n) <= m
  {
  }

  /** The size `ex_arena_grow` asks `malloc` for. */
  function BlockSize(minSize: nat): (r: nat)
    ensures r >= minSize && r >= BLOCK_SIZE
    ensures r % ALIGNMENT == 0
    ensures r < (if minSize > BLOCK_SIZE then minSize else BLOCK_SIZE) + ALIGNMENT
  {
    AlignUp(if minSize > BLOCK_SIZE then minSize else BLOCK_SIZE)
  }

  datatype Addr = Null | Ptr(block: nat, offset: nat)

  /** `size` bytes at `offset` of block `block`. */
  datatype Region = Region(block: nat, offset: nat, size: nat)

  predicate Disjoint(r: Region, s: Region)
  {
    r.block != s.block || r.offset + r.size <= s.offset || s.offset + s.size <= r.offset
  }

  class Arena {
    /** The size of each block whose base is in `arena->blocks`, oldest first. */
    var blocks: seq<nat>
    /** `arena->ptr` and `arena->end`, as offsets in the newest block (0 when NULL). */
    var ptr: nat
    var end: nat
    /** Every region handed out since the arena was created or freed. */
    ghost var Allocated: seq<Region>

    ghost predicate Valid()
      reads this
    {
      && (blocks == [] ==> ptr == 0 && end == 0 && Allocated == [])
      && (blocks != [] ==> end == blocks[|blocks| - 1] && ptr <= end && ptr % ALIGNMENT == 0)
      && (forall b :: 0 <= b < |blocks| ==> blocks[b] >= BLOCK_SIZE && blocks[b] % ALIGNMENT == 0)
      && (forall i :: 0 <= i < |Allocated| ==> InBlocks(Allocated[i]))
      && (forall i, j :: 0 <= i < j < |Allocated| ==> Disjoint(Allocated[i], Allocated[j]))
    }

    /** A handed-out region lies in a block, and in the newest one below `ptr`. */
    ghost predicate InBlocks(r: Region)
      reads this
    {
      && r.block < |blocks|
      && r.offset + r.size <= blocks[r.block]
      && (r.block == |blocks| - 1 ==> r.offset + r.size <= ptr)
    }

    /** A zero-initialised `ex_arena`. */
    constructor ()
      ensures Valid() && blocks == [] && Allocated == []
    {
      blocks, ptr, end := [], 0, 0;
      Allocated := [];
    }

    /** `ex_arena_grow`: start a new block of `BlockSize(minSize)` bytes; the
        rest of the previous block is abandoned. */
    method Grow(minSize: nat)
      requires Valid()
      modifies this
      ensures Valid()
      ensures blocks == old(blocks) + [BlockSize(minSize)]
      ensures ptr == 0 && end == BlockSize(minSize)
      ensures Allocated == old(Allocated)
    {
      var size := BlockSize(minSize);
      blocks := blocks + [size];
      ptr := 0;
      end := size;
      forall i | 0 <= i < |Allocated|
        ensures InBlocks(Allocated[i])
      {
        assert old(InBlocks(Allocated[i]));
      }
    }

    /** `ex_arena_alloc`: the returned region of `size` bytes lies inside the
        newest block, does not overlap any region handed out before, and
        `ptr` moves to the next 8-aligned offset after it. Only a zero-sized
        request on an arena without blocks yields NULL. */
    method Alloc(size: nat) returns (a: Addr)
      requires Valid()
      modifies this
      ensures Valid()
      ensures size > old(end) - old(ptr) ==> blocks == old(blocks) + [BlockSize(size)]
      ensures size <= old(end) - old(ptr) ==> blocks == old(blocks)
      ensures a.Null? <==> size == 0 && old(blocks) == []
      ensures old(blocks) != [] && size <= old(end) - old(ptr) ==> a == Ptr(|old(blocks)| - 1, old(ptr))
      ensures size > old(end) - old(ptr) ==> a == Ptr(|old(blocks)|, 0)
      ensures a.Ptr? ==> && a.block == |blocks| - 1
                         && a.offset + size <= blocks[a.block]
                         && ptr == AlignUp(a.offset + size)
                         && Allocated == old(Allocated) + [Region(a.block, a.offset, size)]
                         && forall r :: r in old(Allocated) ==> Disjoint(r, Region(a.block, a.offset, size))
      ensures a.Null? ==> Allocated == old(Allocated) && blocks == [] && ptr == 0
    {
      if size > end - ptr {
        Grow(size);
      }
      if blocks == [] {
        a := Null;
        return;
      }
      a := Ptr(|blocks| - 1, ptr);
      var r := Region(|blocks| - 1, ptr, size);
      AlignUpLeast(ptr + size, end);
      ptr := AlignUp(ptr + size);
      forall i | 0 <= i < |Allocated|
        ensures InBlocks(Allocated[i]) && Disjoint(Allocated[i], r)
      {
        assert old(InBlocks(Allocated[i]));
      }
      Allocated := Allocated + [r];
    }

    /** `ex_arena_free`: every block is released and the arena is empty again. */
    method Free()
      requires Valid()
      modifies this
      ensures Valid()
      ensures blocks == [] && ptr == 0 && end == 0 && Allocated == []
    {
      blocks, ptr, end := [], 0, 0;
      Allocated := [];
    }
  }
}
