/** The pool allocator as an object that updates its fields and its memory in place. */
module PoolAllocators {
  import opened Common
  import opened Bits
  import opened MemoryHelpers
  import opened Words
  import opened PoolModel
  import opened PoolFreeList
  import opened PoolRuns

  const U32_MAX: nat := U32_LIMIT - 1

  /** A free-list node is one 32-bit word, aligned like one. */
  function FreeNodeSize(): nat {
    AlignUp(4, 4)
  }

  /** Rounded to the alignment, stored in 32 bits, and large enough for a free-list node. */
  function BlockSize(bytesPerAlloc: nat, alignment: nat): nat {
    var aligned := AlignUp(bytesPerAlloc, alignment) % U32_LIMIT;
    if aligned < FreeNodeSize() then FreeNodeSize() else aligned
  }

  lemma FreeNodeIsFourBytes()
    ensures FreeNodeSize() == 4
  {
    AlignUpIsSubtraction(4, 4);
    AndMask(7, 2);
    assert Pow2(2) == 4;
  }

  /** As long as rounding up stays within 32 bits, the block size is the least multiple of the alignment that
      holds the bytes asked for and a link; otherwise it shrinks to a link. */
  lemma BlockSizeFits(bytesPerAlloc: nat, alignment: nat)
    requires IsValidAlignment(alignment) && 0 < bytesPerAlloc < U32_LIMIT
    ensures var size := BlockSize(bytesPerAlloc, alignment);
            && size >= 4
            && (size >= bytesPerAlloc <==> AlignUp(bytesPerAlloc, alignment) < U32_LIMIT)
            && if AlignUp(bytesPerAlloc, alignment) >= U32_LIMIT then size == 4
               else
                 && size % alignment == 0
                 && forall m: nat | m % alignment == 0 && m >= bytesPerAlloc && m >= 4 :: size <= m
  {
    hide AlignUp, IsPowerOfTwo, Pow2;
    ValidAlignments(alignment);
    PowerOfTwoTest(alignment);
    AlignUpLeastMultiple(bytesPerAlloc, alignment);
    FreeNodeIsFourBytes();
    assert U32_LIMIT % alignment == 0;
  }

  /** One byte short of 4 GiB, 16-aligned: the pool has blocks of four bytes. */
  lemma HugeBlocksShrink()
    ensures BlockSize(U32_MAX, 16) == 4
  {
    hide AlignUp, IsPowerOfTwo;
    ValidAlignments(16);
    BlockSizeFits(U32_MAX, 16);
    SixteenIsPow2();
    AlignUpLeastMultiple(U32_MAX, 16);
  }

  lemma SixteenIsPow2()
    ensures IsPow2(16)
  {
    assert Pow2(4) == 16;
  }

  /** With a 16-aligned data region every block starts at a multiple of the alignment. */
  lemma BlockIsAligned(base: nat, index: nat, bytesPerAlloc: nat, alignment: nat)
    requires base % MAX_ALIGN == 0 && IsValidAlignment(alignment)
    requires AlignUp(bytesPerAlloc, alignment) < U32_LIMIT && 0 < bytesPerAlloc < U32_LIMIT
    ensures (base + Times(index, BlockSize(bytesPerAlloc, alignment))) % alignment == 0
  {
    hide AlignUp, IsPowerOfTwo, BlockSize;
    BlockSizeFits(bytesPerAlloc, alignment);
    ValidAlignmentDivides(alignment);
    MultipleOfMultiple(base, MAX_ALIGN, alignment);
    MultipleOf(BlockSize(bytesPerAlloc, alignment), index, alignment);
    TimesIsProduct(index, BlockSize(bytesPerAlloc, alignment));
    SumOfMultiples(base, index * BlockSize(bytesPerAlloc, alignment), alignment);
  }

  /** The size of the data region, a 32-bit product. */
  function RegionSize(maxAllocations: nat, blockSize: nat): nat {
    Times(maxAllocations + 1, blockSize) % U32_LIMIT
  }

  lemma RegionIsSized(p: Pool)
    requires p.maxAllocations >= 1 && p.bytesPerAlloc >= 4
    requires |p.data| == RegionSize(p.maxAllocations, p.bytesPerAlloc)
    ensures Sized(p) <==> Times(p.maxAllocations + 1, p.bytesPerAlloc) < U32_LIMIT
  {
  }

  /** Every block lies in the data region exactly when the product does not wrap. */
  lemma BlocksFitIff(maxAllocations: nat, blockSize: nat)
    requires 0 < maxAllocations && 0 < blockSize < U32_LIMIT
    ensures (forall i: nat | i < maxAllocations ::
               Times(i, blockSize) + blockSize <= RegionSize(maxAllocations, blockSize))
            <==> Times(maxAllocations + 1, blockSize) < U32_LIMIT
  {
    var all, last := Times(maxAllocations + 1, blockSize), maxAllocations - 1;
    assert all == blockSize + Times(maxAllocations, blockSize);
    assert Times(maxAllocations, blockSize) == blockSize + Times(last, blockSize);
    if all < U32_LIMIT {
      forall i: nat | i < maxAllocations ensures Times(i, blockSize) + blockSize <= all {
        TimesGrows(i, maxAllocations + 1, blockSize);
      }
    } else {
      assert all % U32_LIMIT <= all - U32_LIMIT;
    }
  }

  /** Every link that initialization writes, at a 32-bit index, lies in a region of that size. */
  ghost predicate LinksInside(maxAllocations: nat, blockSize: nat, size: nat) {
    forall i: nat | i < maxAllocations :: LinkEnd(i, blockSize) <= size
  }

  function LinkEnd(i: nat, blockSize: nat): nat {
    Times(i, blockSize) % U32_LIMIT + 4
  }

  /** 65536 blocks of 65536 bytes: the region has room for one, and the second link is written behind it. */
  lemma ManyBlocksLeaveRegion()
    ensures BlockSize(0x1_0000, 16) == 0x1_0000 && RegionSize(0x1_0000, 0x1_0000) == 0x1_0000
    ensures !LinksInside(0x1_0000, 0x1_0000, 0x1_0000)
  {
    ExactBlockSize(0x1_0000);
    TimesIsProduct(0x1_0001, 0x1_0000);
    TimesIsProduct(1, 0x1_0000);
    assert LinkEnd(1, 0x1_0000) == 0x1_0004;
  }

  /** One block of 2 GiB and 16 bytes: the region has 32 bytes, which the link fits in and the block does not. */
  lemma LargeBlockOutgrowsRegion()
    ensures BlockSize(0x8000_0010, 16) == 0x8000_0010 && RegionSize(1, 0x8000_0010) == 32
    ensures LinksInside(1, 0x8000_0010, 32)
  {
    ExactBlockSize(0x8000_0010);
    TimesIsProduct(2, 0x8000_0010);
    assert LinkEnd(0, 0x8000_0010) == 4;
  }

  lemma ExactBlockSize(bytesPerAlloc: nat)
    requires 4 <= bytesPerAlloc < U32_LIMIT && bytesPerAlloc % 16 == 0
    ensures BlockSize(bytesPerAlloc, 16) == bytesPerAlloc
  {
    hide AlignUp;
    SixteenIsPow2();
    AlignUpLeastMultiple(bytesPerAlloc, 16);
    FreeNodeIsFourBytes();
  }

  /** One more link, in memory that initialization has reached. */
  lemma InitializeNext(before: Pool, p: Pool, i: nat)
    requires Sized(before) && i < before.maxAllocations < U32_LIMIT
    requires p.data == LinkUpTo(before, i).data
    requires p.maxAllocations == before.maxAllocations && p.bytesPerAlloc == before.bytesPerAlloc
    ensures Sized(p) && Link(p, i, i + 1).data == LinkUpTo(before, i + 1).data
  {
  }

  /** What freeing does to the free list, for every pointer. */
  lemma FreeEffect(p: Pool, c: seq<nat>, offset: int)
    requires Bounded(p) && IsChain(p, c)
    ensures match FreeIndex(p, offset)
            case None => true
            case Some(index) =>
              var q := FreeStep(p, offset).1;
              if index !in c then IsChain(q, FreeChain(p, c, index)) && Bounded(q)
              else if index >= p.headIndex then IsChain(q, UpTo(c, index)) && Bounded(q)
              else !IsChain(q, UpTo(c, index))
  {
    hide FreeStep, FreeIndex, IsChain, FreeChain, UpTo;
    if FreeIndex(p, offset).Some? {
      var index, q := FreeIndex(p, offset).value, FreeStep(p, offset).1;
      if index !in c {
        FreePushes(p, c, offset);
        ChainBounds(q, FreeChain(p, c, index));
      } else {
        FreeAgain(p, c, offset);
        if index >= p.headIndex {
          ChainBounds(q, UpTo(c, index));
        }
      }
    }
  }

  /** How creation ends: it is refused, or with a pool, or with a link about to be written outside the data
      region, beyond which nothing is modelled. */
  datatype Creation = Refused(error: Result) | Created(pool: PoolAllocator) | LeftRegion

  class PoolAllocator {
    var maxAllocations: nat
    var bytesPerAlloc: nat
    var headIndex: nat
    var tailIndex: nat
    const data: array<byte>
    /** The free blocks, in the order in which they will be handed out. */
    ghost var free: seq<nat>

    function Value(): Pool
      reads this, data
    {
      Pool(maxAllocations, bytesPerAlloc, headIndex, tailIndex, data[..])
    }

    ghost predicate Valid()
      reads this, data
    {
      Bounded(Value()) && IsChain(Value(), free)
    }

    /** Memory from `malloc`: the bytes are arbitrary. */
    constructor Allocate(maxAllocations: nat, bytesPerAlloc: nat)
      ensures fresh(data) && data.Length == RegionSize(maxAllocations, bytesPerAlloc)
      ensures this.maxAllocations == maxAllocations && this.bytesPerAlloc == bytesPerAlloc
    {
      this.maxAllocations := maxAllocations;
      this.bytesPerAlloc := bytesPerAlloc;
      headIndex, tailIndex := 0, 0;
      TimesIsProduct(maxAllocations + 1, bytesPerAlloc);
      data := new byte[(maxAllocations + 1) * bytesPerAlloc % U32_LIMIT];
    }

    /** `granted` is the outcome of `malloc`. */
    static method Create(maxAllocations: nat, bytesPerAlloc: nat, alignment: nat, granted: bool)
      returns (c: Creation)
      requires maxAllocations < U32_LIMIT && bytesPerAlloc < U32_LIMIT && alignment < 256
      ensures if maxAllocations == 0 || bytesPerAlloc == 0 then c == Refused(InvalidParameter)
              else if !IsValidAlignment(alignment) then c == Refused(InvalidAlignment)
              else if maxAllocations == U32_MAX || !granted then c == Refused(NoMemory)
              else !c.Refused?
      ensures c.Created? ==>
                var pa := c.pool;
                && fresh(pa) && fresh(pa.data)
                && pa.maxAllocations == maxAllocations
                && pa.bytesPerAlloc == BlockSize(bytesPerAlloc, alignment)
                && pa.data.Length == RegionSize(maxAllocations, pa.bytesPerAlloc)
                && (pa.Valid() <==> Times(maxAllocations + 1, pa.bytesPerAlloc) < U32_LIMIT)
                && (pa.Valid() ==> pa.free == Iota(maxAllocations))
      ensures var size := BlockSize(bytesPerAlloc, alignment);
              !c.Refused? ==>
                && (c.Created? <==> LinksInside(maxAllocations, size, RegionSize(maxAllocations, size)))
                && (Times(maxAllocations + 1, size) < U32_LIMIT ==> c.Created?)
    {
      if maxAllocations == 0 || bytesPerAlloc == 0 {
        return Refused(InvalidParameter);
      }
      if !IsValidAlignment(alignment) {
        return Refused(InvalidAlignment);
      }
      if maxAllocations == U32_MAX {
        return Refused(NoMemory);
      }
      var aligned := AlignUp(bytesPerAlloc, alignment) % U32_LIMIT;
      if aligned < FreeNodeSize() {
        aligned := FreeNodeSize();
      }
      if !granted {
        return Refused(NoMemory);
      }
      BlockSizeFits(bytesPerAlloc, alignment);
      hide AlignUp, BlockSize, IsValidAlignment, Sized, IsChain, LinksInside, RegionSize, Times, Initialize;
      var pa := new PoolAllocator.Allocate(maxAllocations, aligned);
      RegionIsSized(pa.Value());
      var inside := pa.InitializeFreeList();
      RegionIsSized(pa.Value());
      return if inside then Created(pa) else LeftRegion;
    }

    /** Writes the links in turn, as long as they are in the data region. */
    method InitializeFreeList() returns (inside: bool)
      requires 0 < maxAllocations < U32_LIMIT && bytesPerAlloc > 0
      modifies this, data
      ensures maxAllocations == old(maxAllocations) && bytesPerAlloc == old(bytesPerAlloc)
      ensures inside <==> LinksInside(maxAllocations, bytesPerAlloc, data.Length)
      ensures headIndex == 0 && tailIndex == maxAllocations - 1
      ensures Sized(old(Value())) ==>
                inside && Value() == Initialize(old(Value())) && Valid() && free == Iota(maxAllocations)
    {
      hide Sized, Next, Link, ByteIndex;
      ghost var before := Value();
      headIndex := 0;
      tailIndex := maxAllocations - 1;
      var i := 0;
      while i < tailIndex
        invariant 0 <= i <= tailIndex && headIndex == 0 && tailIndex == maxAllocations - 1
        invariant maxAllocations == before.maxAllocations && bytesPerAlloc == before.bytesPerAlloc
        invariant forall j: nat | j < i :: LinkEnd(j, bytesPerAlloc) <= data.Length
        invariant Sized(before) ==> data[..] == LinkUpTo(before, i).data
      {
        ghost var p := Value();
        if Sized(before) {
          InitializeNext(before, p, i);
        }
        inside := StoreLink(p, i, i + 1);
        if !inside {
          return;
        }
        i := i + 1;
      }
      ghost var p := Value();
      if Sized(before) {
        InitializeNext(before, p, i);
      }
      inside := StoreLink(p, i, maxAllocations);
      if Sized(before) {
        InitializeChains(before);
        free := Iota(maxAllocations);
        ChainBounds(Value(), free);
      }
    }

    /** Writes the link of slot i, at its 32-bit index, if that is in the data region; `p` has the same memory
        and the same block size. */
    method StoreLink(ghost p: Pool, i: nat, n: nat) returns (inside: bool)
      requires n < U32_LIMIT && p.data == data[..] && p.bytesPerAlloc == bytesPerAlloc
      modifies data
      ensures inside <==> LinkEnd(i, bytesPerAlloc) <= data.Length
      ensures Sized(p) && i <= p.maxAllocations ==> inside && data[..] == Link(p, i, n).data
    {
      TimesIsProduct(i, bytesPerAlloc);
      var at := i * bytesPerAlloc % U32_LIMIT;
      inside := at + 4 <= data.Length;
      if Sized(p) && i <= p.maxAllocations {
        SlotInside(p, i);
      }
      if inside {
        StoreWord(data, at, n);
      }
    }

    /** Pops the front of the free list and touches no memory. */
    method Alloc() returns (r: Result, out: nat)
      requires Valid()
      modifies this
      ensures Allocated(r, out, Value()) == AllocStep(old(Value()))
      ensures Valid()
      ensures if old(free) == [] then r == NoMemory && free == []
              else r == Ok && out == Times(old(free)[0], bytesPerAlloc) && free == old(free)[1..]
    {
      ghost var before := Value();
      AllocPops(before, free);
      if headIndex == maxAllocations {
        return NoMemory, 0;
      }
      SlotInside(before, headIndex);
      TimesIsProduct(headIndex, bytesPerAlloc);
      out := headIndex * bytesPerAlloc % U32_LIMIT;
      headIndex := ReadWord(data[..], out);
      if headIndex == maxAllocations {
        tailIndex := maxAllocations;
      }
      free := free[1..];
      ChainBounds(Value(), free);
      return Ok, out;
    }

    /** Gives a block back; `offset` is the distance of the pointer from the data region. A block that is
        free already is taken back as well: then the list is cut off behind it, or destroyed. */
    method Free(offset: int) returns (r: Result)
      requires Valid()
      modifies this, data
      ensures (r, Value()) == FreeStep(old(Value()), offset)
      ensures match FreeIndex(old(Value()), offset)
              case None => r == InvalidPointer && Valid() && free == old(free)
              case Some(index) =>
                && r == Ok
                && (Valid() <==> index !in old(free) || index >= old(headIndex))
                && (Valid() ==> free == if index in old(free) then UpTo(old(free), index)
                                        else FreeChain(old(Value()), old(free), index))
    {
      hide IsChain, FreeChain, UpTo;
      ghost var before := Value();
      ChainBounds(before, free);
      FreeEffect(before, free, offset);
      if offset < 0 || offset % bytesPerAlloc != 0 {
        return InvalidPointer;
      }
      var freeIndex := offset / bytesPerAlloc % U32_LIMIT;
      if freeIndex >= maxAllocations {
        return InvalidPointer;
      }
      MaxFits(before);
      if freeIndex < headIndex {
        var _ := StoreLink(before, freeIndex, headIndex);
        headIndex := freeIndex;
      } else {
        var _ := StoreLink(before, tailIndex, freeIndex);
        ghost var linked := Link(before, tailIndex, freeIndex);
        tailIndex := freeIndex;
        var _ := StoreLink(linked.(tailIndex := freeIndex), tailIndex, maxAllocations);
      }
      if tailIndex == maxAllocations {
        tailIndex := headIndex;
      }
      free := if freeIndex in free then UpTo(free, freeIndex) else FreeChain(before, free, freeIndex);
      return Ok;
    }

    method Reset() returns (r: Result)
      requires Valid()
      modifies this, data
      ensures r == Ok && Value() == Initialize(old(Value()))
      ensures Valid() && free == Iota(maxAllocations)
    {
      MaxFits(Value());
      var _ := InitializeFreeList();
      return Ok;
    }
  }
}
