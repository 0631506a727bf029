/** The pool's operations seen on its free list: allocation pops the front, freeing pushes at either end. */
module PoolFreeList {
  import opened Common
  import opened MemoryHelpers
  import opened Words
  import opened Bits
  import opened PoolModel

  /** Bytes outside the first four of slot i. */
  ghost predicate OutsideLink(p: Pool, i: nat, k: nat) {
    !(SlotStart(p, i) <= k < SlotStart(p, i) + 4)
  }

  ghost predicate InSlot(p: Pool, i: nat, k: nat) {
    SlotStart(p, i) <= k < SlotStart(p, i) + p.bytesPerAlloc
  }

  /** Distinct blocks share no byte. */
  lemma SlotsAreDisjoint(p: Pool, i: nat, j: nat, k: nat)
    requires p.bytesPerAlloc >= 4 && i != j && InSlot(p, i, k)
    ensures !InSlot(p, j, k) && OutsideLink(p, j, k)
  {
    if i < j {
      TimesGrows(i, j, p.bytesPerAlloc);
    } else {
      TimesGrows(j, i, p.bytesPerAlloc);
    }
  }

  /** A link write is read back at its own slot and changes nothing else. */
  lemma LinkBytes(p: Pool, i: nat, n: nat)
    requires Sized(p) && i <= p.maxAllocations && n < U32_LIMIT
    ensures Next(Link(p, i, n), i) == n
    ensures forall k | 0 <= k < |p.data| && OutsideLink(p, i, k) :: Link(p, i, n).data[k] == p.data[k]
  {
    SlotInside(p, i);
    SlotInside(Link(p, i, n), i);
    ReadWritten(p.data, ByteIndex(p, i), n);
  }

  lemma NextSame(p: Pool, q: Pool, j: nat)
    requires Sized(p) && Sized(q) && j <= p.maxAllocations
    requires q.maxAllocations == p.maxAllocations && q.bytesPerAlloc == p.bytesPerAlloc
    requires forall k | 0 <= k < |p.data| && InSlot(p, j, k) :: q.data[k] == p.data[k]
    ensures Next(q, j) == Next(p, j)
  {
    SlotInside(p, j);
    SlotInside(q, j);
    var at := SlotStart(p, j);
    assert forall k | at <= k < at + 4 :: InSlot(p, j, k);
    ReadSame(p.data, q.data, at);
  }

  lemma LinkOther(p: Pool, i: nat, n: nat, j: nat)
    requires Sized(p) && i <= p.maxAllocations && n < U32_LIMIT
    requires j <= p.maxAllocations && j != i
    ensures Next(Link(p, i, n), j) == Next(p, j)
  {
    LinkBytes(p, i, n);
    var q := Link(p, i, n);
    forall k | 0 <= k < |p.data| && InSlot(p, j, k) ensures q.data[k] == p.data[k] {
      SlotsAreDisjoint(p, j, i, k);
    }
    NextSame(p, q, j);
  }

  lemma SizedSame(p: Pool, q: Pool)
    requires Sized(p) && q.data == p.data
    requires q.maxAllocations == p.maxAllocations && q.bytesPerAlloc == p.bytesPerAlloc
    ensures Sized(q)
  {
  }

  // Allocation.

  lemma AllocPops(p: Pool, c: seq<nat>)
    requires IsChain(p, c)
    ensures var a := AllocStep(p);
            if c == [] then a == Allocated(NoMemory, 0, p)
            else
              && a.result == Ok && a.offset == SlotStart(p, c[0])
              && a.pool == p.(headIndex := a.pool.headIndex, tailIndex := a.pool.tailIndex)
              && IsChain(a.pool, c[1..])
  {
    hide Sized, Next, Link, ByteIndex;
    MaxFits(p);
    if c != [] {
      var q := AllocStep(p).pool;
      SizedSame(p, q);
      SlotInside(p, c[0]);
      assert Next(p, c[0]) == Successor(p, c, 0);
      forall k | 0 <= k < |c[1..]| ensures Next(q, c[1..][k]) == Successor(q, c[1..], k) {
        assert Next(p, c[k + 1]) == Successor(p, c, k + 1);
        NextSame(p, q, c[k + 1]);
      }
    }
  }

  // Freeing.

  function FreeChain(p: Pool, c: seq<nat>, index: nat): seq<nat> {
    if index < HeadOf(p, c) then [index] + c else c + [index]
  }

  function LinkFront(p: Pool, index: nat): Pool
    requires Sized(p) && p.headIndex <= p.maxAllocations && index <= p.maxAllocations < U32_LIMIT
  {
    var q := Link(p, index, p.headIndex).(headIndex := index);
    if q.tailIndex == q.maxAllocations then q.(tailIndex := q.headIndex) else q
  }

  /** The links after pushing at the front: from the new block to the old head, then the old ones. */
  lemma FrontNext(p: Pool, index: nat, j: nat)
    requires Sized(p) && p.headIndex <= p.maxAllocations && index <= p.maxAllocations < U32_LIMIT
    requires j <= p.maxAllocations
    ensures Sized(LinkFront(p, index))
    ensures Next(LinkFront(p, index), j) == if j == index then p.headIndex else Next(p, j)
  {
    hide Sized, Next, Link, ByteIndex;
    var linked := Link(p, index, p.headIndex);
    SizedSame(linked, LinkFront(p, index));
    LinkBytes(p, index, p.headIndex);
    NextSame(linked, LinkFront(p, index), j);
    if j != index {
      LinkOther(p, index, p.headIndex, j);
    }
  }

  lemma LinkFrontFields(p: Pool, index: nat)
    requires Sized(p) && p.headIndex <= p.maxAllocations && index <= p.maxAllocations < U32_LIMIT
    ensures var q := LinkFront(p, index);
            q == p.(headIndex := index, data := q.data,
                    tailIndex := if p.tailIndex == p.maxAllocations then index else p.tailIndex)
  {
    hide Sized, Link;
  }

  lemma DistinctPush(c: seq<nat>, x: nat)
    requires Distinct(c) && x !in c
    ensures Distinct([x] + c) && Distinct(c + [x])
  {
  }

  lemma FrontSuccessor(p: Pool, c: seq<nat>, index: nat, k: nat)
    requires IsChain(p, c) && index < p.maxAllocations < U32_LIMIT && index !in c && k <= |c|
    ensures var q, c' := LinkFront(p, index), [index] + c;
            Sized(q) && q.maxAllocations == p.maxAllocations && Next(q, c'[k]) == Successor(q, c', k)
  {
    hide Sized, Next, Link, ByteIndex, LinkFront, Distinct;
    FrontNext(p, index, ([index] + c)[k]);
    LinkFrontFields(p, index);
    if k > 0 {
      assert c[k - 1] in c;
      assert Next(p, c[k - 1]) == Successor(p, c, k - 1);
    }
  }

  lemma PushFront(p: Pool, c: seq<nat>, index: nat)
    requires IsChain(p, c) && index < HeadOf(p, c) && index < p.maxAllocations < U32_LIMIT && index !in c
    ensures IsChain(LinkFront(p, index), [index] + c)
  {
    hide Sized, Next, LinkFront, Distinct, Successor;
    LinkFrontFields(p, index);
    forall k | 0 <= k <= |c|
      ensures Sized(LinkFront(p, index))
      ensures Next(LinkFront(p, index), ([index] + c)[k]) == Successor(LinkFront(p, index), [index] + c, k)
    {
      FrontSuccessor(p, c, index, k);
    }
    FrontSuccessor(p, c, index, 0);
    DistinctPush(c, index);
  }

  function LinkBack(p: Pool, index: nat): Pool
    requires Sized(p) && p.tailIndex <= p.maxAllocations && index <= p.maxAllocations < U32_LIMIT
  {
    var p1 := Link(p, p.tailIndex, index);
    Link(p1.(tailIndex := index), index, p.maxAllocations)
  }

  /** The links after pushing at the back: the old ones, then to the new block, then to the end. */
  lemma BackNext(p: Pool, c: seq<nat>, index: nat, j: nat)
    requires IsChain(p, c) && c != [] && index < p.maxAllocations < U32_LIMIT
    requires j <= p.maxAllocations
    ensures Next(LinkBack(p, index), j) ==
            if j == index then p.maxAllocations else if j == p.tailIndex then index else Next(p, j)
  {
    hide Sized, Next, Link, ByteIndex;
    var tail := p.tailIndex;
    assert tail in c;
    var p1 := Link(p, tail, index);
    var p2 := p1.(tailIndex := index);
    SizedSame(p1, p2);
    LinkBytes(p2, index, p.maxAllocations);
    LinkBytes(p, tail, index);
    NextSame(p1, p2, j);
    if j != index {
      LinkOther(p2, index, p.maxAllocations, j);
      if j != tail {
        LinkOther(p, tail, index, j);
      }
    }
  }

  lemma PushBack(p: Pool, c: seq<nat>, index: nat)
    requires IsChain(p, c) && c != [] && index < p.maxAllocations < U32_LIMIT && index !in c
    ensures IsChain(LinkBack(p, index), c + [index])
    ensures LinkBack(p, index).tailIndex != p.maxAllocations
  {
    hide Sized, Next, Link, ByteIndex;
    var q, c' := LinkBack(p, index), c + [index];
    forall k | 0 <= k < |c'| ensures Next(q, c'[k]) == Successor(q, c', k) {
      BackNext(p, c, index, c'[k]);
      if k < |c| {
        assert c[k] in c;
        assert Next(p, c[k]) == Successor(p, c, k);
      }
    }
    DistinctPush(c, index);
  }

  /** Freeing a live block pushes it at the front if its index is below the head, else at the back. */
  lemma FreePushes(p: Pool, c: seq<nat>, offset: int)
    requires IsChain(p, c)
    requires var index := FreeIndex(p, offset); index.Some? ==> index.value !in c
    ensures var (result, q) := FreeStep(p, offset);
            match FreeIndex(p, offset)
            case None => result == InvalidPointer && q == p
            case Some(index) => result == Ok && IsChain(q, FreeChain(p, c, index))
  {
    MaxFits(p);
    match FreeIndex(p, offset)
    case None =>
    case Some(index) =>
      if index < p.headIndex {
        PushFront(p, c, index);
      } else {
        PushBack(p, c, index);
      }
  }

  // Freeing a block that is free already.

  /** From the head on, the blocks behind it are lost: the list ends at the block. */
  lemma FreeAgainCuts(p: Pool, c: seq<nat>, at: nat)
    requires IsChain(p, c) && at < |c| && c[at] >= p.headIndex && p.maxAllocations < U32_LIMIT
    ensures IsChain(LinkBack(p, c[at]), c[..at + 1]) && LinkBack(p, c[at]).tailIndex != p.maxAllocations
  {
    hide Sized, Next, Link, ByteIndex;
    var q, cut, index := LinkBack(p, c[at]), c[..at + 1], c[at];
    forall k | 0 <= k < |cut| ensures Next(q, cut[k]) == Successor(q, cut, k) {
      BackNext(p, c, index, c[k]);
      assert Next(p, c[k]) == Successor(p, c, k);
    }
  }

  lemma {:induction false} RingFollows(p: Pool, c: seq<nat>, index: nat, ring: seq<nat>, k: nat)
    requires IsChain(p, c) && k < |c| && index <= p.maxAllocations < U32_LIMIT
    requires forall j | 0 <= j < k :: c[j] != index
    requires IsChain(LinkFront(p, index), ring) && ring != [] && ring[0] == index
    ensures k + 1 < |ring| && ring[k + 1] == c[k]
  {
    hide Sized, Next, Link, LinkFront, ByteIndex;
    LinkFrontFields(p, index);
    var q := LinkFront(p, index);
    if k > 0 {
      RingFollows(p, c, index, ring, k - 1);
      assert Next(p, c[k - 1]) == Successor(p, c, k - 1);
    }
    FrontNext(p, index, ring[k]);
    assert Next(q, ring[k]) == Successor(q, ring, k);
  }

  /** Before the head, the links run in a ring: no list at all is left. */
  lemma FreeAgainCloses(p: Pool, c: seq<nat>, at: nat, ring: seq<nat>)
    requires IsChain(p, c) && at < |c| && c[at] < p.headIndex && p.maxAllocations < U32_LIMIT
    ensures !IsChain(LinkFront(p, c[at]), ring)
  {
    hide Sized, Next, Link, LinkFront, ByteIndex;
    LinkFrontFields(p, c[at]);
    if IsChain(LinkFront(p, c[at]), ring) {
      RingFollows(p, c, c[at], ring, at);
      assert false;
    }
  }

  lemma PositionOf(c: seq<nat>, x: nat) returns (at: nat)
    requires x in c
    ensures at < |c| && c[at] == x && c[..at + 1] == UpTo(c, x)
  {
    if c[0] == x {
      at := 0;
    } else {
      var rest := PositionOf(c[1..], x);
      at := rest + 1;
      assert c[..at + 1] == [c[0]] + c[1..][..rest + 1];
    }
  }

  /** The list up to its first occurrence of x. */
  function UpTo(c: seq<nat>, x: nat): seq<nat> {
    if c == [] then [] else if c[0] == x then [x] else [c[0]] + UpTo(c[1..], x)
  }

  /** Freeing a block that is free already leaves a shorter list if its index is at least the head, and
      none if it is below. */
  lemma FreeAgain(p: Pool, c: seq<nat>, offset: int)
    requires IsChain(p, c) && FreeIndex(p, offset).Some? && FreeIndex(p, offset).value in c
    ensures var (index, q) := (FreeIndex(p, offset).value, FreeStep(p, offset).1);
            && FreeStep(p, offset).0 == Ok
            && (index >= p.headIndex ==> IsChain(q, UpTo(c, index)))
            && (index < p.headIndex ==> forall ring: seq<nat> :: !IsChain(q, ring))
  {
    MaxFits(p);
    var index, q := FreeIndex(p, offset).value, FreeStep(p, offset).1;
    var at := PositionOf(c, index);
    assert q == if index < p.headIndex then LinkFront(p, index) else LinkBack(p, index);
    hide FreeStep, FreeIndex, LinkFront, LinkBack;
    if index >= p.headIndex {
      FreeAgainCuts(p, c, at);
    } else {
      forall ring: seq<nat> ensures !IsChain(q, ring) {
        FreeAgainCloses(p, c, at, ring);
      }
    }
  }

  /** Freeing writes links only: in the freed block, and in the last free block when pushing at the back. */
  lemma FreeBytes(p: Pool, c: seq<nat>, offset: int, k: nat)
    requires IsChain(p, c) && k < |p.data|
    requires FreeIndex(p, offset).Some? ==> OutsideLink(p, FreeIndex(p, offset).value, k)
    requires c != [] ==> OutsideLink(p, c[|c| - 1], k)
    ensures FreeStep(p, offset).1.data[k] == p.data[k]
  {
    MaxFits(p);
    match FreeIndex(p, offset)
    case None =>
    case Some(index) =>
      if index < p.headIndex {
        LinkBytes(p, index, p.headIndex);
      } else {
        LinkBytes(p, p.tailIndex, index);
        LinkBytes(Link(p, p.tailIndex, index).(tailIndex := index), index, p.maxAllocations);
      }
  }

  lemma BlockStartIndex(p: Pool, i: nat)
    requires Sized(p) && i < p.maxAllocations
    ensures FreeIndex(p, SlotStart(p, i)) == Some(i)
  {
    MaxFits(p);
    TimesDivides(i, p.bytesPerAlloc);
  }

  /** Inside the data region no index is cut down. */
  lemma IndexInRegion(p: Pool, offset: int)
    requires Sized(p) && offset < |p.data| && FreeIndex(p, offset).Some?
    ensures offset == SlotStart(p, FreeIndex(p, offset).value)
  {
    MaxFits(p);
    TimesBelow(offset, p.maxAllocations + 1, p.bytesPerAlloc);
  }

  ghost predicate StartOf(p: Pool, i: nat, offset: int) {
    i < p.maxAllocations && offset == SlotStart(p, i)
  }

  /** Inside the data region these are exactly the starts of the blocks. */
  lemma FreeAcceptsBlockStarts(p: Pool, offset: int)
    requires Sized(p) && p.headIndex <= p.maxAllocations && p.tailIndex <= p.maxAllocations
    requires offset < |p.data|
    ensures FreeStep(p, offset).0 == Ok <==> exists i: nat :: StartOf(p, i, offset)
    ensures forall i: nat :: StartOf(p, i, offset) ==> FreeIndex(p, offset) == Some(i)
  {
    AcceptedIffIndexed(p, offset);
    hide FreeIndex, FreeStep, Sized;
    forall i: nat | StartOf(p, i, offset) ensures FreeIndex(p, offset) == Some(i) {
      BlockStartIndex(p, i);
    }
    if FreeIndex(p, offset).Some? {
      IndexInRegion(p, offset);
      assert StartOf(p, FreeIndex(p, offset).value, offset);
    }
  }

  lemma AcceptedIffIndexed(p: Pool, offset: int)
    requires Sized(p) && p.headIndex <= p.maxAllocations && p.tailIndex <= p.maxAllocations
    ensures FreeStep(p, offset).0 == Ok <==> FreeIndex(p, offset).Some?
    ensures FreeIndex(p, offset).Some? ==> FreeIndex(p, offset).value < p.maxAllocations
  {
  }

  /** The pointer 2^32 blocks on is far outside the data region, and taken for the first block. */
  lemma ForeignPointerAccepted(p: Pool)
    requires Sized(p) && p.headIndex <= p.maxAllocations && p.tailIndex <= p.maxAllocations
    ensures var offset := Times(U32_LIMIT, p.bytesPerAlloc);
            && FreeStep(p, offset).0 == Ok && FreeIndex(p, offset) == Some(0)
            && offset >= |p.data| && forall i: nat :: !StartOf(p, i, offset)
  {
    var offset := Times(U32_LIMIT, p.bytesPerAlloc);
    TimesDivides(U32_LIMIT, p.bytesPerAlloc);
    TimesIsLarge(U32_LIMIT, p.bytesPerAlloc);
    AcceptedIffIndexed(p, offset);
    forall i: nat ensures !StartOf(p, i, offset) {
      if i < p.maxAllocations {
        SlotInside(p, i);
      }
    }
  }

  lemma UncutIndexIsStart(p: Pool, offset: int)
    requires p.bytesPerAlloc > 0 && FreeIndex(p, offset).Some? && offset / p.bytesPerAlloc < U32_LIMIT
    ensures StartOf(p, offset / p.bytesPerAlloc, offset)
  {
    TimesIsProduct(offset / p.bytesPerAlloc, p.bytesPerAlloc);
  }

  lemma StartIsUncut(p: Pool, i: nat, offset: int)
    requires Sized(p) && StartOf(p, i, offset)
    ensures offset / p.bytesPerAlloc < U32_LIMIT
  {
    MaxFits(p);
    TimesDivides(i, p.bytesPerAlloc);
  }

  /** An accepted pointer is a block's start exactly when its index did not lose bits. */
  lemma AcceptedStartsIff(p: Pool, offset: int)
    requires Sized(p) && p.headIndex <= p.maxAllocations && p.tailIndex <= p.maxAllocations
    requires FreeStep(p, offset).0 == Ok
    ensures (exists i: nat :: StartOf(p, i, offset)) <==> offset / p.bytesPerAlloc < U32_LIMIT
  {
    AcceptedIffIndexed(p, offset);
    assert p.bytesPerAlloc > 0 && offset >= 0;
    hide FreeStep, FreeIndex, Sized, StartOf;
    if offset / p.bytesPerAlloc < U32_LIMIT {
      UncutIndexIsStart(p, offset);
    }
    if i: nat :| StartOf(p, i, offset) {
      StartIsUncut(p, i, offset);
    }
  }

  /** The offset of block i, n times 2^32 blocks further on. */
  ghost predicate StartModulo(p: Pool, i: nat, n: nat, offset: int) {
    i < p.maxAllocations && offset == Times(n * U32_LIMIT + i, p.bytesPerAlloc)
  }

  /** The pointers that are accepted, all of them: the starts of blocks, moved on by multiples of 2^32 blocks;
      and each is taken for the block it is such a start of. */
  lemma AcceptedIff(p: Pool, offset: int)
    requires Sized(p) && p.headIndex <= p.maxAllocations && p.tailIndex <= p.maxAllocations
    ensures FreeStep(p, offset).0 == Ok <==> exists i: nat, n: nat :: StartModulo(p, i, n, offset)
    ensures forall i: nat, n: nat | StartModulo(p, i, n, offset) :: FreeIndex(p, offset) == Some(i)
  {
    AcceptedIffIndexed(p, offset);
    MaxFits(p);
    assert p.bytesPerAlloc > 0;
    hide FreeStep, FreeIndex, Sized, Times, StartModulo;
    forall i: nat, n: nat | StartModulo(p, i, n, offset) ensures FreeIndex(p, offset) == Some(i) {
      ModuloIsIndexed(p, i, n, offset);
    }
    if FreeIndex(p, offset).Some? {
      var n := IndexedIsModulo(p, offset);
    }
  }

  lemma ModuloIsIndexed(p: Pool, i: nat, n: nat, offset: int)
    requires p.bytesPerAlloc > 0 && p.maxAllocations < U32_LIMIT && StartModulo(p, i, n, offset)
    ensures FreeIndex(p, offset) == Some(i)
  {
    TimesDivides(n * U32_LIMIT + i, p.bytesPerAlloc);
    RemainderIsUnique(n * U32_LIMIT + i, U32_LIMIT, n, i);
  }

  lemma IndexedIsModulo(p: Pool, offset: int) returns (n: nat)
    requires p.bytesPerAlloc > 0 && FreeIndex(p, offset).Some?
    ensures StartModulo(p, FreeIndex(p, offset).value, n, offset)
  {
    var index := offset / p.bytesPerAlloc;
    n := index / U32_LIMIT;
    assert index == n * U32_LIMIT + index % U32_LIMIT;
    TimesIsProduct(index, p.bytesPerAlloc);
  }

  // Initialization.

  function Iota(n: nat): (c: seq<nat>)
    ensures |c| == n && forall k | 0 <= k < n :: c[k] == k
  {
    if n == 0 then [] else Iota(n - 1) + [n - 1]
  }

  lemma LinkUpToNext(p: Pool, n: nat)
    requires Sized(p) && 0 < n <= p.maxAllocations
    ensures n < U32_LIMIT && LinkUpTo(p, n) == Link(LinkUpTo(p, n - 1), n - 1, n)
  {
    hide Sized, Link;
    MaxFits(p);
  }

  lemma {:induction false} LinkUpToLinks(p: Pool, n: nat, j: nat)
    requires Sized(p) && j < n <= p.maxAllocations
    ensures Next(LinkUpTo(p, n), j) == j + 1
  {
    hide Sized, Next, Link, ByteIndex, LinkUpTo;
    LinkUpToNext(p, n);
    var before := LinkUpTo(p, n - 1);
    if j == n - 1 {
      LinkBytes(before, n - 1, n);
    } else {
      LinkUpToLinks(p, n - 1, j);
      LinkOther(before, n - 1, n, j);
    }
  }

  /** Whatever the memory holds, initialization chains all blocks in ascending order. */
  lemma InitializeChains(p: Pool)
    requires Sized(p)
    ensures IsChain(Initialize(p), Iota(p.maxAllocations))
  {
    var n := p.maxAllocations;
    var q, linked, c := Initialize(p), LinkUpTo(p, n), Iota(n);
    forall k | 0 <= k < |c| ensures Next(q, c[k]) == Successor(q, c, k) {
      LinkUpToLinks(p, n, k);
      NextSame(linked, q, k);
    }
  }

  lemma {:induction false} LinkUpToBytes(p: Pool, n: nat, k: nat)
    requires Sized(p) && n <= p.maxAllocations && k < |p.data|
    requires forall i: nat | i < n :: OutsideLink(p, i, k)
    ensures LinkUpTo(p, n).data[k] == p.data[k]
  {
    hide Sized, Link, LinkUpTo, OutsideLink;
    if n == 0 {
      LinkUpToNothing(p);
    } else {
      LinkUpToNext(p, n);
      LinkUpToBytes(p, n - 1, k);
      SlotSame(p, LinkUpTo(p, n - 1), n - 1, k);
      LinkBytes(LinkUpTo(p, n - 1), n - 1, n);
    }
  }

  lemma LinkUpToNothing(p: Pool)
    requires Sized(p)
    ensures LinkUpTo(p, 0) == p
  {
  }

  lemma SlotSame(p: Pool, q: Pool, i: nat, k: nat)
    requires q.bytesPerAlloc == p.bytesPerAlloc
    ensures OutsideLink(p, i, k) == OutsideLink(q, i, k)
  {
  }

  /** Initialization writes the links of the blocks and no other byte. */
  lemma InitializeBytes(p: Pool, k: nat)
    requires Sized(p) && k < |p.data|
    requires forall i: nat | i < p.maxAllocations :: OutsideLink(p, i, k)
    ensures Initialize(p).data[k] == p.data[k]
  {
    hide OutsideLink;
    LinkUpToBytes(p, p.maxAllocations, k);
  }

  // Round trips and exhaustion.

  lemma ChainBounds(p: Pool, c: seq<nat>)
    requires IsChain(p, c)
    ensures Sized(p) && p.headIndex <= p.maxAllocations && p.tailIndex <= p.maxAllocations
    ensures c != [] ==> c[0] < p.maxAllocations && c[0] !in c[1..]
  {
  }

  lemma HeadReturns(p: Pool, c: seq<nat>)
    requires c != [] && c[0] < p.maxAllocations
    ensures FreeChain(p, c[1..], c[0]) == if |c| == 1 || c[0] < c[1] then c else c[1..] + [c[0]]
  {
    assert [c[0]] + c[1..] == c;
  }

  /** Allocating and freeing at once restores the chain when the block is smaller than the rest's head,
      and moves it to the back otherwise. */
  lemma AllocThenFree(p: Pool, c: seq<nat>) returns (a: Allocated, q: Pool)
    requires IsChain(p, c) && c != []
    ensures a == AllocStep(p) && a.result == Ok && IsChain(a.pool, c[1..])
    ensures FreeStep(a.pool, a.offset) == (Ok, q)
    ensures IsChain(q, if |c| == 1 || c[0] < c[1] then c else c[1..] + [c[0]])
  {
    hide Sized, AllocStep, FreeStep, FreeIndex, IsChain, FreeChain;
    ChainBounds(p, c);
    AllocPops(p, c);
    a := AllocStep(p);
    ChainBounds(a.pool, c[1..]);
    BlockStartIndex(a.pool, c[0]);
    q := FreeStep(a.pool, a.offset).1;
    FreePushes(a.pool, c[1..], a.offset);
    HeadReturns(a.pool, c);
  }
}
