/** The pool allocator's fields as a value, its operations on that value, and the free list that is
    threaded through the free blocks' own bytes. */
module PoolModel {
  import opened Common
  import opened MemoryHelpers
  import opened Words
  import opened Bits

  datatype Pool = Pool(
    maxAllocations: nat,
    bytesPerAlloc: nat,
    headIndex: nat,
    tailIndex: nat,
    data: seq<byte>)

  /** Where slot i starts in the data region. */
  function SlotStart(p: Pool, i: nat): nat {
    Times(i, p.bytesPerAlloc)
  }

  /** Room for every block and for the terminal index, in 32-bit arithmetic. */
  ghost predicate Sized(p: Pool) {
    && p.maxAllocations >= 1 && p.bytesPerAlloc >= 4
    && SlotStart(p, p.maxAllocations + 1) < U32_LIMIT
    && |p.data| == SlotStart(p, p.maxAllocations + 1)
  }

  function ByteIndex(p: Pool, i: nat): nat {
    SlotStart(p, i) % U32_LIMIT
  }

  lemma SlotInside(p: Pool, i: nat)
    requires Sized(p) && i <= p.maxAllocations
    ensures ByteIndex(p, i) == SlotStart(p, i) && SlotStart(p, i) + p.bytesPerAlloc <= |p.data|
    ensures i <= p.maxAllocations < U32_LIMIT
  {
    TimesGrows(i, p.maxAllocations + 1, p.bytesPerAlloc);
    MaxFits(p);
  }

  lemma MaxFits(p: Pool)
    requires Sized(p)
    ensures p.maxAllocations < U32_LIMIT
  {
    TimesIsLarge(p.maxAllocations + 1, p.bytesPerAlloc);
  }

  function Next(p: Pool, i: nat): nat
    requires Sized(p) && i <= p.maxAllocations
  {
    SlotInside(p, i);
    ReadWord(p.data, ByteIndex(p, i))
  }

  function Link(p: Pool, i: nat, n: nat): (q: Pool)
    requires Sized(p) && i <= p.maxAllocations && n < U32_LIMIT
    ensures Sized(q) && q == p.(data := q.data) && |q.data| == |p.data|
  {
    SlotInside(p, i);
    p.(data := WriteWord(p.data, ByteIndex(p, i), n))
  }

  // The operations.

  datatype Allocated = Allocated(result: Result, offset: nat, pool: Pool)

  function AllocStep(p: Pool): Allocated
    requires Sized(p) && p.headIndex <= p.maxAllocations
  {
    if p.headIndex == p.maxAllocations then Allocated(NoMemory, 0, p)
    else
      var head := Next(p, p.headIndex);
      var tail := if head == p.maxAllocations then p.maxAllocations else p.tailIndex;
      Allocated(Ok, ByteIndex(p, p.headIndex), p.(headIndex := head, tailIndex := tail))
  }

  /** The block that a pointer at `offset` from the data region names, if `free` takes it for one.
      The index is cut down to 32 bits before it is compared. */
  function FreeIndex(p: Pool, offset: int): Option<nat>
    requires p.bytesPerAlloc > 0
  {
    if offset < 0 || offset % p.bytesPerAlloc != 0 then None
    else
      var index := offset / p.bytesPerAlloc % U32_LIMIT;
      if index >= p.maxAllocations then None else Some(index)
  }

  function FreeStep(p: Pool, offset: int): (Result, Pool)
    requires Sized(p) && p.headIndex <= p.maxAllocations && p.tailIndex <= p.maxAllocations
  {
    match FreeIndex(p, offset)
    case None => (InvalidPointer, p)
    case Some(index) =>
      MaxFits(p);
      var q :=
        if index < p.headIndex then Link(p, index, p.headIndex).(headIndex := index)
        else Link(Link(p, p.tailIndex, index).(tailIndex := index), index, p.maxAllocations);
      (Ok, if q.tailIndex == q.maxAllocations then q.(tailIndex := q.headIndex) else q)
  }

  /** Links slot i to slot i+1 for the first n slots. */
  function LinkUpTo(p: Pool, n: nat): (q: Pool)
    requires Sized(p) && n <= p.maxAllocations
    ensures Sized(q) && q == p.(data := q.data) && |q.data| == |p.data|
  {
    MaxFits(p);
    if n == 0 then p else Link(LinkUpTo(p, n - 1), n - 1, n)
  }

  function Initialize(p: Pool): (q: Pool)
    requires Sized(p)
    ensures Sized(q)
  {
    LinkUpTo(p, p.maxAllocations).(headIndex := 0, tailIndex := p.maxAllocations - 1)
  }

  // The free list.

  ghost predicate Distinct(c: seq<nat>) {
    forall i, j | 0 <= i < j < |c| :: c[i] != c[j]
  }

  function HeadOf(p: Pool, c: seq<nat>): nat {
    if c == [] then p.maxAllocations else c[0]
  }

  function TailOf(p: Pool, c: seq<nat>): nat {
    if c == [] then p.maxAllocations else c[|c| - 1]
  }

  function Successor(p: Pool, c: seq<nat>, k: nat): nat {
    if k + 1 < |c| then c[k + 1] else p.maxAllocations
  }

  /** `c` lists the free blocks in the order in which they will be handed out. */
  ghost predicate IsChain(p: Pool, c: seq<nat>) {
    && Sized(p) && Distinct(c)
    && (forall k | 0 <= k < |c| :: c[k] < p.maxAllocations)
    && p.headIndex == HeadOf(p, c) && p.tailIndex == TailOf(p, c)
    && (forall k {:trigger Next(p, c[k])} | 0 <= k < |c| :: Next(p, c[k]) == Successor(p, c, k))
  }

  /** Follows the links from index i until the terminal index. */
  function Follow(p: Pool, i: nat, fuel: nat): seq<nat>
    requires Sized(p)
    decreases fuel
  {
    if i >= p.maxAllocations || fuel == 0 then [] else [i] + Follow(p, Next(p, i), fuel - 1)
  }

  /** The chain that the bytes spell out. */
  function Chain(p: Pool): seq<nat>
    requires Sized(p)
  {
    Follow(p, p.headIndex, p.maxAllocations)
  }

  lemma {:induction false} DistinctIsShort(c: seq<nat>, n: nat)
    requires Distinct(c) && forall k | 0 <= k < |c| :: c[k] < n
    ensures |c| <= n
  {
    var s := Elements(c);
    ElementsCount(c);
    assert s <= Below(n);
    SubsetCount(s, Below(n));
  }

  function Elements(c: seq<nat>): set<nat> {
    set k | 0 <= k < |c| :: c[k]
  }

  function Below(n: nat): (s: set<nat>)
    ensures |s| == n
    ensures forall i: nat :: i in s <==> i < n
  {
    if n == 0 then {} else Below(n - 1) + {n - 1}
  }

  lemma {:induction false} ElementsCount(c: seq<nat>)
    requires Distinct(c)
    ensures |Elements(c)| == |c|
  {
    if c != [] {
      var front, x := c[..|c| - 1], c[|c| - 1];
      ElementsCount(front);
      assert x !in Elements(front);
      assert Elements(c) == Elements(front) + {x} by {
        assert forall k | 0 <= k < |front| :: c[k] == front[k];
      }
    } else {
      assert Elements(c) == {};
    }
  }

  lemma SubsetCount(a: set<nat>, b: set<nat>)
    requires a <= b
    ensures |a| <= |b| && |b - a| == |b| - |a|
  {
    assert b == a + (b - a);
  }

  lemma {:induction false} FollowIsSuffix(p: Pool, c: seq<nat>, k: nat, fuel: nat)
    requires IsChain(p, c) && k <= |c| && |c| - k <= fuel
    ensures Follow(p, if k < |c| then c[k] else p.maxAllocations, fuel) == c[k..]
    decreases |c| - k
  {
    hide Sized, Next, Distinct;
    if k < |c| {
      FollowIsSuffix(p, c, k + 1, fuel - 1);
      assert c[k..] == [c[k]] + c[k + 1..];
    }
  }

  /** The bytes spell out the chain. */
  lemma ChainIsDecoded(p: Pool, c: seq<nat>)
    requires IsChain(p, c)
    ensures Chain(p) == c
  {
    DistinctIsShort(c, p.maxAllocations);
    FollowIsSuffix(p, c, 0, p.maxAllocations);
  }
}
