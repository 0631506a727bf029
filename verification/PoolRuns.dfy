/** Every run of a pool: the allocator's operations interleaved with arbitrary writes to live blocks. */
module PoolRuns {
  import opened Common
  import opened Bits
  import opened PoolModel
  import opened PoolFreeList

  datatype Op = Alloc | Free(offset: int) | Reset | Write(block: nat, at: nat, value: byte)

  /** The allocator, an abstract free list that knows no bytes, and the blocks that clients hold. */
  datatype Run = Run(pool: Pool, free: seq<nat>, live: set<nat>)

  /** The bytes are a free list in exactly the abstract order, and clients hold exactly the other blocks. */
  ghost predicate RunInv(r: Run) {
    && IsChain(r.pool, r.free)
    && (forall i: nat :: i in r.live <==> i < r.pool.maxAllocations && i !in r.free)
  }

  ghost predicate Bounded(p: Pool) {
    Sized(p) && p.headIndex <= p.maxAllocations && p.tailIndex <= p.maxAllocations
  }

  /** The free list that the bytes spell out is the abstract one. */
  lemma BytesSpellFreeList(r: Run)
    requires RunInv(r)
    ensures Bounded(r.pool) && Chain(r.pool) == r.free
  {
    ChainBounds(r.pool, r.free);
    ChainIsDecoded(r.pool, r.free);
  }

  /** Clients free only what they hold, as far as the allocator takes the pointer for a block,
      and write only inside blocks that they hold. */
  ghost predicate Allowed(r: Run, op: Op) {
    match op
    case Alloc => true
    case Free(offset) =>
      r.pool.bytesPerAlloc > 0 && (FreeIndex(r.pool, offset).Some? ==> FreeIndex(r.pool, offset).value in r.live)
    case Reset => true
    case Write(block, at, _) => block in r.live && block < r.pool.maxAllocations && at < r.pool.bytesPerAlloc
  }

  function WriteByte(p: Pool, block: nat, at: nat, value: byte): Pool
    requires Sized(p) && block < p.maxAllocations && at < p.bytesPerAlloc
  {
    SlotInside(p, block);
    p.(data := p.data[SlotStart(p, block) + at := value])
  }

  // One step of both machines: the allocator works on bytes, the free list on indices.

  function BlockAt(p: Pool, offset: nat): nat
    requires p.bytesPerAlloc > 0
  {
    offset / p.bytesPerAlloc
  }

  ghost function AllocRun(r: Run): Run
    requires Bounded(r.pool)
  {
    var a := AllocStep(r.pool);
    Run(a.pool,
        if r.free == [] then [] else r.free[1..],
        if a.result == Ok then r.live + {BlockAt(r.pool, a.offset)} else r.live)
  }

  ghost function FreeRun(r: Run, offset: int): Run
    requires Bounded(r.pool)
  {
    match FreeIndex(r.pool, offset)
    case None => r.(pool := FreeStep(r.pool, offset).1)
    case Some(index) => Run(FreeStep(r.pool, offset).1, FreeChain(r.pool, r.free, index), r.live - {index})
  }

  ghost function Advance(r: Run, op: Op): (q: Run)
    requires Bounded(r.pool) && Allowed(r, op)
  {
    match op
    case Alloc => AllocRun(r)
    case Free(offset) => FreeRun(r, offset)
    case Reset => Run(Initialize(r.pool), Iota(r.pool.maxAllocations), {})
    case Write(block, at, value) => r.(pool := WriteByte(r.pool, block, at, value))
  }

  lemma BytesPositive(p: Pool)
    requires Sized(p)
    ensures p.bytesPerAlloc >= 4 && p.maxAllocations >= 1
  {
  }

  lemma TailMembers(c: seq<nat>)
    requires Distinct(c) && c != []
    ensures forall x :: x in c[1..] <==> x in c && x != c[0]
  {
    forall x | x in c && x != c[0] ensures x in c[1..] {
      var k :| 0 <= k < |c| && x == c[k];
      assert c[1..][k - 1] == x;
    }
  }

  lemma AllocKeeps(r: Run)
    requires RunInv(r)
    ensures Bounded(r.pool) && RunInv(AllocRun(r)) && AllocRun(r).pool.data == r.pool.data && r.live <= AllocRun(r).live
    ensures AllocStep(r.pool).result == if r.free == [] then NoMemory else Ok
    ensures r.free != [] ==> AllocStep(r.pool).offset == SlotStart(r.pool, r.free[0])
  {
    hide Sized, Next, AllocStep;
    var p, c := r.pool, r.free;
    AllocPops(p, c);
    if c != [] {
      BytesPositive(p);
      TimesDivides(c[0], p.bytesPerAlloc);
      TailMembers(c);
    }
  }

  lemma FreeKeeps(r: Run, offset: int)
    requires RunInv(r) && Allowed(r, Free(offset))
    ensures Bounded(r.pool) && RunInv(FreeRun(r, offset))
  {
    hide Sized, Next, FreeStep, FreeIndex;
    var p, c := r.pool, r.free;
    AcceptedIffIndexed(p, offset);
    FreePushes(p, c, offset);
    SameConstants(p, offset);
  }

  lemma SameConstants(p: Pool, offset: int)
    requires Bounded(p)
    ensures SameShape(p, FreeStep(p, offset).1)
  {
    hide Sized, Link, FreeIndex;
  }

  ghost predicate SameShape(p: Pool, q: Pool) {
    q.maxAllocations == p.maxAllocations && q.bytesPerAlloc == p.bytesPerAlloc && |q.data| == |p.data|
  }

  /** Whatever the memory holds, every run starts with all blocks free, in ascending order. */
  lemma RunsStart(p: Pool)
    requires Sized(p)
    ensures RunInv(Run(Initialize(p), Iota(p.maxAllocations), {}))
  {
    hide Sized, Next, LinkUpTo;
    InitializeChains(p);
    var c := Iota(p.maxAllocations);
    forall i: nat | i < p.maxAllocations ensures i in c {
      assert c[i] == i;
    }
  }

  lemma WriteBytes(p: Pool, block: nat, at: nat, value: byte)
    requires Sized(p) && block < p.maxAllocations && at < p.bytesPerAlloc
    ensures var q := WriteByte(p, block, at, value);
            && Sized(q) && q == p.(data := q.data) && SlotStart(p, block) + at < |q.data| == |p.data|
            && InSlot(p, block, SlotStart(p, block) + at)
            && q.data[SlotStart(p, block) + at] == value
            && forall k | 0 <= k < |p.data| && k != SlotStart(p, block) + at :: q.data[k] == p.data[k]
  {
    SlotInside(p, block);
    hide Sized;
    SizedData(p, WriteByte(p, block, at, value));
  }

  lemma SizedData(p: Pool, q: Pool)
    requires Sized(p) && SameShape(p, q)
    ensures Sized(q)
  {
  }

  /** A client write to a block that is not free changes no link. */
  lemma WriteKeepsChain(p: Pool, c: seq<nat>, block: nat, at: nat, value: byte)
    requires IsChain(p, c) && block < p.maxAllocations && at < p.bytesPerAlloc && block !in c
    ensures IsChain(WriteByte(p, block, at, value), c)
  {
    hide Sized, Next, WriteByte;
    var q := WriteByte(p, block, at, value);
    WriteBytes(p, block, at, value);
    BytesPositive(p);
    forall k | 0 <= k < |c| ensures Next(q, c[k]) == Successor(q, c, k) {
      assert c[k] in c;
      forall x | 0 <= x < |p.data| && InSlot(p, c[k], x) ensures q.data[x] == p.data[x] {
        SlotsAreDisjoint(p, c[k], block, x);
      }
      NextSame(p, q, c[k]);
      assert Next(p, c[k]) == Successor(p, c, k);
    }
  }

  /** Allocation moves the first free block to the live ones, freeing moves one back to either end, reset frees
      all blocks in ascending order, and a client write changes one byte. */
  ghost predicate Effect(r: Run, op: Op, q: Run)
    requires Allowed(r, op)
  {
    match op
    case Alloc =>
      && q.pool.data == r.pool.data
      && if r.free == [] then q.free == [] && q.live == r.live
         else q.free == r.free[1..] && q.live == r.live + {r.free[0]}
    case Free(offset) =>
      if FreeIndex(r.pool, offset).None? then q == r
      else
        var i := FreeIndex(r.pool, offset).value;
        && q.live == r.live - {i}
        && q.free == if r.free == [] || i < r.free[0] then [i] + r.free else r.free + [i]
    case Reset => q.live == {} && |q.free| == r.pool.maxAllocations && forall k | 0 <= k < |q.free| :: q.free[k] == k
    case Write(block, at, value) =>
      && q.live == r.live && q.free == r.free && |q.pool.data| == |r.pool.data|
      && forall k | 0 <= k < |r.pool.data| ::
           q.pool.data[k] == if k == SlotStart(r.pool, block) + at then value else r.pool.data[k]
  }

  lemma AdvanceEffect(r: Run, op: Op)
    requires RunInv(r) && Allowed(r, op)
    ensures Bounded(r.pool) && Effect(r, op, Advance(r, op))
  {
    ChainBounds(r.pool, r.free);
    hide Sized, Next, AllocStep, FreeStep, FreeIndex, Initialize, WriteByte;
    match op
    case Alloc =>
      AllocKeeps(r);
      if r.free != [] {
        BytesPositive(r.pool);
        TimesDivides(r.free[0], r.pool.bytesPerAlloc);
      }
    case Free(offset) =>
      AcceptedIffIndexed(r.pool, offset);
      FreePushes(r.pool, r.free, offset);
      if FreeIndex(r.pool, offset).Some? && r.free == [] {
        assert [FreeIndex(r.pool, offset).value] + r.free == r.free + [FreeIndex(r.pool, offset).value];
      }
    case Reset =>
    case Write(block, at, value) => WriteBytes(r.pool, block, at, value);
  }

  /** Every operation keeps the bytes and the abstract free list in step. */
  lemma AdvanceKeeps(r: Run, op: Op)
    requires RunInv(r) && Allowed(r, op)
    ensures Bounded(r.pool) && RunInv(Advance(r, op)) && SameShape(r.pool, Advance(r, op).pool)
  {
    ChainBounds(r.pool, r.free);
    AdvanceConstants(r, op);
    hide AllocRun, FreeRun, IsChain;
    match op
    case Alloc => AllocKeeps(r);
    case Free(offset) => FreeKeeps(r, offset);
    case Reset => RunsStart(r.pool);
    case Write(block, at, value) => WriteKeepsChain(r.pool, r.free, block, at, value);
  }

  lemma AdvanceConstants(r: Run, op: Op)
    requires Bounded(r.pool) && Allowed(r, op)
    ensures SameShape(r.pool, Advance(r, op).pool)
  {
    hide Sized, Next, Link, FreeIndex, LinkUpTo, FreeStep, WriteByte;
    match op
    case Alloc =>
    case Free(offset) => SameConstants(r.pool, offset);
    case Reset =>
    case Write(block, at, value) => WriteBytes(r.pool, block, at, value);
  }

  // Whole runs: the states that the operations lead through.

  ghost predicate Step(rs: seq<Run>, ops: seq<Op>, i: nat)
    requires |rs| == |ops| + 1 && i < |ops|
  {
    Bounded(rs[i].pool) && Allowed(rs[i], ops[i]) && rs[i + 1] == Advance(rs[i], ops[i])
  }

  ghost predicate Trace(rs: seq<Run>, ops: seq<Op>) {
    |rs| == |ops| + 1 && forall i {:trigger Step(rs, ops, i)} | 0 <= i < |ops| :: Step(rs, ops, i)
  }

  /** In every state of a run the bytes spell out the abstract free list. */
  lemma {:induction false} TraceRefines(rs: seq<Run>, ops: seq<Op>, i: nat, n: nat)
    requires Trace(rs, ops) && i <= n <= |ops| && RunInv(rs[i])
    ensures RunInv(rs[n]) && SameShape(rs[i].pool, rs[n].pool)
    ensures Sized(rs[n].pool) && Chain(rs[n].pool) == rs[n].free
    decreases n - i
  {
    hide RunInv, Advance, Allowed, Chain;
    if i == n {
      BytesSpellFreeList(rs[n]);
    } else {
      assert Step(rs, ops, i);
      AdvanceKeeps(rs[i], ops[i]);
      TraceRefines(rs, ops, i + 1, n);
    }
  }

  /** Held and free blocks partition all blocks, so their numbers add up to the maximum. */
  lemma Conservation(r: Run)
    requires RunInv(r)
    ensures |r.live| + |r.free| == r.pool.maxAllocations
    ensures forall i: nat | i < r.pool.maxAllocations :: i in r.live <==> i !in r.free
  {
    hide Next, Sized;
    var all := Below(r.pool.maxAllocations);
    ElementsCount(r.free);
    forall i: nat ensures i in Elements(r.free) <==> i in r.free {
    }
    assert r.live == all - Elements(r.free);
    SubsetCount(Elements(r.free), all);
  }

  /** From every reachable state k allocations in a row take the first k free blocks. */
  lemma {:induction false} AllocsTakeFront(rs: seq<Run>, ops: seq<Op>, i: nat, k: nat)
    requires Trace(rs, ops) && i + k <= |ops| && RunInv(rs[i])
    requires forall j | i <= j < i + k :: ops[j] == Alloc
    ensures RunInv(rs[i + k]) && SameShape(rs[i].pool, rs[i + k].pool)
    ensures rs[i + k].free == if k <= |rs[i].free| then rs[i].free[k..] else []
    decreases k
  {
    hide RunInv, AllocStep;
    if k > 0 {
      assert Step(rs, ops, i);
      AdvanceKeeps(rs[i], ops[i]);
      AllocsTakeFront(rs, ops, i + 1, k - 1);
    }
  }

  /** After k allocations the next one hands out the k-th free block of the beginning, or fails when
      there were no more than k. */
  lemma Exhaustion(rs: seq<Run>, ops: seq<Op>, i: nat, k: nat) returns (a: Allocated)
    requires Trace(rs, ops) && i + k <= |ops| && RunInv(rs[i])
    requires forall j | i <= j < i + k :: ops[j] == Alloc
    ensures Bounded(rs[i + k].pool) && a == AllocStep(rs[i + k].pool)
    ensures if k < |rs[i].free| then a.result == Ok && a.offset == SlotStart(rs[i].pool, rs[i].free[k])
            else a.result == NoMemory
  {
    hide RunInv, AllocStep;
    AllocsTakeFront(rs, ops, i, k);
    AllocKeeps(rs[i + k]);
    a := AllocStep(rs[i + k].pool);
  }

  // Live blocks.

  /** The operation neither gives block b back nor writes to it. */
  ghost predicate Spares(p: Pool, op: Op, b: nat) {
    match op
    case Alloc => true
    case Free(offset) => p.bytesPerAlloc > 0 && FreeIndex(p, offset) != Some(b)
    case Reset => false
    case Write(block, _, _) => block != b
  }

  lemma AdvanceSpares(r: Run, op: Op, b: nat, k: nat)
    requires RunInv(r) && Allowed(r, op) && b in r.live && Spares(r.pool, op, b)
    requires k < |r.pool.data| && InSlot(r.pool, b, k)
    ensures Bounded(r.pool) && b in Advance(r, op).live && k < |Advance(r, op).pool.data|
    ensures Advance(r, op).pool.data[k] == r.pool.data[k]
  {
    ChainBounds(r.pool, r.free);
    AdvanceConstants(r, op);
    hide Sized, Next, AllocStep, FreeStep, WriteByte, FreeIndex;
    var p, c := r.pool, r.free;
    BytesPositive(p);
    match op
    case Alloc => AllocKeeps(r);
    case Free(offset) =>
      if c != [] {
        assert c[|c| - 1] in c;
        SlotsAreDisjoint(p, b, c[|c| - 1], k);
      }
      if FreeIndex(p, offset).Some? {
        SlotsAreDisjoint(p, b, FreeIndex(p, offset).value, k);
      }
      FreeBytes(p, c, offset, k);
    case Reset =>
    case Write(block, at, value) =>
      WriteBytes(p, block, at, value);
      SlotsAreDisjoint(p, b, block, k);
  }

  /** As long as a client holds a block, its bytes change only by writes to that block. */
  lemma {:induction false} LiveBytesKept(rs: seq<Run>, ops: seq<Op>, i: nat, n: nat, b: nat, k: nat)
    requires Trace(rs, ops) && i <= n <= |ops| && RunInv(rs[i]) && b in rs[i].live
    requires forall j | i <= j < n :: Spares(rs[i].pool, ops[j], b)
    requires k < |rs[i].pool.data| && InSlot(rs[i].pool, b, k)
    ensures b in rs[n].live && k < |rs[n].pool.data| && rs[n].pool.data[k] == rs[i].pool.data[k]
    decreases n - i
  {
    hide RunInv, Advance, Allowed;
    if i < n {
      assert Step(rs, ops, i);
      AdvanceKeeps(rs[i], ops[i]);
      AdvanceSpares(rs[i], ops[i], b, k);
      assert forall j | i < j < n :: Spares(rs[i + 1].pool, ops[j], b) == Spares(rs[i].pool, ops[j], b);
      LiveBytesKept(rs, ops, i + 1, n, b, k);
    }
  }

  /** The blocks that clients hold lie apart from each other, inside the data region. */
  lemma LiveBlocksAreSeparate(r: Run, i: nat, j: nat)
    requires RunInv(r) && i in r.live && j in r.live && i < j
    ensures SlotStart(r.pool, i) + r.pool.bytesPerAlloc <= SlotStart(r.pool, j)
    ensures SlotStart(r.pool, j) + r.pool.bytesPerAlloc <= |r.pool.data|
  {
    hide Next;
    SlotInside(r.pool, j);
    TimesGrows(i, j, r.pool.bytesPerAlloc);
  }
}
