/** Every run of a linear allocator: allocations, savepoints, restores and resets, interleaved with
    arbitrary writes to live blocks. */
module LinearRuns {
  import opened Common
  import opened Bits
  import opened MemoryHelpers
  import opened LinearModel

  datatype Op = Alloc(size: nat) | Save | Restore(mark: nat) | Reset | Write(block: nat, at: nat, value: byte)

  /** A live block: where it starts, the bytes its client may use, and the room it takes up. */
  datatype Block = Block(start: nat, size: nat, room: nat)

  /** A savepoint, and how many blocks were live when it was set. */
  datatype Mark = Mark(index: nat, count: nat)

  /** The allocator, the live blocks and the valid savepoints in the order of their creation, the bytes
      of the data region, and how often the commitment has grown. */
  datatype Run = Run(arena: Arena, live: seq<Block>, marks: seq<Mark>, mem: seq<byte>, growths: nat)

  /** The index that a savepoint stores, in 32 bits. */
  function SavepointIndex(a: Arena): nat {
    a.headIndex % U32_LIMIT
  }

  /** The room that blocks take up together. */
  function Extent(blocks: seq<Block>): nat {
    if blocks == [] then 0 else Extent(blocks[..|blocks| - 1]) + blocks[|blocks| - 1].room
  }

  /** Every block starts where the ones before it end, and takes up the least multiple of the alignment that holds
      it. */
  ghost predicate LaidOut(blocks: seq<Block>, alignment: nat) {
    forall i | 0 <= i < |blocks| ::
      && blocks[i].size <= blocks[i].room < blocks[i].size + alignment && Multiple(blocks[i].room, alignment)
      && blocks[i].start == Extent(blocks[..i])
  }

  ghost predicate Marked(marks: seq<Mark>, live: seq<Block>) {
    && (forall k | 0 <= k < |marks| ::
          marks[k].count <= |live| && marks[k].index == Extent(live[..marks[k].count]))
    && (forall j, k | 0 <= j < k < |marks| :: marks[j].count <= marks[k].count)
  }

  ghost predicate RunInv(r: Run) {
    var a := r.arena;
    && Inv(a)
    && LaidOut(r.live, a.alignment) && a.headIndex == Extent(r.live)
    && Marked(r.marks, r.live)
    && a.headerSize + |r.mem| == TotalReservation(a)
    && Times(r.growths + 1, a.sysPageSize) <= a.headerSize + a.currDataSize
  }

  ghost predicate Allowed(r: Run, op: Op) {
    match op
    case Alloc(size) => size < U32_LIMIT
    case Restore(mark) => mark < |r.marks| && r.marks[mark].count <= |r.live|
    case Write(block, at, _) =>
      block < |r.live| && at < r.live[block].size && r.live[block].start + at < |r.mem|
    case _ => true
  }

  function AllocRun(r: Run, size: nat): Run {
    var (out, b) := AllocStep(r.arena, size);
    match out
    case None => r
    case Some(start) =>
      r.(arena := b, live := r.live + [Block(start, size, AlignUp(size, r.arena.alignment))],
         growths := if b.currDataSize > r.arena.currDataSize then r.growths + 1 else r.growths)
  }

  function RestoreRun(r: Run, mark: nat): Run
    requires mark < |r.marks| && r.marks[mark].count <= |r.live|
  {
    r.(arena := r.arena.(headIndex := r.marks[mark].index),
       live := r.live[..r.marks[mark].count],
       marks := r.marks[..mark + 1])
  }

  /** Restoring invalidates the later savepoints, resetting all of them. */
  ghost function Advance(r: Run, op: Op): Run
    requires Allowed(r, op)
  {
    match op
    case Alloc(size) => AllocRun(r, size)
    case Save => r.(marks := r.marks + [Mark(SavepointIndex(r.arena), |r.live|)])
    case Restore(mark) => RestoreRun(r, mark)
    case Reset => r.(arena := r.arena.(headIndex := 0), live := [], marks := [])
    case Write(block, at, value) => r.(mem := r.mem[r.live[block].start + at := value])
  }

  // Layout.

  lemma {:induction false} ExtentAligned(blocks: seq<Block>, alignment: nat)
    requires alignment >= 1 && forall i | 0 <= i < |blocks| :: Multiple(blocks[i].room, alignment)
    ensures Multiple(Extent(blocks), alignment)
  {
    if blocks != [] {
      var front, room := blocks[..|blocks| - 1], blocks[|blocks| - 1].room;
      ExtentAligned(front, alignment);
      MultipleSum(Extent(front), room, alignment);
    }
  }

  lemma {:induction false} ExtentGrows(blocks: seq<Block>, i: nat, j: nat)
    requires i <= j <= |blocks|
    ensures Extent(blocks[..i]) <= Extent(blocks[..j])
    ensures i < j ==> Extent(blocks[..i]) + blocks[i].room <= Extent(blocks[..j])
  {
    if i < j {
      assert blocks[..j][..j - 1] == blocks[..j - 1];
      ExtentGrows(blocks, i, j - 1);
    }
  }

  lemma BlocksPush(live: seq<Block>, marks: seq<Mark>, block: Block, alignment: nat)
    requires LaidOut(live, alignment) && Marked(marks, live)
    requires block.size <= block.room < block.size + alignment && Multiple(block.room, alignment)
    requires block.start == Extent(live)
    ensures LaidOut(live + [block], alignment) && Marked(marks, live + [block])
    ensures Extent(live + [block]) == block.start + block.room
  {
    var all := live + [block];
    assert forall k | 0 <= k <= |live| :: all[..k] == live[..k];
    assert live[..|live|] == live;
  }

  lemma LaidOutPrefix(blocks: seq<Block>, n: nat, alignment: nat)
    requires LaidOut(blocks, alignment) && n <= |blocks|
    ensures LaidOut(blocks[..n], alignment)
  {
    assert forall i | 0 <= i < n :: blocks[..n][..i] == blocks[..i];
  }

  // Operations keep the invariant.

  lemma AllocRunKeeps(r: Run, size: nat)
    requires RunInv(r) && size < U32_LIMIT
    ensures RunInv(AllocRun(r, size)) && r.arena.currDataSize <= AllocRun(r, size).arena.currDataSize
    ensures SameSetup(r.arena, AllocRun(r, size).arena)
  {
    hide Inv, AlignUp, AllocStep, Extent, LaidOut, Marked, TotalReservation;
    AllocKeeps(r.arena, size);
    var (out, b) := AllocStep(r.arena, size);
    if out.Some? {
      var room := AlignUp(size, r.arena.alignment);
      RoomIsAligned(r.arena, size);
      BlocksPush(r.live, r.marks, Block(r.arena.headIndex, size, room), r.arena.alignment);
      ReservationSame(r.arena, b);
      if b.currDataSize > r.arena.currDataSize {
        GrowthIsPaged(r.arena, size);
        var total, total' := r.arena.headerSize + r.arena.currDataSize, b.headerSize + b.currDataSize;
        OneMorePage(r.growths, r.arena.sysPageSize, total, total');
      }
    }
  }

  lemma RoomIsAligned(a: Arena, size: nat)
    requires Inv(a) && size < U32_LIMIT
    ensures size <= AlignUp(size, a.alignment) < size + a.alignment
    ensures Multiple(AlignUp(size, a.alignment), a.alignment)
  {
    hide AlignUp;
    AlignedSize(a, size);
    SetupIsConfigured(a);
    MultipleIsRemainderFree(AlignUp(size, a.alignment), a.alignment);
  }

  ghost predicate SameSetup(a: Arena, b: Arena) {
    b == a.(currDataSize := b.currDataSize, headIndex := b.headIndex)
  }

  lemma ReservationSame(a: Arena, b: Arena)
    requires SameSetup(a, b)
    ensures TotalReservation(a) == TotalReservation(b)
  {
  }

  lemma GrowthIsPaged(a: Arena, size: nat)
    requires Inv(a) && AllocStep(a, size).1.currDataSize > a.currDataSize
    ensures (AllocStep(a, size).1.currDataSize + a.headerSize) % a.sysPageSize == 0 && a.sysPageSize > 0
  {
    hide AlignUp, Grown, IsPow2, IsValidAlignment;
    GrowthCovers(a, a.headIndex + size);
  }

  lemma OneMorePage(growths: nat, page: nat, total: nat, total': nat)
    requires page > 0 && Times(growths + 1, page) <= total < total' && total' % page == 0
    ensures Times(growths + 2, page) <= total'
  {
    TimesIsProduct(growths + 1, page);
    TimesIsProduct(growths + 2, page);
    var n := total' / page;
    assert total' == page * n;
    if n < growths + 2 {
      if n < growths + 1 {
        LessByAMultiple(page, n, growths + 1);
      }
    } else if n > growths + 2 {
      LessByAMultiple(page, growths + 2, n);
    }
  }

  /** A savepoint loses nothing: the head always fits in 32 bits. */
  lemma SavepointIsExact(a: Arena)
    requires Inv(a)
    ensures SavepointIndex(a) == a.headIndex
  {
    hide AlignUp, IsPow2, IsValidAlignment;
    ReservationBounds(a);
  }

  lemma HeadMoves(a: Arena, head: nat)
    requires Inv(a) && head <= a.headIndex && Multiple(head, a.alignment)
    ensures Inv(a.(headIndex := head))
  {
    hide AlignUp;
  }

  /** Cutting the blocks at a savepoint keeps the layout and the savepoints up to that one. */
  lemma BlocksCut(live: seq<Block>, marks: seq<Mark>, mark: nat, alignment: nat)
    requires LaidOut(live, alignment) && Marked(marks, live) && mark < |marks| && alignment >= 1
    ensures var cut := live[..marks[mark].count];
            && LaidOut(cut, alignment) && Marked(marks[..mark + 1], cut)
            && marks[mark].index == Extent(cut) <= Extent(live) && Multiple(Extent(cut), alignment)
  {
    hide Multiple, Extent;
    var n := marks[mark].count;
    LaidOutPrefix(live, n, alignment);
    ExtentAligned(live[..n], alignment);
    ExtentGrows(live, n, |live|);
    assert live[..|live|] == live;
    MarkedPrefix(live, marks, mark);
  }

  lemma MarkedPrefix(live: seq<Block>, marks: seq<Mark>, mark: nat)
    requires Marked(marks, live) && mark < |marks|
    ensures Marked(marks[..mark + 1], live[..marks[mark].count])
  {
    hide Extent;
    var n := marks[mark].count;
    assert forall k | 0 <= k <= n :: live[..n][..k] == live[..k];
  }

  lemma RestoreKeeps(r: Run, mark: nat)
    requires RunInv(r) && mark < |r.marks|
    ensures RunInv(RestoreRun(r, mark))
  {
    SetupIsConfigured(r.arena);
    BlocksCut(r.live, r.marks, mark, r.arena.alignment);
    hide Inv, TotalReservation, LaidOut, Extent;
    HeadMoves(r.arena, r.marks[mark].index);
    ReservationSame(r.arena, r.arena.(headIndex := r.marks[mark].index));
  }

  lemma SetupIsConfigured(a: Arena)
    requires Inv(a)
    ensures Configured(a) && a.sysPageSize > 0 && a.alignment > 0
  {
    hide AlignUp;
  }

  lemma SaveKeeps(r: Run)
    requires RunInv(r)
    ensures RunInv(Advance(r, Save))
  {
    hide Inv, AlignUp;
    SavepointIsExact(r.arena);
    assert r.live[..|r.live|] == r.live;
  }

  lemma ResetKeeps(r: Run)
    requires RunInv(r)
    ensures RunInv(Advance(r, Reset))
  {
    hide Inv, AlignUp;
    SetupIsConfigured(r.arena);
    HeadMoves(r.arena, 0);
    ReservationSame(r.arena, r.arena.(headIndex := 0));
  }

  /** Every operation keeps the invariant, and none shrinks the commitment. */
  lemma AdvanceKeeps(r: Run, op: Op)
    requires RunInv(r) && Allowed(r, op)
    ensures RunInv(Advance(r, op))
    ensures r.arena.currDataSize <= Advance(r, op).arena.currDataSize && SameSetup(r.arena, Advance(r, op).arena)
  {
    hide Inv, AllocRun;
    match op
    case Alloc(size) => AllocRunKeeps(r, size);
    case Save => SaveKeeps(r);
    case Restore(mark) => RestoreKeeps(r, mark);
    case Reset => ResetKeeps(r);
    case Write(_, _, _) =>
  }

  /** A created allocator starts the runs exactly when its first commitment lies in the reservation. */
  lemma RunsStart(dataReservationSize: nat, startingCapacity: nat, alignment: nat, pageSize: nat, mem: seq<byte>)
    requires IsValidAlignment(alignment) && IsPageSize(pageSize)
    requires dataReservationSize + HEADER_SIZE < U32_LIMIT && 0 < startingCapacity < U32_LIMIT
    requires var a := Created(dataReservationSize, startingCapacity, alignment, pageSize);
             HEADER_SIZE + |mem| == TotalReservation(a)
    ensures var a := Created(dataReservationSize, startingCapacity, alignment, pageSize);
            RunInv(Run(a, [], [], mem, 0)) <==>
            InitialCommit(dataReservationSize, startingCapacity, pageSize) <= TotalReservation(a)
  {
    hide AlignUp, Inv, IsPow2, IsValidAlignment;
    CreatedKeeps(dataReservationSize, startingCapacity, alignment, pageSize);
    AlignUpLeastMultiple(startingCapacity, pageSize);
    PositiveMultiple(AlignUp(startingCapacity, pageSize), pageSize);
    TimesIsProduct(1, pageSize);
  }

  // Whole runs: the states that the operations lead through.

  ghost predicate Step(rs: seq<Run>, ops: seq<Op>, i: nat)
    requires |rs| == |ops| + 1 && i < |ops|
  {
    Allowed(rs[i], ops[i]) && rs[i + 1] == Advance(rs[i], ops[i])
  }

  ghost predicate Trace(rs: seq<Run>, ops: seq<Op>) {
    |rs| == |ops| + 1 && forall i {:trigger Step(rs, ops, i)} | 0 <= i < |ops| :: Step(rs, ops, i)
  }

  /** Safety over every run; the commitment never shrinks. */
  lemma {:induction false} TraceKeeps(rs: seq<Run>, ops: seq<Op>, i: nat, n: nat)
    requires Trace(rs, ops) && i <= n <= |ops| && RunInv(rs[i])
    ensures RunInv(rs[n])
    ensures rs[i].arena.currDataSize <= rs[n].arena.currDataSize && SameSetup(rs[i].arena, rs[n].arena)
    decreases n - i
  {
    hide RunInv, Advance, Allowed;
    if i < n {
      assert Step(rs, ops, i);
      AdvanceKeeps(rs[i], ops[i]);
      TraceKeeps(rs, ops, i + 1, n);
    }
  }

  /** The number of steps up to step n that raise the commitment. */
  function Growths(rs: seq<Run>, n: nat): nat
    requires n < |rs|
  {
    if n == 0 then 0
    else Growths(rs, n - 1) + if rs[n].arena.currDataSize > rs[n - 1].arena.currDataSize then 1 else 0
  }

  lemma {:induction false} GrowthsAreCounted(rs: seq<Run>, ops: seq<Op>, n: nat)
    requires Trace(rs, ops) && n <= |ops| && RunInv(rs[0])
    ensures RunInv(rs[n]) && rs[n].growths == rs[0].growths + Growths(rs, n)
  {
    hide RunInv, Advance, Allowed;
    if n > 0 {
      GrowthsAreCounted(rs, ops, n - 1);
      assert Step(rs, ops, n - 1);
      AdvanceKeeps(rs[n - 1], ops[n - 1]);
      AdvanceCounts(rs[n - 1], ops[n - 1]);
    }
  }

  lemma AdvanceCounts(r: Run, op: Op)
    requires RunInv(r) && Allowed(r, op)
    ensures var q := Advance(r, op);
            q.growths == r.growths + if q.arena.currDataSize > r.arena.currDataSize then 1 else 0
  {
    hide Inv, AllocStep, AlignUp;
    match op
    case Alloc(size) => AllocKeeps(r.arena, size);
    case _ =>
  }

  /** In every run of a new allocator the number of growths is below the number of reserved pages. */
  lemma GrowthBound(rs: seq<Run>, ops: seq<Op>, n: nat)
    requires Trace(rs, ops) && n <= |ops| && RunInv(rs[0]) && rs[0].growths == 0
    ensures (Growths(rs, n) + 1) * rs[n].arena.sysPageSize <= TotalReservation(rs[n].arena)
  {
    hide AlignUp;
    GrowthsAreCounted(rs, ops, n);
    TimesIsProduct(Growths(rs, n) + 1, rs[n].arena.sysPageSize);
  }

  /** Live blocks lie one behind the other: aligned, apart, and inside the committed data. */
  lemma BlocksAreApart(r: Run, i: nat, j: nat)
    requires RunInv(r) && i < j < |r.live|
    ensures r.live[i].start + r.live[i].size <= r.live[j].start
  {
    hide Inv, TotalReservation;
    ExtentGrows(r.live, i, j);
  }

  lemma BlockIsInside(r: Run, i: nat)
    requires RunInv(r) && i < |r.live|
    ensures Multiple(r.live[i].start, r.arena.alignment)
    ensures r.live[i].start + r.live[i].size <= r.arena.headIndex <= r.arena.currDataSize <= |r.mem|
  {
    hide AlignUp, Paged, Configured;
    SetupIsConfigured(r.arena);
    ExtentAligned(r.live[..i], r.arena.alignment);
    ExtentGrows(r.live, i, |r.live|);
    assert r.live[..|r.live|] == r.live;
  }

  /** With a page-aligned reservation the addresses themselves are aligned. */
  lemma BlockAddressIsAligned(r: Run, i: nat, base: nat)
    requires RunInv(r) && i < |r.live| && base % MAX_ALIGN == 0
    ensures (base + HEADER_SIZE + r.live[i].start) % r.arena.alignment == 0
  {
    SetupIsConfigured(r.arena);
    hide RunInv, AlignUp, IsValidAlignment, IsPowerOfTwo, IsPageSize;
    BlockIsInside(r, i);
    MultipleIsRemainderFree(r.live[i].start, r.arena.alignment);
    DataIsAligned(base, r.arena.alignment);
    SumOfMultiples(base + HEADER_SIZE, r.live[i].start, r.arena.alignment);
  }

  lemma DataIsAligned(base: nat, alignment: nat)
    requires base % MAX_ALIGN == 0 && IsValidAlignment(alignment)
    ensures alignment > 0 && (base + HEADER_SIZE) % alignment == 0
  {
    hide IsValidAlignment;
    ValidAlignmentDivides(alignment);
    MultipleOfMultiple(base + HEADER_SIZE, MAX_ALIGN, alignment);
  }

  function Sizes(blocks: seq<Block>): seq<nat> {
    seq(|blocks|, i requires 0 <= i < |blocks| => blocks[i].size)
  }

  /** The room of blocks one behind the other is the sum of their rounded sizes. */
  lemma {:induction false} ExtentIsSum(blocks: seq<Block>, alignment: nat)
    requires LaidOut(blocks, alignment) && IsValidAlignment(alignment)
    requires forall i | 0 <= i < |blocks| :: blocks[i].size < U32_LIMIT
    ensures Extent(blocks) == RoundedSum(Sizes(blocks), alignment)
  {
    hide AlignUp, IsValidAlignment, Multiple, Extent;
    if blocks == [] {
      ExtentOfNothing();
    } else {
      var n := |blocks| - 1;
      var front, last := blocks[..n], blocks[n];
      LaidOutPrefix(blocks, n, alignment);
      ExtentIsSum(front, alignment);
      RoomIsRounded(last.size, last.room, alignment);
      ExtentGrows(blocks, n, n + 1);
      ExtentOfLast(blocks);
      assert Sizes(blocks) == Sizes(front) + [last.size];
      RoundedSumPush(Sizes(front), last.size, alignment);
    }
  }

  lemma ExtentOfNothing()
    ensures Extent([]) == 0
  {
  }

  lemma ExtentOfLast(blocks: seq<Block>)
    requires blocks != []
    ensures Extent(blocks) == Extent(blocks[..|blocks| - 1]) + blocks[|blocks| - 1].room
  {
  }

  lemma RoomIsRounded(size: nat, room: nat, alignment: nat)
    requires IsValidAlignment(alignment) && size < U32_LIMIT
    requires size <= room < size + alignment && Multiple(room, alignment)
    ensures room == AlignUp(size, alignment)
  {
    hide AlignUp, IsPow2;
    ValidAlignments(alignment);
    PowerOfTwoTest(alignment);
    AlignUpLeastMultiple(size, alignment);
    MultipleIsRemainderFree(room, alignment);
    MultiplesAreApart(room, AlignUp(size, alignment), alignment);
    MultiplesAreApart(AlignUp(size, alignment), room, alignment);
  }

  lemma {:induction false} RoundedSumPush(sizes: seq<nat>, size: nat, alignment: nat)
    ensures RoundedSum(sizes + [size], alignment) == RoundedSum(sizes, alignment) + AlignUp(size, alignment)
    decreases |sizes|
  {
    hide AlignUp;
    var all := sizes + [size];
    if sizes == [] {
      assert all[1..] == [];
    } else {
      RoundedSumPush(sizes[1..], size, alignment);
      assert all[1..] == sizes[1..] + [size];
    }
  }

  ghost predicate Sized(blocks: seq<Block>) {
    forall i | 0 <= i < |blocks| :: blocks[i].size < U32_LIMIT
  }

  lemma AdvanceSized(r: Run, op: Op)
    requires Sized(r.live) && Allowed(r, op)
    ensures Sized(Advance(r, op).live)
  {
    hide AllocStep, AlignUp;
  }

  lemma {:induction false} TraceSized(rs: seq<Run>, ops: seq<Op>, n: nat)
    requires Trace(rs, ops) && n <= |ops| && Sized(rs[0].live)
    ensures Sized(rs[n].live)
  {
    hide Advance, Allowed, Sized;
    if n > 0 {
      assert Step(rs, ops, n - 1);
      TraceSized(rs, ops, n - 1);
      AdvanceSized(rs[n - 1], ops[n - 1]);
    }
  }

  /** In every run of a created allocator each live block lies at an address that is a multiple of the alignment
      asked for, and its offset is the sum of the sizes before it, rounded to that alignment. */
  lemma CreatedRunIsAligned(
    rs: seq<Run>, ops: seq<Op>, n: nat, i: nat, base: nat,
    dataReservationSize: nat, startingCapacity: nat, alignment: nat, pageSize: nat, mem: seq<byte>)
    requires Trace(rs, ops) && n <= |ops| && RunInv(rs[0]) && base % MAX_ALIGN == 0
    requires rs[0] == Run(Created(dataReservationSize, startingCapacity, alignment, pageSize), [], [], mem, 0)
    requires i < |rs[n].live|
    ensures alignment > 0 && (base + HEADER_SIZE + rs[n].live[i].start) % alignment == 0
    ensures rs[n].live[i].start == RoundedSum(Sizes(rs[n].live[..i]), alignment)
  {
    hide Advance, Allowed, AlignUp, Inv, Configured, IsValidAlignment, Extent, RoundedSum;
    TraceKeeps(rs, ops, 0, n);
    TraceSized(rs, ops, n);
    RunAlignment(rs[n]);
    BlockAddressIsAligned(rs[n], i, base);
    var before := rs[n].live[..i];
    LaidOutPrefix(rs[n].live, i, alignment);
    ExtentIsSum(before, alignment);
  }

  lemma RunAlignment(r: Run)
    requires RunInv(r)
    ensures IsValidAlignment(r.arena.alignment) && r.arena.alignment > 0
  {
    SetupIsConfigured(r.arena);
  }

  // What the single steps do.

  /** A successful allocation adds a live block of the size asked for at the old head, a failed one does nothing; a
      savepoint is the head and the blocks of its moment, restoring it and resetting cut both back, and a client
      write changes one byte. */
  ghost predicate Effect(r: Run, op: Op, q: Run)
    requires Allowed(r, op)
  {
    match op
    case Alloc(size) =>
      if size > r.arena.currDataSize - r.arena.headIndex && size > r.arena.dataReservationSize - r.arena.headIndex
      then q == r
      else
        && |q.live| == |r.live| + 1 && q.live[..|r.live|] == r.live
        && q.live[|r.live|].start == r.arena.headIndex && q.live[|r.live|].size == size
        && q.marks == r.marks && q.mem == r.mem
    case Save => q == r.(marks := r.marks + [Mark(r.arena.headIndex, |r.live|)])
    case Restore(mark) =>
      && q.arena == r.arena.(headIndex := r.marks[mark].index)
      && q.live == r.live[..r.marks[mark].count] && q.marks == r.marks[..mark + 1] && q.mem == r.mem
    case Reset => q.arena == r.arena.(headIndex := 0) && q.live == [] && q.marks == [] && q.mem == r.mem
    case Write(block, at, value) =>
      && q == r.(mem := q.mem) && |q.mem| == |r.mem|
      && forall k | 0 <= k < |r.mem| :: q.mem[k] == if k == r.live[block].start + at then value else r.mem[k]
  }

  lemma AdvanceEffect(r: Run, op: Op)
    requires RunInv(r) && Allowed(r, op)
    ensures Effect(r, op, Advance(r, op))
  {
    hide Inv, AlignUp, LaidOut, Marked, TotalReservation, AllocStep;
    match op
    case Alloc(size) => AllocKeeps(r.arena, size);
    case Save => SavepointIsExact(r.arena);
    case _ =>
  }

  // Savepoints.

  /** The operation leaves the first n+1 savepoints valid. */
  ghost predicate KeepsMark(op: Op, n: nat) {
    !op.Reset? && (op.Restore? ==> op.mark >= n)
  }

  /** What a run cannot lose while a savepoint is valid. */
  ghost predicate Extends(q: Run, live: seq<Block>, marks: seq<Mark>) {
    && |live| <= |q.live| && q.live[..|live|] == live
    && |marks| <= |q.marks| && q.marks[..|marks|] == marks
  }

  lemma AdvanceExtends(q: Run, op: Op, live: seq<Block>, marks: seq<Mark>)
    requires RunInv(q) && Allowed(q, op) && Extends(q, live, marks)
    requires marks != [] && marks[|marks| - 1].count == |live|
    requires KeepsMark(op, |marks| - 1)
    ensures Extends(Advance(q, op), live, marks)
  {
    hide Inv, AllocStep, AlignUp, Extent, LaidOut, TotalReservation, Multiple;
    var n := |marks| - 1;
    assert q.marks[n] == marks[n];
    match op
    case Alloc(size) =>
      assert AllocRun(q, size).live[..|live|] == q.live[..|live|];
    case Save =>
      assert Advance(q, op).marks[..|marks|] == q.marks[..|marks|];
    case Restore(mark) =>
      var count := q.marks[mark].count;
      assert |live| <= count;
      assert q.live[..count][..|live|] == q.live[..|live|];
      assert q.marks[..mark + 1][..|marks|] == q.marks[..|marks|];
    case Write(_, _, _) =>
  }

  lemma {:induction false} TraceExtends(
    rs: seq<Run>, ops: seq<Op>, i: nat, n: nat, live: seq<Block>, marks: seq<Mark>)
    requires Trace(rs, ops) && i <= n <= |ops| && RunInv(rs[i]) && Extends(rs[i], live, marks)
    requires marks != [] && marks[|marks| - 1].count == |live|
    requires forall j | i <= j < n :: KeepsMark(ops[j], |marks| - 1)
    ensures RunInv(rs[n]) && Extends(rs[n], live, marks)
    decreases n - i
  {
    hide RunInv, Advance, Allowed, Extends;
    if i < n {
      assert Step(rs, ops, i);
      AdvanceKeeps(rs[i], ops[i]);
      AdvanceExtends(rs[i], ops[i], live, marks);
      TraceExtends(rs, ops, i + 1, n, live, marks);
    }
  }

  /** A savepoint is set at step i, and from then on nothing invalidates it before step n. */
  ghost predicate Saved(rs: seq<Run>, ops: seq<Op>, i: nat, n: nat) {
    && i < n <= |ops| && |rs| == |ops| + 1 && ops[i] == Save
    && forall j | i < j < n :: KeepsMark(ops[j], |rs[i].marks|)
  }

  lemma SaveExtends(rs: seq<Run>, ops: seq<Op>, i: nat)
    requires Trace(rs, ops) && i < |ops| && ops[i] == Save && RunInv(rs[i])
    ensures RunInv(rs[i + 1]) && rs[i + 1] == rs[i].(marks := rs[i + 1].marks)
    ensures rs[i + 1].marks == rs[i].marks + [Mark(rs[i].arena.headIndex, |rs[i].live|)]
    ensures Extends(rs[i + 1], rs[i].live, rs[i + 1].marks)
  {
    hide RunInv, Inv;
    assert Step(rs, ops, i);
    AdvanceKeeps(rs[i], Save);
    RunIsInv(rs[i]);
    SavepointIsExact(rs[i].arena);
    assert rs[i + 1].live[..|rs[i].live|] == rs[i].live;
  }

  lemma RunIsInv(r: Run)
    requires RunInv(r)
    ensures Inv(r.arena)
  {
  }

  /** Restoring a savepoint that is still valid brings back exactly the blocks and the head of the
      moment when it was set, whatever was allocated, saved or restored in between. */
  lemma SavepointRestores(rs: seq<Run>, ops: seq<Op>, i: nat, n: nat) returns (s: Run)
    requires Trace(rs, ops) && Saved(rs, ops, i, n) && RunInv(rs[i])
    ensures Allowed(rs[n], Restore(|rs[i].marks|)) && s == Advance(rs[n], Restore(|rs[i].marks|))
    ensures RunInv(s) && s.live == rs[i].live && s.arena.headIndex == rs[i].arena.headIndex
    ensures s.mem == rs[n].mem && s.marks == rs[i + 1].marks
  {
    hide Inv, RunInv;
    var mark := |rs[i].marks|;
    SaveExtends(rs, ops, i);
    TraceExtends(rs, ops, i + 1, n, rs[i].live, rs[i + 1].marks);
    assert rs[n].marks[mark] == rs[i + 1].marks[mark];
    s := Advance(rs[n], Restore(mark));
    RestoreKeeps(rs[n], mark);
  }

  lemma AdvanceBytes(q: Run, op: Op, b: nat, at: nat)
    requires RunInv(q) && Allowed(q, op) && b < |q.live| && at < q.live[b].size
    requires op.Write? ==> op.block != b
    ensures q.live[b].start + at < |q.mem| == |Advance(q, op).mem|
    ensures Advance(q, op).mem[q.live[b].start + at] == q.mem[q.live[b].start + at]
  {
    BlockIsInside(q, b);
    hide RunInv, AllocStep;
    match op
    case Write(block, at', value) =>
      if block < b {
        BlocksAreApart(q, block, b);
      } else {
        BlocksAreApart(q, b, block);
      }
    case _ =>
  }

  lemma {:induction false} TraceBytes(
    rs: seq<Run>, ops: seq<Op>, i: nat, n: nat, live: seq<Block>, marks: seq<Mark>, b: nat, at: nat)
    requires Trace(rs, ops) && i <= n <= |ops| && RunInv(rs[i]) && Extends(rs[i], live, marks)
    requires marks != [] && marks[|marks| - 1].count == |live|
    requires forall j | i <= j < n :: KeepsMark(ops[j], |marks| - 1) && (ops[j].Write? ==> ops[j].block != b)
    requires b < |live| && at < live[b].size
    ensures live[b].start + at < |rs[i].mem| == |rs[n].mem|
    ensures rs[n].mem[live[b].start + at] == rs[i].mem[live[b].start + at]
    decreases n - i
  {
    assert rs[i].live[b] == live[b];
    BlockIsInside(rs[i], b);
    hide RunInv, Advance, Allowed;
    if i < n {
      assert Step(rs, ops, i);
      AdvanceKeeps(rs[i], ops[i]);
      AdvanceExtends(rs[i], ops[i], live, marks);
      AdvanceBytes(rs[i], ops[i], b, at);
      TraceBytes(rs, ops, i + 1, n, live, marks, b, at);
    }
  }

  /** Blocks older than a valid savepoint keep every byte, except for client writes to themselves. */
  lemma BytesSurvive(rs: seq<Run>, ops: seq<Op>, i: nat, n: nat, b: nat, at: nat)
    requires Trace(rs, ops) && Saved(rs, ops, i, n) && RunInv(rs[i])
    requires forall j | i < j < n :: ops[j].Write? ==> ops[j].block != b
    requires b < |rs[i].live| && at < rs[i].live[b].size
    ensures var k := rs[i].live[b].start + at;
            k < |rs[i].mem| == |rs[n].mem| && rs[n].mem[k] == rs[i].mem[k]
  {
    hide RunInv;
    SaveExtends(rs, ops, i);
    TraceBytes(rs, ops, i + 1, n, rs[i].live, rs[i + 1].marks, b, at);
  }

  // Replay.

  /** A sequence of allocations, if all of them succeed: the offsets and the allocator afterwards. */
  function AllocAll(a: Arena, sizes: seq<nat>): Option<(seq<nat>, Arena)>
    decreases |sizes|
  {
    if sizes == [] then Some(([], a))
    else
      match AllocStep(a, sizes[0])
      case (None, _) => None
      case (Some(start), b) =>
        match AllocAll(b, sizes[1..])
        case None => None
        case Some((starts, c)) => Some(([start] + starts, c))
  }

  function RoundedSum(sizes: seq<nat>, alignment: nat): nat {
    if sizes == [] then 0 else AlignUp(sizes[0], alignment) + RoundedSum(sizes[1..], alignment)
  }

  lemma {:induction false} AllocAllKeeps(a: Arena, sizes: seq<nat>)
    requires Inv(a) && AllocAll(a, sizes).Some?
    requires forall i | 0 <= i < |sizes| :: sizes[i] < U32_LIMIT
    ensures Inv(AllocAll(a, sizes).value.1) && a.currDataSize <= AllocAll(a, sizes).value.1.currDataSize
    decreases |sizes|
  {
    hide Inv, AllocStep;
    if sizes != [] {
      AllocKeeps(a, sizes[0]);
      AllocAllKeeps(AllocStep(a, sizes[0]).1, sizes[1..]);
    }
  }

  /** Allocations that succeeded once succeed again from the same head, at the same offsets, as soon as
      at least as much is committed as there was in the end. */
  lemma {:induction false} Replay(a: Arena, b: Arena, sizes: seq<nat>)
    requires Inv(a) && Inv(b) && SameSetup(a, b) && a.headIndex == b.headIndex
    requires forall i | 0 <= i < |sizes| :: sizes[i] < U32_LIMIT
    requires AllocAll(a, sizes).Some? && AllocAll(a, sizes).value.1.currDataSize <= b.currDataSize
    ensures AllocAll(b, sizes).Some? && AllocAll(b, sizes).value.0 == AllocAll(a, sizes).value.0
    decreases |sizes|
  {
    if sizes != [] {
      hide Inv, AllocStep, AlignUp;
      AllocKeeps(a, sizes[0]);
      AllocKeeps(b, sizes[0]);
      var a', b' := AllocStep(a, sizes[0]).1, AllocStep(b, sizes[0]).1;
      AllocAllKeeps(a', sizes[1..]);
      RequestIsCommitted(a, sizes[0]);
      Replay(a', b', sizes[1..]);
    }
  }

  lemma RequestIsCommitted(a: Arena, size: nat)
    requires Inv(a) && size < U32_LIMIT && AllocStep(a, size).0.Some?
    ensures a.headIndex + size <= AllocStep(a, size).1.currDataSize
  {
    hide Inv, AllocStep, AlignUp;
    AllocKeeps(a, size);
    HeadIsCommitted(AllocStep(a, size).1);
  }

  lemma HeadIsCommitted(a: Arena)
    requires Inv(a)
    ensures a.headIndex <= a.currDataSize
  {
  }

  /** Each offset is the sum of the rounded sizes before it. */
  lemma {:induction false} OffsetsAreSums(a: Arena, sizes: seq<nat>, k: nat)
    requires Inv(a) && k < |sizes|
    requires forall i | 0 <= i < |sizes| :: sizes[i] < U32_LIMIT
    requires AllocAll(a, sizes).Some?
    ensures |AllocAll(a, sizes).value.0| == |sizes|
    ensures AllocAll(a, sizes).value.0[k] == a.headIndex + RoundedSum(sizes[..k], a.alignment)
    decreases |sizes|
  {
    hide Inv, AllocStep, AlignUp;
    AllocKeeps(a, sizes[0]);
    var b := AllocStep(a, sizes[0]).1;
    if k == 0 {
      if |sizes| > 1 {
        OffsetsAreSums(b, sizes[1..], 0);
      }
    } else {
      OffsetsAreSums(b, sizes[1..], k - 1);
      assert sizes[..k][1..] == sizes[1..][..k - 1];
    }
  }

  lemma {:induction false} TraceAllocs(rs: seq<Run>, ops: seq<Op>, i: nat, sizes: seq<nat>)
    requires Trace(rs, ops) && i + |sizes| <= |ops| && RunInv(rs[i])
    requires forall k | i <= k < i + |sizes| :: ops[k] == Alloc(sizes[k - i])
    requires AllocAll(rs[i].arena, sizes).Some?
    ensures rs[i + |sizes|].arena == AllocAll(rs[i].arena, sizes).value.1
    ensures forall k | 0 <= k < |sizes| :: sizes[k] < U32_LIMIT
    decreases |sizes|
  {
    hide RunInv, AllocStep;
    if sizes != [] {
      assert Step(rs, ops, i) && ops[i] == Alloc(sizes[0]);
      AdvanceKeeps(rs[i], ops[i]);
      var rest := sizes[1..];
      forall k | i + 1 <= k < i + 1 + |rest| ensures ops[k] == Alloc(rest[k - (i + 1)]) {
        assert rest[k - (i + 1)] == sizes[k - i];
      }
      TraceAllocs(rs, ops, i + 1, rest);
      assert forall k | 0 < k < |sizes| :: sizes[k] == rest[k - 1];
    }
  }

  /** Fill the empty allocator, do anything, reset: the same sizes succeed again at the same offsets. */
  lemma ReplayAfterReset(rs: seq<Run>, ops: seq<Op>, i: nat, sizes: seq<nat>, n: nat)
    requires Trace(rs, ops) && i + |sizes| <= n < |ops| && ops[n] == Reset
    requires RunInv(rs[i]) && rs[i].arena.headIndex == 0
    requires forall k | i <= k < i + |sizes| :: ops[k] == Alloc(sizes[k - i])
    requires AllocAll(rs[i].arena, sizes).Some?
    ensures var again := AllocAll(rs[n + 1].arena, sizes);
            again.Some? && again.value.0 == AllocAll(rs[i].arena, sizes).value.0
  {
    hide RunInv, Inv, AllocAll;
    TraceAllocs(rs, ops, i, sizes);
    TraceKeeps(rs, ops, i, i + |sizes|);
    TraceKeeps(rs, ops, i + |sizes|, n + 1);
    assert Step(rs, ops, n);
    RunIsInv(rs[i]);
    RunIsInv(rs[n + 1]);
    Replay(rs[i].arena, rs[n + 1].arena, sizes);
  }
}
