/** The linear allocator's fields as a value, and its operations on that value. */
module LinearModel {
  import opened Common
  import opened Bits
  import opened MemoryHelpers

  datatype Arena = Arena(
    currDataSize: nat,
    headIndex: nat,
    alignment: nat,
    headerSize: nat,
    sysPageSize: nat,
    dataReservationSize: nat)

  /** Size of the allocator's own fields, in front of the data region. */
  const HEADER_SIZE: nat := 32

  function Min(a: nat, b: nat): nat {
    if a < b then a else b
  }

  function TotalReservation(a: Arena): nat {
    AlignUp(a.headerSize + a.dataReservationSize, a.sysPageSize)
  }

  ghost predicate IsPageSize(page: nat) {
    IsPow2(page) && page % 32 == 0 && 32 <= page < U32_LIMIT
  }

  /** The fields that never change. */
  ghost predicate Configured(a: Arena) {
    && IsValidAlignment(a.alignment) && IsPageSize(a.sysPageSize) && a.headerSize == HEADER_SIZE
    && a.dataReservationSize + HEADER_SIZE < U32_LIMIT
  }

  /** The committed data ends on a page boundary, once as such and after growth together with the header. */
  ghost predicate Paged(a: Arena) {
    Multiple(a.currDataSize, a.sysPageSize) || Multiple(a.currDataSize + a.headerSize, a.sysPageSize)
  }

  ghost predicate Inv(a: Arena) {
    && Configured(a)
    && Multiple(a.headIndex, a.alignment)
    && 0 < a.currDataSize && a.headIndex <= a.currDataSize
    && a.headerSize + a.currDataSize <= TotalReservation(a)
    && Paged(a)
  }

  /** The commitment after growing for `needed` bytes: rounded to a multiple of twice the present size,
      as far as `AlignUp` does that, then to pages, and cut off at the reservation. */
  function Grown(a: Arena, needed: nat): nat {
    var newDataSize := AlignUp(needed, a.currDataSize * 2);
    var newTotalSize := Min(AlignUp(a.headerSize + newDataSize, a.sysPageSize), TotalReservation(a));
    (newTotalSize - a.headerSize) % WORD
  }

  function AllocStep(a: Arena, size: nat): (Option<nat>, Arena) {
    var needed := a.headIndex + size;
    if a.currDataSize < needed && a.dataReservationSize < needed then (None, a)
    else
      var committed := if a.currDataSize < needed then Grown(a, needed) else a.currDataSize;
      (Some(a.headIndex), a.(currDataSize := committed, headIndex := a.headIndex + AlignUp(size, a.alignment)))
  }

  // Rounding.

  /** The whole reservation is the fewest pages that hold the header and what was asked for, and fits in 32 bits. */
  lemma ReservationBounds(a: Arena)
    requires Configured(a)
    ensures TotalReservation(a) <= U32_LIMIT
    ensures LeastMultiple(TotalReservation(a), a.headerSize + a.dataReservationSize, a.sysPageSize)
  {
    hide AlignUp, Pow2;
    AlignUpLeastMultiple(a.headerSize + a.dataReservationSize, a.sysPageSize);
    PageDividesLimit(a.sysPageSize);
    assert AlignUp(a.headerSize + a.dataReservationSize, a.sysPageSize) <= U32_LIMIT;
  }

  /** Page sizes below 2^32 divide 2^32. */
  lemma PageDividesLimit(page: nat)
    requires IsPow2(page) && page < U32_LIMIT
    ensures U32_LIMIT % page == 0
  {
    var k: nat :| page == Pow2(k);
    LimitIsPow2();
    if k > 32 {
      Pow2Grows(32, k);
    }
    Pow2Divides(k, 32);
  }

  lemma LimitIsPow2()
    ensures Pow2(32) == U32_LIMIT
  {
    Pow2Square(4, 16);
    Pow2Square(8, 0x100);
    Pow2Square(16, 0x1_0000);
  }

  /** The alignment divides the page size and the header, hence everything that is committed. */
  lemma AlignmentDivides(a: Arena)
    requires Inv(a)
    ensures a.currDataSize % a.alignment == 0
  {
    hide IsValidAlignment, AlignUp, IsPow2;
    ValidAlignmentDivides(a.alignment);
    MultipleIsRemainderFree(a.currDataSize, a.sysPageSize);
    MultipleIsRemainderFree(a.currDataSize + a.headerSize, a.sysPageSize);
    PagedIsThirtyTwos(a.currDataSize, a.sysPageSize);
    MultipleOfMultiple(a.currDataSize, 32, a.alignment);
  }

  lemma PagedIsThirtyTwos(size: nat, page: nat)
    requires page >= 32 && page % 32 == 0
    requires size % page == 0 || (size + 32) % page == 0
    ensures size % 32 == 0
  {
    if size % page == 0 {
      MultipleOfMultiple(size, page, 32);
    } else {
      MultipleOfMultiple(size + 32, page, 32);
    }
  }

  // Growth.

  /** The rounded sizes stay far from the word size: nothing wraps around. */
  lemma GrownIsExact(a: Arena, needed: nat) returns (newDataSize: nat, pages: nat)
    requires Inv(a) && a.currDataSize < needed <= a.dataReservationSize
    ensures newDataSize == AlignUp(needed, a.currDataSize * 2) && newDataSize >= needed
    ensures a.headerSize + newDataSize <= pages < a.headerSize + newDataSize + a.sysPageSize
    ensures pages % a.sysPageSize == 0
    ensures a.headerSize + Grown(a, needed) == Min(pages, TotalReservation(a))
  {
    hide AlignUp, IsPow2, IsValidAlignment, TotalReservation, Paged;
    ReservationBounds(a);
    AlignUpBounds(needed, a.currDataSize * 2);
    newDataSize := AlignUp(needed, a.currDataSize * 2);
    AlignUpLeastMultiple(a.headerSize + newDataSize, a.sysPageSize);
    pages := AlignUp(a.headerSize + newDataSize, a.sysPageSize);
  }

  /** Growth covers the request although its rounding is not to a power of two, stays within the
      reservation and ends on a page boundary. */
  lemma GrowthCovers(a: Arena, needed: nat)
    requires Inv(a) && a.currDataSize < needed <= a.dataReservationSize
    ensures needed <= Grown(a, needed) && a.headerSize + Grown(a, needed) <= TotalReservation(a)
    ensures (Grown(a, needed) + a.headerSize) % a.sysPageSize == 0
  {
    hide AlignUp, IsPow2, IsValidAlignment, TotalReservation, Paged, Grown;
    ReservationBounds(a);
    var newDataSize, pages := GrownIsExact(a, needed);
  }

  /** The commitment after an allocation that exceeds it, whatever the head: the fewest pages that hold the header
      and the rounded request, or the whole reservation if that is less. */
  ghost predicate Commits(a: Arena, b: Arena, needed: nat)
    requires a.sysPageSize > 0
  {
    var wanted, total := a.headerSize + AlignUp(needed, 2 * a.currDataSize), a.headerSize + b.currDataSize;
    if wanted <= TotalReservation(a) then LeastMultiple(total, wanted, a.sysPageSize) else total == TotalReservation(a)
  }

  lemma AllocCommits(a: Arena, size: nat)
    requires Inv(a) && size < U32_LIMIT
    ensures var b := AllocStep(a, size).1;
            if a.currDataSize < a.headIndex + size <= a.dataReservationSize then Commits(a, b, a.headIndex + size)
            else b.currDataSize == a.currDataSize
  {
    hide AlignUp, IsPow2, IsValidAlignment, TotalReservation, Paged, Grown;
    var needed := a.headIndex + size;
    if a.currDataSize < needed <= a.dataReservationSize {
      ReservationBounds(a);
      var newDataSize, pages := GrownIsExact(a, needed);
      PagesFit(pages, a.headerSize + newDataSize, TotalReservation(a), a.sysPageSize);
    }
  }

  /** Fewest pages that hold what is wanted, below a limit that is pages itself. */
  lemma PagesFit(pages: nat, wanted: nat, limit: nat, page: nat)
    requires page > 0 && LeastMultiple(pages, wanted, page) && limit % page == 0
    ensures wanted <= limit <==> pages <= limit
  {
    MultiplesAreApart(pages, limit, page);
  }

  /** An allocation that exceeds the commitment at least doubles it, or exhausts the reservation, if a power of two
      lies between twice and three times the commitment. */
  lemma GrowthDoubles(a: Arena, size: nat)
    requires Inv(a) && Pow2Within(2 * a.currDataSize, 3 * a.currDataSize) && size < U32_LIMIT
    requires a.currDataSize < a.headIndex + size <= a.dataReservationSize
    ensures var b := AllocStep(a, size).1;
            b.currDataSize >= 2 * a.currDataSize || a.headerSize + b.currDataSize == TotalReservation(a)
  {
    hide AlignUp, IsPow2, IsValidAlignment, TotalReservation, Paged, AllocStep;
    AllocCommits(a, size);
    ReservationBounds(a);
    ReachesDouble(a.currDataSize, a.headIndex + size);
  }

  /** Every commitment of less than two pages has such a power of two. */
  lemma SmallSizesDouble(a: Arena)
    requires Inv(a) && a.currDataSize < 2 * a.sysPageSize
    ensures Pow2Within(2 * a.currDataSize, 3 * a.currDataSize)
  {
    hide IsValidAlignment, TotalReservation, Pow2;
    var c, page := a.currDataSize, a.sysPageSize;
    MultipleIsRemainderFree(c, page);
    MultipleIsRemainderFree(c + a.headerSize, page);
    var j: nat :| page == Pow2(j);
    PowersAround(j);
    assert page % 32 == 0 && page >= 32;
    if c % page == 0 {
      MultipleBelowTriple(c, page);
      assert 2 * c <= Pow2(j + 1) <= 3 * c;
    } else {
      MultipleBelowTriple(c + 32, page);
      if c + 32 == page {
        assert 2 * c <= (if page == 64 then Pow2(j) else Pow2(j + 1)) <= 3 * c;
      } else {
        assert 2 * c <= Pow2(j + 2) <= 3 * c;
      }
    }
  }

  lemma PowersAround(j: nat)
    ensures Pow2(j + 1) == 2 * Pow2(j) && Pow2(j + 2) == 4 * Pow2(j)
  {
  }

  lemma ProductGrows(d: nat, q: nat)
    ensures q > 2 ==> d * q >= 3 * d
  {
    if q > 2 {
      LessByAMultiple(d, 2, q);
    }
  }

  lemma MultipleBelowTriple(x: nat, d: nat)
    requires 0 < x < 3 * d && x % d == 0
    ensures x == d || x == 2 * d
  {
    assert x == d * (x / d);
    ProductGrows(d, x / d);
  }

  /** Where the reservation leaves room for doubling, every allocation that exceeds the commitment doubles it
      exactly under that condition. */
  lemma GrowthDoublesIff(a: Arena)
    requires Inv(a) && a.currDataSize < a.dataReservationSize
    requires a.headerSize + 2 * a.currDataSize <= TotalReservation(a)
    ensures (forall size: nat | a.currDataSize < a.headIndex + size <= a.dataReservationSize ::
               AllocStep(a, size).1.currDataSize >= 2 * a.currDataSize)
            <==> Pow2Within(2 * a.currDataSize, 3 * a.currDataSize)
  {
    hide AlignUp, IsPow2, IsValidAlignment, TotalReservation, Paged, AllocStep, Pow2Within;
    var c := a.currDataSize;
    ReservationBounds(a);
    if Pow2Within(2 * c, 3 * c) {
      forall size: nat | c < a.headIndex + size <= a.dataReservationSize
        ensures AllocStep(a, size).1.currDataSize >= 2 * c
      {
        GrowthDoubles(a, size);
      }
    } else {
      if c < 2 * a.sysPageSize {
        SmallSizesDouble(a);
      }
      FallsShort(c);
      var size := c + 1 - a.headIndex;
      AllocCommits(a, size);
      assert AllocStep(a, size).1.currDataSize < 2 * c;
    }
  }

  lemma PositiveMultiple(x: nat, d: nat)
    requires d > 0 && x > 0 && x % d == 0
    ensures x >= d
  {
    if x < d {
      RemainderIsUnique(x, d, 0, x);
    }
  }

  lemma AlignedSize(a: Arena, size: nat)
    requires Configured(a) && size < U32_LIMIT
    ensures size <= AlignUp(size, a.alignment) < size + a.alignment
    ensures AlignUp(size, a.alignment) % a.alignment == 0
  {
    hide AlignUp, IsPow2, Pow2;
    ValidAlignments(a.alignment);
    PowerOfTwoTest(a.alignment);
    AlignUpLeastMultiple(size, a.alignment);
  }

  /** Rounding up below a multiple stays below it. */
  lemma RoundedFits(head: nat, size: nat, rounded: nat, limit: nat, d: nat)
    requires d >= 1 && head % d == 0 && limit % d == 0 && rounded % d == 0
    requires size <= rounded < size + d && head + size <= limit
    ensures head + rounded <= limit && (head + rounded) % d == 0
  {
    var i, j, k := head / d, rounded / d, limit / d;
    assert head + rounded == d * (i + j) && limit == d * k;
    RemainderIsUnique(head + rounded, d, i + j, 0);
    if i + j > k {
      LessByAMultiple(d, k, i + j);
    }
  }

  /** What an allocation does: it fails only beyond both the commitment and the reservation, hands out
      the old head, and keeps the invariant. */
  lemma AllocKeeps(a: Arena, size: nat)
    requires Inv(a) && size < U32_LIMIT
    ensures var (out, b) := AllocStep(a, size);
            && Inv(b) && a.currDataSize <= b.currDataSize
            && b == a.(currDataSize := b.currDataSize, headIndex := b.headIndex)
            && (out == None <==> a.headIndex + size > a.currDataSize && a.headIndex + size > a.dataReservationSize)
            && (out == None ==> b == a)
            && (out != None ==>
                  && out == Some(a.headIndex)
                  && b.headIndex == a.headIndex + AlignUp(size, a.alignment)
                  && a.headIndex + size <= b.headIndex)
            && (b.currDataSize > a.currDataSize <==> a.currDataSize < a.headIndex + size <= a.dataReservationSize)
  {
    hide AlignUp, IsPow2, IsValidAlignment, Grown;
    var (out, b) := AllocStep(a, size);
    if out != None {
      AlignedSize(a, size);
      if a.currDataSize < a.headIndex + size {
        GrowthCovers(a, a.headIndex + size);
        MultipleIsRemainderFree(b.currDataSize + a.headerSize, a.sysPageSize);
      }
      var grown := a.(currDataSize := b.currDataSize);
      assert Inv(grown);
      AlignmentDivides(grown);
      ValidAlignments(a.alignment);
      MultipleIsRemainderFree(a.headIndex, a.alignment);
      RoundedFits(a.headIndex, size, AlignUp(size, a.alignment), b.currDataSize, a.alignment);
      MultipleIsRemainderFree(b.headIndex, a.alignment);
    }
  }

  /** The free bytes are never computed below zero, nor beyond a word. */
  lemma BytesFreeIsExact(a: Arena)
    requires Inv(a)
    ensures (a.currDataSize - a.headIndex) % WORD == a.currDataSize - a.headIndex
  {
    hide AlignUp, IsPow2, IsValidAlignment;
    ReservationBounds(a);
  }

  lemma CommitIsReserved(a: Arena)
    requires Inv(a)
    ensures a.headerSize + a.currDataSize <= TotalReservation(a)
  {
  }

  // Creation.

  /** The arena that `create` sets up, if the initially committed range lies in the reservation. */
  function Created(dataReservationSize: nat, startingCapacity: nat, alignment: nat, pageSize: nat): Arena {
    Arena(AlignUp(startingCapacity, pageSize), 0, alignment, HEADER_SIZE, pageSize, dataReservationSize)
  }

  function InitialCommit(dataReservationSize: nat, startingCapacity: nat, pageSize: nat): nat {
    AlignUp(HEADER_SIZE + AlignUp(startingCapacity, pageSize), pageSize)
  }

  /** The first commitment is the fewest pages that hold the capacity, and one more with the header. */
  lemma CreatedCommits(dataReservationSize: nat, startingCapacity: nat, alignment: nat, pageSize: nat)
    requires IsPageSize(pageSize) && startingCapacity < U32_LIMIT
    ensures var a := Created(dataReservationSize, startingCapacity, alignment, pageSize);
            && a == Arena(a.currDataSize, 0, alignment, HEADER_SIZE, pageSize, dataReservationSize)
            && LeastMultiple(a.currDataSize, startingCapacity, pageSize)
            && InitialCommit(dataReservationSize, startingCapacity, pageSize) == a.currDataSize + pageSize
  {
    hide AlignUp, IsPow2;
    AlignUpLeastMultiple(startingCapacity, pageSize);
    var committed := AlignUp(startingCapacity, pageSize);
    AlignUpLeastMultiple(HEADER_SIZE + committed, pageSize);
    SumOfMultiples(committed, pageSize, pageSize);
    MultiplesAreApart(AlignUp(HEADER_SIZE + committed, pageSize), committed, pageSize);
    MultiplesAreApart(AlignUp(HEADER_SIZE + committed, pageSize), committed + pageSize, pageSize);
  }

  /** Creation establishes the invariant exactly when the first commitment lies in the reservation. */
  lemma CreatedKeeps(dataReservationSize: nat, startingCapacity: nat, alignment: nat, pageSize: nat)
    requires IsValidAlignment(alignment) && IsPageSize(pageSize)
    requires dataReservationSize < U32_LIMIT && 0 < startingCapacity < U32_LIMIT
    ensures var a := Created(dataReservationSize, startingCapacity, alignment, pageSize);
            Inv(a) <==>
            && dataReservationSize + HEADER_SIZE < U32_LIMIT
            && InitialCommit(dataReservationSize, startingCapacity, pageSize) <= TotalReservation(a)
  {
    hide AlignUp, IsPow2, IsValidAlignment;
    AlignUpLeastMultiple(startingCapacity, pageSize);
    MultipleIsRemainderFree(AlignUp(startingCapacity, pageSize), pageSize);
    AlignUpLeastMultiple(HEADER_SIZE + AlignUp(startingCapacity, pageSize), pageSize);
    AlignUpLeastMultiple(HEADER_SIZE + dataReservationSize, pageSize);
    ValidAlignments(alignment);
  }

  lemma PageIsPow2()
    ensures Pow2(12) == 4096 && IsPow2(4096) && IsPageSize(4096)
  {
    assert Pow2(6) == 64;
    Pow2Square(6, 64);
    assert Pow2(12) == 4096;
  }

  /** A reservation of 32 bytes with a page of capacity: the commitment goes one page beyond. */
  lemma SmallReservationExceeded()
    ensures InitialCommit(32, 4096, 4096) > TotalReservation(Created(32, 4096, 2, 4096))
    ensures !Inv(Created(32, 4096, 2, 4096))
  {
    hide AlignUp, IsPow2, IsValidAlignment;
    PageIsPow2();
    ValidAlignments(2);
    AlignUpLeastMultiple(4096, 4096);
    AlignUpLeastMultiple(HEADER_SIZE + AlignUp(4096, 4096), 4096);
    AlignUpLeastMultiple(HEADER_SIZE + 32, 4096);
    CreatedKeeps(32, 4096, 2, 4096);
  }

  /** Five pages: one byte more is rounded to six pages, not to ten. */
  lemma FivePagesDoNotDouble()
    ensures var a := Created(0x1_0000, 20480, 16, 4096);
            && Inv(a) && a.currDataSize == 20480
            && AlignUp(20481, 2 * a.currDataSize) == 24576
            && AllocStep(a, 20481).0.Some? && AllocStep(a, 20481).1.currDataSize == 28640
  {
    hide AlignUp, IsPow2, IsValidAlignment, And;
    var a := Created(0x1_0000, 20480, 16, 4096);
    PageIsPow2();
    ValidAlignments(16);
    Rounded(20480, 5);
    Rounded(HEADER_SIZE + 20480, 6);
    Rounded(HEADER_SIZE + 0x1_0000, 17);
    Rounded(HEADER_SIZE + 24576, 7);
    CreatedKeeps(0x1_0000, 20480, 16, 4096);
    AlignUpIsSubtraction(20481, 40960);
    MaskedPages();
  }

  lemma MaskedPages()
    ensures And(61440, 40959) == 36864
  {
    hide And;
    PageIsPow2();
    AndShifted(15, 9, 12);
    AndSplit(15, 9);
    AndSplit(7, 4);
    AndSplit(3, 2);
    AndSplit(1, 1);
    AndSplit(0, 0);
  }

  lemma Rounded(v: nat, n: nat)
    requires n > 0 && 4096 * (n - 1) < v <= 4096 * n && v < U32_LIMIT
    ensures AlignUp(v, 4096) == 4096 * n
  {
    hide AlignUp, IsPow2;
    PageIsPow2();
    AlignUpLeastMultiple(v, 4096);
    assert (4096 * n) % 4096 == 0;
  }
}
