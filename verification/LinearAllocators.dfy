/** The linear allocator as an object that updates its fields in place and never touches its memory. */
module LinearAllocators {
  import opened Bits
  import opened Common
  import opened MemoryHelpers
  import opened LinearModel
  import opened LinearRuns

  /** The length that `create` maps: header and reservation, added in 32 bits and rounded to pages. */
  function MappedSize(dataReservationSize: nat, pageSize: nat): nat {
    AlignUp((HEADER_SIZE + dataReservationSize) % U32_LIMIT, pageSize)
  }

  lemma MappedHoldsHeader(dataReservationSize: nat, pageSize: nat)
    requires IsPageSize(pageSize) && MappedSize(dataReservationSize, pageSize) > 0
    ensures MappedSize(dataReservationSize, pageSize) >= HEADER_SIZE
    ensures dataReservationSize + HEADER_SIZE < U32_LIMIT ==>
              MappedSize(dataReservationSize, pageSize) == AlignUp(HEADER_SIZE + dataReservationSize, pageSize)
  {
    hide AlignUp, IsPow2;
    AlignUpLeastMultiple((HEADER_SIZE + dataReservationSize) % U32_LIMIT, pageSize);
    PositiveMultiple(MappedSize(dataReservationSize, pageSize), pageSize);
  }

  /** If the addition wraps, the mapped length is one page, or none. */
  lemma WrappedReservation(dataReservationSize: nat, pageSize: nat)
    requires IsPageSize(pageSize) && dataReservationSize < U32_LIMIT <= HEADER_SIZE + dataReservationSize
    ensures MappedSize(dataReservationSize, pageSize) ==
            if HEADER_SIZE + dataReservationSize == U32_LIMIT then 0 else pageSize
  {
    hide AlignUp, IsPow2;
    var wrapped := (HEADER_SIZE + dataReservationSize) % U32_LIMIT;
    assert wrapped == HEADER_SIZE + dataReservationSize - U32_LIMIT;
    AlignUpLeastMultiple(wrapped, pageSize);
    assert pageSize % pageSize == 0 && 0 % pageSize == 0;
    MultiplesAreApart(AlignUp(wrapped, pageSize), pageSize, pageSize);
    MultiplesAreApart(pageSize, AlignUp(wrapped, pageSize), pageSize);
    MultiplesAreApart(AlignUp(wrapped, pageSize), 0, pageSize);
  }

  class LinearAllocator {
    var currDataSize: nat
    var headIndex: nat
    var alignment: nat
    var headerSize: nat
    var sysPageSize: nat
    var dataReservationSize: nat
    /** The reserved data region; only its first `currDataSize` bytes are accessible. */
    const data: array<byte>

    function Value(): Arena
      reads this
    {
      Arena(currDataSize, headIndex, alignment, headerSize, sysPageSize, dataReservationSize)
    }

    ghost predicate Valid()
      reads this
    {
      Inv(Value()) && headerSize + data.Length == TotalReservation(Value())
    }

    /** A fresh reservation: the bytes are arbitrary. */
    constructor Map(size: nat)
      ensures fresh(data) && data.Length == size
    {
      data := new byte[size];
    }

    /** `pageSize`, `mapped` and `accessible` are the outcomes of `sysconf`, `mmap` and `mprotect`; `mmap`
        refuses length 0. The length is computed in 32 bits. */
    static method Create(
      dataReservationSize: nat, startingCapacity: nat, alignment: nat, pageSize: int, mapped: bool, accessible: bool)
      returns (r: Result, la: LinearAllocator?)
      requires dataReservationSize < U32_LIMIT && startingCapacity < U32_LIMIT && alignment < 256
      requires pageSize == -1 || (pageSize > 0 && IsPageSize(pageSize))
      requires mapped && pageSize > 0 ==> MappedSize(dataReservationSize, pageSize) > 0
      ensures r ==
              if startingCapacity == 0 then InvalidParameter
              else if !IsValidAlignment(alignment) then InvalidAlignment
              else if pageSize == -1 || !mapped || !accessible then Err
              else Ok
      ensures r == Ok <==> la != null
      ensures la != null ==>
                && fresh(la) && fresh(la.data) && pageSize > 0
                && la.Value() == Created(dataReservationSize, startingCapacity, alignment, pageSize)
                && la.alignment == alignment && la.sysPageSize == pageSize && la.headerSize == HEADER_SIZE
                && la.dataReservationSize == dataReservationSize && la.headIndex == 0
                && LeastMultiple(la.currDataSize, startingCapacity, pageSize)
                && HEADER_SIZE + la.data.Length == MappedSize(dataReservationSize, pageSize)
                && (la.Valid() <==>
                      && dataReservationSize + HEADER_SIZE < U32_LIMIT
                      && InitialCommit(dataReservationSize, startingCapacity, pageSize) <= TotalReservation(la.Value()))
    {
      hide AlignUp, IsPageSize, IsValidAlignment, Inv, InitialCommit;
      if startingCapacity == 0 {
        return InvalidParameter, null;
      }
      if !IsValidAlignment(alignment) {
        return InvalidAlignment, null;
      }
      if pageSize == -1 {
        return Err, null;
      }
      var totalReservationSize := MappedSize(dataReservationSize, pageSize);
      if !mapped {
        return Err, null;
      }
      var committed := AlignUp(startingCapacity, pageSize);
      if !accessible {
        return Err, null;
      }
      MappedHoldsHeader(dataReservationSize, pageSize);
      CreatedKeeps(dataReservationSize, startingCapacity, alignment, pageSize);
      CreatedCommits(dataReservationSize, startingCapacity, alignment, pageSize);
      la := new LinearAllocator.Map(totalReservationSize - HEADER_SIZE);
      la.currDataSize := committed;
      la.headIndex := 0;
      la.alignment := alignment;
      la.dataReservationSize := dataReservationSize;
      la.sysPageSize := pageSize;
      la.headerSize := HEADER_SIZE;
      return Ok, la;
    }

    /** Hands out the old head; fails only beyond both the commitment and the reservation. */
    method Alloc(size: nat) returns (r: Result, out: nat)
      requires Valid() && size < U32_LIMIT
      modifies this
      ensures Valid()
      ensures (if r == Ok then Some(out) else None, Value()) == AllocStep(old(Value()), size)
      ensures r == if old(headIndex) + size <= old(currDataSize) || old(headIndex) + size <= dataReservationSize
                   then Ok else NoMemory
      ensures r == Ok ==> out == old(headIndex) && out + size <= headIndex <= currDataSize <= data.Length
      ensures old(currDataSize) <= currDataSize
      ensures r == Ok && old(currDataSize) < out + size ==> Commits(old(Value()), Value(), out + size)
      ensures r == Ok && old(currDataSize) >= out + size ==> currDataSize == old(currDataSize)
    {
      hide Inv, AlignUp, IsPow2, IsValidAlignment, Commits;
      AllocKeeps(Value(), size);
      AllocCommits(Value(), size);
      ghost var before := Value();
      HeadIsCommitted(AllocStep(before, size).1);
      CommitIsReserved(AllocStep(before, size).1);
      if currDataSize < headIndex + size {
        if dataReservationSize < headIndex + size {
          return NoMemory, 0;
        }
        var newDataSize := AlignUp(headIndex + size, currDataSize * 2);
        var newTotalSize := AlignUp(headerSize + newDataSize, sysPageSize);
        newTotalSize := Min(newTotalSize, TotalReservation(Value()));
        currDataSize := (newTotalSize - headerSize) % WORD;
      }
      out := headIndex;
      headIndex := headIndex + AlignUp(size, alignment);
      ReservationSame(before, Value());
      return Ok, out;
    }

    /** The savepoint is the head, although it is stored in 32 bits. */
    method SetSavepoint() returns (r: Result, savepoint: nat)
      requires Valid()
      ensures r == Ok && savepoint == headIndex
    {
      SavepointIsExact(Value());
      return Ok, SavepointIndex(Value());
    }

    /** Moves the head wherever the savepoint says; the allocator stays valid exactly if that is a multiple
        of the alignment inside the committed data, as every savepoint that is still valid is. */
    method RestoreSavepoint(savepoint: nat) returns (r: Result)
      requires Valid()
      modifies this
      ensures r == Ok && Value() == old(Value()).(headIndex := savepoint)
      ensures Valid() <==> savepoint <= currDataSize && Multiple(savepoint, alignment)
    {
      hide AlignUp, Multiple;
      ReservationSame(Value(), Value().(headIndex := savepoint));
      headIndex := savepoint;
      return Ok;
    }

    method Reset() returns (r: Result)
      requires Valid()
      modifies this
      ensures r == Ok && Valid() && Value() == old(Value()).(headIndex := 0)
    {
      SetupIsConfigured(Value());
      HeadMoves(Value(), 0);
      ReservationSame(Value(), Value().(headIndex := 0));
      headIndex := 0;
      return Ok;
    }

    /** The unsigned difference is the true one. */
    method BytesFree() returns (r: Result, size: nat)
      requires Valid()
      ensures r == Ok && size == currDataSize - headIndex
    {
      hide Inv;
      HeadIsCommitted(Value());
      BytesFreeIsExact(Value());
      return Ok, (currDataSize - headIndex) % WORD;
    }
  }
}
