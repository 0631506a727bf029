# A verified model of libdane

libdane is a small C library. This project models its four components with the most intricate state
and proves what they promise, for every input and every run:

- **Path normalization** (`src/filesystem/filepath.c`). One scan cursor and one write cursor collapse
  separator runs, drop `./` and resolve `../` by walking the write cursor back over bytes already
  emitted, one UTF-8 character at a time.
- **The pool allocator** (`src/memory/pool_allocator.c`). The free list is threaded through the free
  blocks' own bytes while clients write whatever they like into the blocks they hold.
- **The linear allocator** (`src/memory/linear_allocator.c`). A bump allocator whose commitment grows by
  rounding to a number that is usually not a power of two, with savepoints and reset.
- **The growable array** (`include/libd/utils/darray.h`), with the cost of its reallocations.

They rest on the alignment arithmetic of `src/memory/internal/helpers.c` and the lead-byte test of
`include/libd/utils/encodings.h`.

## How it is organized

| file | content |
|---|---|
| `Bits.dfy`, `MemoryHelpers.dfy` | bitwise conjunction on naturals; `is_power_of_two`, `align_up` on 64-bit words |
| `Encodings.dfy` | lead-byte lengths; well-formed UTF-8 (section 4 of RFC 3629) |
| `FilepathScan.dfy` | what one pass computes, as a fold over the unread bytes |
| `Filepath.dfy` | the two-cursor loop in one memory that holds both strings, proved against that fold |
| `FilepathComponents.dfy` | an independent account: split at separators, resolve the components; when the fold equals it |
| `FilepathLaws.dfy`, `FilepathTheorems.dfy` | definitions for the laws; meaning, validity, cancellation |
| `FilepathDepths.dfy`, `FilepathCanonical.dfy` | how deep each prefix of a path leads; idempotence, canonical form and root, exactly |
| `FilepathComposition.dfy` | normalizing before or after appending |
| `FilepathOverflow.dfy`, `FilepathExamples.dfy` | exactly when a run overflows its buffer; outcomes on paths written out as bytes |
| `FilepathAsWritten.dfy`, `FilepathCharacters.dfy` | the loop with the scan limit that the source has: exactly when its result is the intended one, and when it keeps characters whole |
| `Words.dfy`, `PoolModel.dfy`, `PoolFreeList.dfy` | 32-bit words in memory; pool operations on bytes; the free list they spell out |
| `PoolRuns.dfy`, `PoolAllocators.dfy` | every run of a pool; the pool as an object |
| `LinearModel.dfy`, `LinearRuns.dfy`, `LinearAllocators.dfy` | the same for the linear allocator |
| `DArrays.dfy` | the growable array |

`NormalizeFilepath` is proved equal to the fold `Normalize`, for the limit of the backward scan that the source
has and for the one that is meant; the fold takes that limit as a parameter, `Stop`. `NormalizeIsNormal` equates
the fold with `Normal`, the resolution of components, for the intended limit and a buffer longer than the path.
The laws are stated about `Normal`. The code refuses the empty path before it gets there, so where a law
normalizes an output again it speaks about the code when that output is not empty.

`Depth(cs, m)` counts the first m components of a path without resolving them: 1 for a name or an empty component
that is kept, -1 for `..`, 0 otherwise. The exact conditions below are stated with it, so that they can be checked
on the path alone.

A *run* of an allocator is a `Trace`: a sequence of states, each one the result of the next operation on
the state before. Operations include arbitrary client writes to live blocks. The pool's state carries an
abstract free list beside the bytes, and its run invariant says that the bytes are that list.
`Times(n, d)` is the product and `Multiple(x, d)` is `x % d == 0` (`TimesIsProduct`,
`MultipleIsRemainderFree`); invariants use them because they unfold one addition at a time.

## Where code and intent differ

The model follows the code:

- The backward scan compares the write cursor with the start of the *input*, after it has read the byte in front
  of the cursor (`src/filesystem/filepath.c:63`). The start of the output is evidently meant. The loop is
  proved for both. `AlwaysRightIffFaithful` shows that no limit but the intended one is right for every path, unless
  it lies below an output with a separator in front. For two buffers that do not overlap `AsWrittenIff` says
  exactly when the result is right all the same:
  - With the output above the input only a separator stops the scan. It leaves the buffer exactly when some
    `..` takes away the only segment of a relative path and no separator stands in front of the buffer: `a/../b`.
  - With the output below the input the scan stops at once, and `..` removes one byte only. A valid path comes
    out right exactly when each `..` meets an empty segment; for a well-spaced path that means no `..` at all
    (`BelowIffNoParent`). An invalid path is still rejected exactly when its `..` drain the output byte by byte.
    `a/../b` becomes `ab` and `/a/../b` becomes `/ab` (`DownAndUpFails`, `RootedDownAndUpFails`).
- A trailing `.` or `..` moves the scan cursor one past the terminator (`src/filesystem/filepath.c:52`,
  `src/filesystem/filepath.c:66`), and the loop then reads one byte more. `NormalizeFilepath` asks for a second
  terminator only if the text ends in a reference and is normalized to its end; `EndsInRefIffLast` says that this
  is the last component being a reference, and `DotPasses` gives the shortest case, `.`.
- A byte that announces no character is copied with length 0, so the loop repeats the same state for ever: the
  text 0x80. A character that the text does not hold in full is copied together with the terminator, and
  the cursor reads on behind it: the text 0xC3. `EndsAsTextDoes`: a run that is not rejected, does not overflow and
  stays in its output ends successfully exactly if neither kind is in the text, and otherwise in the way of the
  first of them. `StallsIff` says where they are: continuation bytes, bytes from 0xF8 on, and lead bytes that
  announce more than is left, each where a character would start.
- Skipping a reference eats one separator only. When more follow, the next one closes an *empty* segment:
  `a/.//b` gives `a//b`, and `.//a` becomes absolute. `IdempotentIffNoneLeft` and `AbsoluteIffRooted` say for
  exactly which paths this shows in the output. In *well-spaced* paths (no reference followed by two or more
  separators) it cannot. Whatever the spacing, normalizing twice always reaches the canonical form.
- Normalizing a prefix before appending text is not always harmless: `a/.` followed by `b`, or `a/./`
  followed by `/b`. `ComposesIffExtendable` says for exactly which paths it is, over all texts: those that leave no
  empty segment and end in no reference, nor in a reference and its separator unless that leads back to the start.
- The capacity test follows the copy (`src/filesystem/filepath.c:75-81`). The overflowing copy therefore goes past
  `out_len` by `excess` bytes: none for ASCII text, at most three in general, one for a two-byte letter and
  a buffer of one byte (`NormalizeExcess`, `OneLetterOverflows`). On every other outcome nothing
  beyond `out_len` changes. `NeverSpillsIff`: a path is safe with every capacity exactly if no copy makes the output
  longer by two bytes or more than it has been before.
- A backward scan that stops too early can also split a character: with the output below
  the input `é/../..` is accepted and yields the single byte 0xC3 (`AccentIsSplit`).
  `AsWrittenKeepsCharactersIff`: above the input characters are always kept whole; below it exactly if no `..` removes
  a continuation byte for good, counted on the lengths of the components.
- `free` cuts the block index down to 32 bits before comparing it
  (`src/memory/pool_allocator.c:149`). `ForeignPointerAccepted` gives a pointer far outside that is taken for the
  first block; `AcceptedStartsIff` says that an accepted pointer is a block's start exactly when nothing was cut
  off, as is always so inside the data region (`FreeAcceptsBlockStarts`).
- A double free is not detected. `FreeAgain`: from the head on it cuts the free list off behind the block, below
  the head it closes the links to a ring.
- The size of a pool's data region is a 32-bit product (`src/memory/pool_allocator.c:76`). `BlocksFitIff`: all blocks
  lie inside exactly if it does not wrap. 65536 blocks of 65536 bytes get a region of 65536 bytes, and the second link
  is about to be written behind it (`ManyBlocksLeaveRegion`); one block of 2 GiB and 16 bytes gets 32 bytes, which its
  link fits in and the block does not (`LargeBlockOutgrowsRegion`). The block size is cut down as well: just below
  4 GiB the blocks have four bytes (`HugeBlocksShrink`).
- A comment promises growth to the next multiple of twice the size (`src/memory/linear_allocator.c:115-118`).
  `RequestsRoundIffPowerOfTwo` shows that requests are rounded to such multiples exactly for sizes that are powers
  of two. `FivePagesDoNotDouble`: from five pages one byte more leads to 28640 bytes and not to 40960.
  `GrowthCovers` shows why growth is safe all the same, and `GrowthDoublesIff` when it at least doubles:
  exactly if a power of two lies between twice and three times the commitment.
- `create` accepts a first commitment beyond the reservation. `CreatedKeeps`: the invariant holds exactly
  when it is not; a reservation of 32 bytes with a page of capacity violates it (`SmallReservationExceeded`).
- `insert_at` overwrites; it adds an element only at the end (`include/libd/utils/darray.h:106-110`).

## Model

| member | source | states |
|---|---|---|
| Bits.AndBits | src/memory/internal/helpers.c:15-47 | bit k of the conjunction used below is set if and only if it is set in both numbers |
| MemoryHelpers.PowerOfTwoTest | src/memory/internal/helpers.c:15-19 | a positive word passes the bit test if and only if it is some 2^k |
| MemoryHelpers.ValidAlignments | src/memory/internal/helpers.c:27-39 | the valid alignments are exactly 1, 2, 4, 8 and 16 |
| MemoryHelpers.AlignUpBounds | src/memory/internal/helpers.c:41-47 | for every alignment, a power of two or not, the result lies between the value and the value plus alignment minus one |
| MemoryHelpers.AlignUpLeastMultiple | src/memory/internal/helpers.c:41-47 | for a power of two the result is the least multiple not below the value |
| MemoryHelpers.AlignUpWraps | src/memory/internal/helpers.c:41-47 | for a power of two the result is zero when the sum exceeds a word |
| MemoryHelpers.AlignUpRoundsIffPowerOfTwo | src/memory/internal/helpers.c:41-47 | the result is a multiple for every value if and only if the alignment is a power of two |
| MemoryHelpers.RequestsRoundIffPowerOfTwo | src/memory/linear_allocator.c:115-118 | every value above c is rounded to a multiple of 2c if and only if c is a power of two; already c + 1 tells |
| Encodings.CharLenByRange | include/libd/utils/encodings.h:27-40 | the announced length for every range of lead bytes |
| Encodings.WellFormedSplit | include/libd/utils/encodings.h:27-40 | the announced length is that of the first RFC 3629 character, so well-formed text never stalls the scan |
| Encodings.WriteChar | include/libd/utils/encodings.h:42-51 | copies exactly the announced bytes within one memory and leaves the rest of it alone |
| Filepath.NormalizeFilepath | src/filesystem/filepath.c:18-87 | for every text and capacity and for either limit of the backward scan the in-place loop ends with the result, the bytes and the scan cursor of the fold, leaves the buffer or the text exactly when the fold says so, and repeats its state exactly when the fold stalls; outside `out_len`, and the excess of an overflow, no byte changes, and the excess is filled with the text's bytes |
| Filepath.DotPasses | src/filesystem/filepath.c:50-53 | the text `.` is normalized to its end and takes the cursor past the terminator, for every capacity and limit |
| Filepath.RefsAgree | src/filesystem/filepath.c:89-117 | the two tests recognize a `.` or `..` component, terminators included |
| Filepath.RemoveSegment | src/filesystem/filepath.c:61-65 | the scan, its conjuncts in the source's order, ends where the fold's does, or is about to leave the output |
| Filepath.GoUp | src/filesystem/filepath.c:55-67 | `../` is an error exactly with at most one byte of output, and otherwise takes the write cursor back as the fold does |
| Filepath.CopyChar | src/filesystem/filepath.c:74-77 | one copied character extends the output or overflows by a known number of bytes, or changes nothing at all and the fold stalls; the input and all bytes outside the room stay as they are |
| Filepath.CopyNext | src/filesystem/filepath.c:74-81 | tells when copying ends the run: at a character that runs past the text, one of length 0, or one that reaches the capacity |
| Filepath.LastOfRun | src/filesystem/filepath.c:45-48 | the cursor moves to the last separator of a run |
| FilepathScan.EndsAsTextDoes | src/filesystem/filepath.c:43-82 | for every capacity and limit a run that is not rejected, does not overflow and is not astray succeeds if and only if the text is readable, and stalls or is truncated if and only if reading the text character by character is |
| FilepathScan.StallsIff | src/filesystem/filepath.c:74-77 | reading stalls if and only if a continuation byte, or one from 0xF8 on, stands where a character would start, and is cut if and only if a lead byte there announces more bytes than are left |
| FilepathScan.ContinuationByteStalls | src/filesystem/filepath.c:74-77 | the text 0x80 stalls, for every capacity and limit |
| FilepathScan.LeadByteIsCut | src/filesystem/filepath.c:74-77 | the text 0xC3 is truncated, for every capacity and limit |
| FilepathScan.NormalizeFits | src/filesystem/filepath.c:74-84 | with a buffer longer than the input no overflow occurs and the output is not longer than the input |
| FilepathScan.NormalizeCapacity | src/filesystem/filepath.c:79-81 | a smaller buffer changes the outcome into an overflow or not at all, and a successful output leaves room for the terminator |
| FilepathOverflow.OverflowIff | src/filesystem/filepath.c:79-81 | for every capacity a run overflows if and only if the finished segments after some component, or the whole output, are at least as long as the capacity |
| FilepathScan.NormalizeExcess | src/filesystem/filepath.c:74-81 | the copy that overflows goes past the capacity by at most three bytes, by none for ASCII text |
| FilepathScan.NeverSpillsIff | src/filesystem/filepath.c:74-81 | no capacity is ever exceeded if and only if, in the unbounded run, no copy makes the output longer by two bytes or more than it has ever been |
| FilepathScan.OneLetterOverflows | src/filesystem/filepath.c:74-81 | a two-byte letter goes one byte past a buffer of one |
| FilepathScan.NormalizeKeepsCharacters | src/filesystem/filepath.c:43-86 | with the intended limit, or any below the output, well-formed text is never misread and has well-formed output |
| FilepathComponents.JoinSplit | src/filesystem/filepath.c:43-86 | splitting undoes joining: the components used by the reference definition are those of the text |
| FilepathComponents.WholeIsReadable | src/filesystem/filepath.c:74-77 | text of whole characters without a separator inside is readable, so no run on it stalls or leaves it |
| FilepathComponents.RetreatRemovesSegmentIff | src/filesystem/filepath.c:61-65 | the scan stops at the start of the last segment if and only if its limit is not behind that start and, at the start of the output, a separator or the limit stops it |
| FilepathComponents.EndsInRefIffLast | src/filesystem/filepath.c:50-69 | the cursor passes the terminator if and only if the last component is a reference |
| FilepathComponents.ScanIsComponents | src/filesystem/filepath.c:43-86 | wherever the backward scan stops, the byte fold meets the components of the text one after the other |
| FilepathComponents.NormalizeIsNormal | src/filesystem/filepath.c:43-86 | with the intended limit, or a separator below the output, the byte fold equals the resolution of components for every path, invalid ones included |
| FilepathDepths.EmptySegments | src/filesystem/filepath.c:45-69 | a finished segment is empty if and only if an empty component was kept at its depth and nothing led back up to it |
| FilepathDepths.InvalidIffGoesAbove | src/filesystem/filepath.c:55-60 | for every path: it is invalid if and only if some `..` comes at depth 0, or at depth 1 below a root |
| FilepathTheorems.Meaning | src/filesystem/filepath.c:43-117 | on well-spaced paths the output's components are the root, the lexically resolved names and the ending, and failure of lexical resolution is an invalid path |
| FilepathCanonical.AbsoluteIffRooted | src/filesystem/filepath.c:43-86 | for every path: the output is absolute if and only if some empty component was kept at depth 0 |
| FilepathCanonical.OutputKeepsRoot | src/filesystem/filepath.c:43-86 | a well-spaced path and its output are both absolute or both relative |
| FilepathCanonical.RootAppears | src/filesystem/filepath.c:51-53 | `.//a` is relative and gives `/a` |
| FilepathTheorems.InvalidIffPrefixGoesAbove | src/filesystem/filepath.c:55-60 | a well-spaced path is invalid if and only if some prefix has more `..` than ordinary names |
| FilepathCanonical.OutputIsRefFree | src/filesystem/filepath.c:50-69 | no output of any path has a `.` or `..` component |
| FilepathCanonical.IdempotentIffNoneLeft | src/filesystem/filepath.c:45-69 | for every path: normalizing again changes nothing if and only if no empty component kept below the first segment stays uncovered to the end |
| FilepathCanonical.CanonicalForm | src/filesystem/filepath.c:45-69 | hence the output of a well-spaced path has no adjacent separators, no reference, and is a fixed point |
| FilepathCanonical.FixedPointIffNoAdjacentSeparators | src/filesystem/filepath.c:45-69 | for every path the output is a fixed point if and only if it has no adjacent separators |
| FilepathCanonical.TwiceIsCanonical | src/filesystem/filepath.c:45-69 | for every path normalizing twice gives a canonical fixed point |
| FilepathCanonical.SpacingMatters | src/filesystem/filepath.c:51-53 | `a/.//b` is not well-spaced and gives `a//b` |
| FilepathTheorems.Cancellation | src/filesystem/filepath.c:55-67 | inserting a name followed by `/../` after a separator or at the start changes nothing |
| FilepathComposition.ExtendableComposes | src/filesystem/filepath.c:43-86 | for an extendable path that leaves no inner empty segment, normalizing before or after appending any text gives the same |
| FilepathComposition.ComposesIffExtendable | src/filesystem/filepath.c:43-86 | for every valid path these two conditions, which are about the path alone, are necessary and sufficient for that |
| FilepathComposition.WellSpacedComposesIff | src/filesystem/filepath.c:43-86 | for well-spaced paths being extendable is necessary and sufficient |
| FilepathCharacters.NormalIsWellFormed | src/filesystem/filepath.c:43-86 | as the limit is meant, well-formed text normalizes to well-formed text |
| FilepathCharacters.SourceBytes | src/filesystem/filepath.c:61-65 | with the output below the input each byte of the output comes from a component that the lengths determine |
| FilepathCharacters.BelowKeepsCharactersIff | src/filesystem/filepath.c:61-65 | with the output below the input, for every capacity, the output of well-formed text is well-formed if and only if no `..` removes a continuation byte and leaves the output no shorter at the end |
| FilepathCharacters.AsWrittenKeepsCharactersIff | src/filesystem/filepath.c:29-65 | the same for the source's own call; with the output above the input characters are always kept |
| FilepathCharacters.AccentIsSplit | src/filesystem/filepath.c:61-65 | `é/../..` is invalid as meant and gives half a character below the input |
| FilepathAsWritten.AboveIff | src/filesystem/filepath.c:61-65 | with the output above the input the run is astray if and only if some `..` takes the only segment of a relative path and no separator is in front, else its result is the intended one |
| FilepathAsWritten.BelowIff | src/filesystem/filepath.c:61-65 | with the output below the input a path is rejected if and only if its `..` drain the output byte by byte; a valid path comes out right if and only if each `..` meets an empty segment |
| FilepathAsWritten.BelowIffNoParent | src/filesystem/filepath.c:61-65 | for valid well-spaced paths that is having no `..` component |
| FilepathAsWritten.AsWrittenIff | src/filesystem/filepath.c:29-65 | both cases for the source's own call on two buffers that do not overlap, for every capacity that the call does not overflow |
| FilepathAsWritten.AlwaysRightIffFaithful | src/filesystem/filepath.c:63 | the limits that are right for every path are the intended one and, with a separator below the output, those below it |
| FilepathAsWritten.DownAndUpFails | src/filesystem/filepath.c:61-65 | `a/../b` is to become `b`; an earlier stop leaves `ab`, a later one leaves the buffer |
| FilepathAsWritten.RootedDownAndUpFails | src/filesystem/filepath.c:61-65 | `/a/../b` is to become `/b` and becomes `/ab` below the input |
| FilepathExamples.RelativeReference | src/filesystem/filepath.c:50-54 | the bytes of `a/./b` give those of `a/b` |
| FilepathExamples.SeparatorRun | src/filesystem/filepath.c:45-49 | the bytes of `a//b` give those of `a/b` |
| FilepathExamples.ParentReference | src/filesystem/filepath.c:55-67 | the bytes of `a/../b` give those of `b` |
| FilepathExamples.ParentOfNothing | src/filesystem/filepath.c:55-60 | the bytes of `../a` and of `/..` are invalid |
| FilepathExamples.ParentBelowRoot | src/filesystem/filepath.c:55-67 | the bytes of `/a/..` give those of `/` |
| FilepathExamples.NamesStay | src/filesystem/filepath.c:89-117 | three dots are a name, and a backslash separates nothing |
| FilepathExamples.SeparatorInsideCharacter | src/filesystem/filepath.c:94-97 | a reference behind a pair of 0xC3 and a separator is recognized |
| FilepathExamples.FourBytesTaken | include/libd/utils/encodings.h:36-37 | behind 0xF6 three bytes are copied with it, a separator included |
| FilepathExamples.StringsEndInZero | include/libd/common.h:54-55 | strings end in a zero byte, and `.` needs a second one |
| PoolModel.ChainIsDecoded | src/memory/pool_allocator.c:17-34 | following the stored indices from the head spells out the free list, to its end |
| PoolFreeList.LinkBytes | src/memory/pool_allocator.c:154-169 | a link is read back at its own slot and changes only that slot's first four bytes |
| PoolFreeList.AllocPops | src/memory/pool_allocator.c:108-133 | allocation fails on the empty free list, else hands out the front block, drops it and writes no byte |
| PoolFreeList.FreePushes | src/memory/pool_allocator.c:135-177 | freeing a live block puts it at the front if its index is below the head, else at the back, also when the pool was full |
| PoolFreeList.FreeBytes | src/memory/pool_allocator.c:154-169 | freeing changes no byte but those of two links: in the freed block, and in the last free block |
| PoolFreeList.FreeAgain | src/memory/pool_allocator.c:154-169 | freeing a free block cuts the list off behind it, or, below the head, leaves links that are no list at all |
| PoolFreeList.ForeignPointerAccepted | src/memory/pool_allocator.c:144-152 | the pointer 2^32 blocks on lies outside the data region, starts no block, and is accepted as the first one |
| PoolFreeList.AcceptedStartsIff | src/memory/pool_allocator.c:144-152 | an accepted pointer is the start of a block if and only if its index fits in 32 bits |
| PoolFreeList.AcceptedIff | src/memory/pool_allocator.c:144-152 | the accepted pointers are exactly the starts of blocks moved on by multiples of 2^32 blocks, each taken for its block |
| PoolFreeList.FreeAcceptsBlockStarts | src/memory/pool_allocator.c:144-152 | inside the data region the accepted pointers are the starts of blocks with index below the maximum |
| PoolFreeList.InitializeChains | src/memory/pool_allocator.c:185-200 | from arbitrary memory, all blocks end up free in ascending order |
| PoolFreeList.InitializeBytes | src/memory/pool_allocator.c:185-200 | no byte other than those of the links is written |
| PoolFreeList.AllocThenFree | src/memory/pool_allocator.c:108-177 | allocating and freeing restores the free list if it had one block or the next head is larger, else moves the block to the back |
| PoolRuns.RunsStart | src/memory/pool_allocator.c:185-200 | initialization and reset establish the run invariant with nothing live |
| PoolRuns.AdvanceKeeps | src/memory/pool_allocator.c:108-200 | allocation, freeing, reset and arbitrary client writes to live blocks keep the invariant |
| PoolRuns.AdvanceEffect | src/memory/pool_allocator.c:108-200 | what each operation does to free list, live blocks and bytes: allocation moves the first free block over, freeing moves one back to either end, reset frees all in ascending order, a client write changes one byte |
| PoolRuns.TraceRefines | src/memory/pool_allocator.c:108-200 | over every run the decoded bytes follow the abstract free list |
| PoolRuns.Conservation | src/memory/pool_allocator.c:117-130 | live and free blocks partition all blocks, so their numbers add up to the maximum |
| PoolRuns.Exhaustion | src/memory/pool_allocator.c:117-130 | from every reachable state, as many allocations as there are free blocks succeed, in the order of the free list, and all later ones fail |
| PoolRuns.LiveBytesKept | src/memory/pool_allocator.c:154-169 | over every run a block that is held keeps each byte unless its holder writes it |
| PoolRuns.LiveBlocksAreSeparate | src/memory/pool_allocator.c:202-234 | held blocks do not overlap and lie inside the data region |
| PoolAllocators.BlockSizeFits | src/memory/pool_allocator.c:68-74 | while rounding up stays within 32 bits, the block size is the least multiple of the alignment that holds the request and a link; otherwise it is four bytes and less than the request |
| PoolAllocators.HugeBlocksShrink | src/memory/pool_allocator.c:68-74 | a request of 2^32 - 1 bytes gives blocks of four bytes |
| PoolAllocators.BlockIsAligned | src/memory/pool_allocator.c:202-234 | with a 16-aligned data region every block address is a multiple of the alignment |
| PoolAllocators.BlocksFitIff | src/memory/pool_allocator.c:76 | every block lies in the data region if and only if the 32-bit size product does not wrap |
| PoolAllocators.ManyBlocksLeaveRegion | src/memory/pool_allocator.c:76 | 65536 blocks of 65536 bytes get a region of 65536 bytes and have a link outside |
| PoolAllocators.LargeBlockOutgrowsRegion | src/memory/pool_allocator.c:76 | one block of 0x80000010 bytes gets a region of 32 bytes with its link inside |
| PoolAllocators.PoolAllocator.Create | src/memory/pool_allocator.c:50-94 | for all 32-bit arguments every check in order; creation ends outside the data region if and only if some link is, and the pool is valid, with all blocks free in ascending order, if and only if the size product does not wrap |
| PoolAllocators.PoolAllocator.InitializeFreeList | src/memory/pool_allocator.c:185-200 | the loop gets to its end if and only if every link lies in the data region; in a region of the right size it computes the specified memory and a valid free list |
| PoolAllocators.PoolAllocator.Alloc | src/memory/pool_allocator.c:108-133 | the object does what the specification does: new fields, result, pointer and free list |
| PoolAllocators.PoolAllocator.Free | src/memory/pool_allocator.c:135-177 | the same for freeing any pointer, memory included; the pool stays valid if and only if the block was not free, or its index is not below the head |
| PoolAllocators.PoolAllocator.Reset | src/memory/pool_allocator.c:179-183 | everything is free again in ascending order |
| LinearModel.GrowthCovers | src/memory/linear_allocator.c:111-130 | growth covers the request, stays within the reservation and ends on a page, whatever it rounded to |
| LinearModel.AllocCommits | src/memory/linear_allocator.c:111-130 | whatever the head, an allocation beyond the commitment commits the fewest pages that hold the header and the rounded request, or the whole reservation if that is less; any other one leaves the commitment alone |
| LinearModel.ReservationBounds | src/memory/linear_allocator.c:21-26 | the whole reservation is the fewest pages that hold the header and what was asked for |
| LinearModel.GrowthDoubles | src/memory/linear_allocator.c:115-129 | an allocation beyond the commitment at least doubles it or reaches the end of the reservation, if a power of two lies between twice and three times the commitment |
| LinearModel.GrowthDoublesIff | src/memory/linear_allocator.c:115-129 | where the reservation has room for doubling, every such allocation doubles, at any head, if and only if there is such a power of two |
| LinearModel.FivePagesDoNotDouble | src/memory/linear_allocator.c:115-129 | an arena created with five pages and asked for one byte more commits 28640 bytes |
| LinearModel.AllocKeeps | src/memory/linear_allocator.c:111-136 | allocation keeps head aligned, head below commitment and commitment inside the reservation; exact failure and growth conditions |
| LinearModel.BytesFreeIsExact | src/memory/linear_allocator.c:180-192 | the unsigned difference never wraps |
| LinearModel.CreatedCommits | src/memory/linear_allocator.c:67-80 | creation stores what it was given, with the head at 0 and the fewest pages that hold the capacity committed, and one page more is made accessible |
| LinearModel.CreatedKeeps | src/memory/linear_allocator.c:67-80 | creation establishes the invariant if and only if the first commitment lies in the reservation and the reservation fits in 32 bits with the header |
| LinearModel.SmallReservationExceeded | src/memory/linear_allocator.c:67-80 | 32 reserved bytes and a page of capacity violate it |
| LinearRuns.RunsStart | src/memory/linear_allocator.c:67-80 | a created allocator starts the runs below, with nothing live, if and only if its first commitment lies in the reservation |
| LinearRuns.SavepointIsExact | src/memory/linear_allocator.c:28-30 | the 32-bit savepoint index loses nothing |
| LinearRuns.TraceKeeps | src/memory/linear_allocator.c:101-178 | every run of allocations, savepoints, restores, resets and client writes keeps the invariant and never shrinks the commitment |
| LinearRuns.AdvanceEffect | src/memory/linear_allocator.c:101-178 | what each operation does to live blocks, savepoints and bytes: allocation adds a block of the size asked for at the head, savepoints record and restoring and resetting cut back, a client write changes one byte |
| LinearRuns.GrowthsAreCounted | src/memory/linear_allocator.c:111-130 | over every run the counter of growths goes up with exactly the steps that raise the commitment |
| LinearRuns.GrowthBound | src/memory/linear_allocator.c:111-130 | the number of steps that raise the commitment, in any run of a new allocator, is below the number of reserved pages |
| LinearRuns.BlocksAreApart | src/memory/linear_allocator.c:132-133 | live blocks never overlap, also after restoring and resetting |
| LinearRuns.BlockIsInside | src/memory/linear_allocator.c:132-133 | live blocks are aligned and inside the committed data |
| LinearRuns.BlockAddressIsAligned | src/memory/linear_allocator.c:10-19 | block addresses are aligned behind the 32-byte header |
| LinearRuns.CreatedRunIsAligned | src/memory/linear_allocator.c:77-133 | in every run of a created allocator each live block's address is a multiple of the alignment asked for, and its offset the sum of the sizes before it, rounded to that alignment |
| LinearRuns.SavepointRestores | src/memory/linear_allocator.c:138-166 | restoring a valid savepoint brings back exactly the blocks and the head from when it was set, whatever happened in between |
| LinearRuns.BytesSurvive | src/memory/linear_allocator.c:138-166 | blocks older than a savepoint keep every byte that their holders do not write |
| LinearRuns.Replay | src/memory/linear_allocator.c:111-136 | a successful sequence of sizes succeeds again from the same head, at the same offsets, once as much is committed as it had reached |
| LinearRuns.OffsetsAreSums | src/memory/linear_allocator.c:132-133 | each offset is the sum of the rounded sizes before it, independent of the commitment |
| LinearRuns.ReplayAfterReset | src/memory/linear_allocator.c:168-178 | fill, do anything, reset: the same sizes succeed at the same offsets |
| LinearAllocators.WrappedReservation | src/memory/linear_allocator.c:53-54 | if header and reservation do not fit in 32 bits, one page is mapped, or none |
| LinearAllocators.LinearAllocator.Create | src/memory/linear_allocator.c:32-85 | every check in order, failed system calls included; alignment, page size and reservation are those given, the head is 0 and the fewest pages for the capacity are committed; the new allocator is valid if and only if the commitment lies in the reservation and the 32-bit length did not wrap |
| LinearAllocators.LinearAllocator.Alloc | src/memory/linear_allocator.c:101-136 | the old head is handed out, with the exact failure condition, the exact new commitment and no memory touched |
| LinearAllocators.LinearAllocator.SetSavepoint | src/memory/linear_allocator.c:138-152 | the stored savepoint is the head |
| LinearAllocators.LinearAllocator.RestoreSavepoint | src/memory/linear_allocator.c:154-166 | only the head moves, to any savepoint; the allocator stays valid if and only if that is aligned and committed |
| LinearAllocators.LinearAllocator.Reset | src/memory/linear_allocator.c:168-178 | only the head moves, to zero |
| LinearAllocators.LinearAllocator.BytesFree | src/memory/linear_allocator.c:180-192 | reports the true difference of commitment and head |
| DArrays.ApplyAmortized | include/libd/utils/darray.h:77-90 | one write keeps capacity a doubling of the initial one, below twice the size, and the elements moved below the capacity gained |
| DArrays.ApplyMoves | include/libd/utils/darray.h:77-88 | a write that fits moves nothing, any other one the whole old capacity |
| DArrays.AmortizedRun | include/libd/utils/darray.h:65-110 | the same over every run, and the capacities before all reallocations add up to at most twice the number of elements |
| DArrays.DArray.Create | include/libd/utils/darray.h:35-53 | refuses capacity zero and failed allocation, else gives an empty array |
| DArrays.DArray.At | include/libd/utils/darray.h:54-64 | finds exactly the elements below the size |
| DArrays.DArray.MemcpyAt | include/libd/utils/darray.h:65-92 | element by element the new contents, with the larger of both ends as size, and the capacity doubled only as often as needed; on either error nothing changes |
| DArrays.DArray.CapacityFor | include/libd/utils/darray.h:77-80 | the loop finds the first doubling of the capacity that is large enough |
| DArrays.DArray.AppendN | include/libd/utils/darray.h:93-100 | contents followed by the new elements |
| DArrays.DArray.Append | include/libd/utils/darray.h:101-105 | contents followed by the new element |
| DArrays.DArray.InsertAt | include/libd/utils/darray.h:106-110 | replaces the element at the index, or appends at the end |

## Left out

- NULL arguments: the branches that only test for them.
- Filepath.NormalizeFilepath: a run that leaves the output buffer or the text is not followed further; buffers that overlap are not modelled; the prefix loop is left out because the POSIX prefix is empty.
- FilepathComponents.NormalizeIsNormal: for text of whole characters, well-formed or not; the source copies a lead byte and a separator behind it as one character, and then the components it meets are not those between separators. The fold and the loop do cover such text.
- PoolAllocators.PoolAllocator.Create: a creation that writes outside its data region is not followed further, and `malloc`'s slack for the alignment does not count as part of the region.
- PoolRuns.AdvanceKeeps: clients of a run free only what they hold; `PoolFreeList.FreeAgain` is about the others.
- Words.Encode: little-endian; the result does not depend on the byte order.
- LinearAllocators.LinearAllocator.Create: asks that the page size is a power of two from 32 on and below 2^32, and that `mmap` refuses length 0; the header has the 32 bytes of a 64-bit platform and the largest alignment is 16.
- LinearAllocators.LinearAllocator.Alloc: the result of `mprotect` is ignored, as in the source.
- LinearRuns.TraceKeeps: runs restore only savepoints that are still valid; the header calls anything else undefined.
- DArrays.DArray.MemcpyAt: sizes are unbounded, so overflow of `size_t` is not modelled, nor a source that overlaps the array's own storage.
- `destroy` functions, `free` and `munmap`: they end an object's life and compute nothing.
- `libd_utf8_is_char_equal_to`: a bytewise comparison that no modelled component calls.
- `libd_filesystem_filepath_expand` and `libd_filesystem_filepath_ancestor`: stubs in the source.
- Thread-local storage, error contexts, allocator wrappers and the Windows variants.
