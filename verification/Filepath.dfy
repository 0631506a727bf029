/** The path normalizer itself: one scan cursor, one write cursor, one memory that holds both buffers. */
module Filepath {
  import opened Common
  import opened Encodings
  import opened FilepathScan

  /** A C string at `input`: text without NUL, then a terminator. */
  ghost predicate Holds(m: seq<byte>, input: nat, text: seq<byte>) {
    && input + |text| < |m|
    && m[input..input + |text|] == text && NUL !in text
    && m[input + |text|] == NUL
  }

  /** Only a text that ends in a reference, and is normalized to its end, needs a second terminator. */
  ghost predicate Passes(text: seq<byte>, capacity: nat, stop: Stop) {
    EndsInRef(text, true) && Normalize(text, capacity, stop).Normalized?
  }

  /** The shortest such text is `.`: the cursor ends two bytes behind its start. */
  lemma DotPasses(capacity: nat, stop: Stop)
    ensures Normalize([DOT], capacity, stop) == Normalized([]) && Passes([DOT], capacity, stop)
  {
    var dot: seq<byte> := [DOT];
    assert IsRelativeRef(dot) && Drop(dot, 2) == [];
    assert Scan(dot, true, [], capacity, stop) == Scan([], true, [], capacity, stop);
  }

  ghost predicate Terminated(m: seq<byte>, input: nat, text: seq<byte>, capacity: nat, stop: Stop) {
    && Holds(m, input, text)
    && (Passes(text, capacity, stop) ==> input + |text| + 1 < |m| && m[input + |text| + 1] == NUL)
  }

  /** The bytes of the output buffer that a run may write: `outLen`, and those of an overflowing copy. */
  ghost function Room(text: seq<byte>, outLen: nat, stop: Stop): (room: nat)
    ensures room >= outLen
  {
    outLen + if Normalize(text, outLen, stop).Overflow? then Normalize(text, outLen, stop).excess else 0
  }

  /** The output buffer lies below or above the string with its terminators. */
  ghost predicate Apart(out: nat, outLen: nat, input: nat, text: seq<byte>, stop: Stop) {
    || out + Room(text, outLen, stop) <= input
    || input + |text| + 1 + (if Passes(text, outLen, stop) then 1 else 0) <= out
  }

  /** Everything outside the output buffer is as it was. */
  ghost predicate Framed(m0: seq<byte>, m: seq<byte>, out: nat, room: nat) {
    |m| == |m0| && forall k | 0 <= k < |m| && !(out <= k < out + room) :: m[k] == m0[k]
  }

  lemma FrameStarts(m: seq<byte>, out: nat, room: nat)
    ensures Framed(m, m, out, room)
  {
  }

  lemma FrameKeepsInput(m0: seq<byte>, m: seq<byte>, out: nat, outLen: nat, input: nat, text: seq<byte>, stop: Stop)
    requires Terminated(m0, input, text, outLen, stop) && Apart(out, outLen, input, text, stop)
    requires Framed(m0, m, out, Room(text, outLen, stop))
    ensures Terminated(m, input, text, outLen, stop)
  {
    assert m[input..input + |text|] == m0[input..input + |text|];
  }

  predicate FoundRelativeRef(memory: seq<byte>, path: nat, scan: nat)
    requires path <= scan && scan + 1 < |memory|
  {
    var behind := scan == path || memory[scan - 1] == SEPARATOR;
    var ahead := memory[scan + 1] == SEPARATOR || memory[scan + 1] == NUL;
    behind && ahead
  }

  predicate FoundParentRef(memory: seq<byte>, path: nat, scan: nat)
    requires path <= scan && scan + 1 < |memory|
    requires memory[scan + 1] != NUL ==> scan + 2 < |memory|
  {
    if memory[scan + 1] == NUL then false
    else
      var behind := scan == path || memory[scan - 1] == SEPARATOR;
      var aheadOne := memory[scan + 1] == DOT;
      var aheadTwo := memory[scan + 2] == SEPARATOR || memory[scan + 2] == NUL;
      behind && aheadOne && aheadTwo
  }

  /** A component starts at `scan`. */
  ghost predicate Boundary(text: seq<byte>, scan: nat) {
    scan == 0 || (scan <= |text| && text[scan - 1] == SEPARATOR)
  }

  /** What links the cursors to the fold: `written` is the output so far, the text from `scan` on is
      unread, and the cursor is past the terminator only if the text ends in a reference. */
  ghost predicate Reading(text: seq<byte>, scan: nat, written: seq<byte>, capacity: nat, stop: Stop) {
    && Normalize(text, capacity, stop) == Scan(Drop(text, scan), Boundary(text, scan), written, capacity, stop)
    && (scan < |text| ==> EndsInRef(text, true) == EndsInRef(Drop(text, scan), Boundary(text, scan)))
    && (scan >= |text| ==> scan == |text| + if EndsInRef(text, true) then 1 else 0)
    && |written| <= scan && |written| < capacity
  }

  lemma ReadingStart(text: seq<byte>, capacity: nat, stop: Stop)
    requires capacity > 0 && text != []
    ensures Reading(text, 0, [], capacity, stop)
  {
    assert Drop(text, 0) == text;
  }

  /** At the terminator the output is complete. */
  lemma ReadingEnd(text: seq<byte>, scan: nat, written: seq<byte>, capacity: nat, stop: Stop)
    requires Reading(text, scan, written, capacity, stop) && scan >= |text|
    ensures Normalize(text, capacity, stop) == Normalized(written) && |written| < capacity
    ensures scan == |text| + if EndsInRef(text, true) then 1 else 0
  {
  }

  /** A step to `next`, past `s` up to `rest`, with the same outcome. */
  lemma ReadingAdvances(
    text: seq<byte>, scan: nat, next: nat, written: seq<byte>, written': seq<byte>, boundary: bool, capacity: nat,
    stop: Stop)
    requires Reading(text, scan, written, capacity, stop) && scan < |text| && scan < next <= |text| + 1
    requires Scan(Drop(text, scan), Boundary(text, scan), written, capacity, stop)
          == Scan(Drop(text, next), boundary, written', capacity, stop)
    requires next < |text| ==> boundary == Boundary(text, next)
    requires EndsInRef(Drop(text, scan), Boundary(text, scan)) <==>
             next == |text| + 1 || EndsInRef(Drop(text, next), boundary)
    requires |written'| <= next && |written'| < capacity
    ensures Reading(text, next, written', capacity, stop)
  {
  }

  lemma DropTwice(s: seq<byte>, i: nat, j: nat)
    ensures Drop(Drop(s, i), j) == Drop(s, i + j)
  {
  }

  lemma AfterRelativeRef(s: seq<byte>, written: seq<byte>, capacity: nat, stop: Stop)
    requires IsRelativeRef(s)
    ensures Scan(s, true, written, capacity, stop) == Scan(Drop(s, 2), true, written, capacity, stop)
    ensures EndsInRef(s, true) == (|s| == 1 || EndsInRef(Drop(s, 2), true))
  {
    hide Retreat;
  }

  /** `./` is skipped. */
  lemma ReadRelativeRef(text: seq<byte>, scan: nat, written: seq<byte>, capacity: nat, stop: Stop)
    requires Reading(text, scan, written, capacity, stop)
    requires Boundary(text, scan) && IsRelativeRef(Drop(text, scan))
    ensures Reading(text, scan + 2, written, capacity, stop)
    ensures scan + 2 > |text| ==> Passes(text, capacity, stop)
  {
    hide Scan, EndsInRef, Retreat;
    DropTwice(text, scan, 2);
    AfterRelativeRef(Drop(text, scan), written, capacity, stop);
    ScanOfNothing(written, capacity, stop);
    ReadingAdvances(text, scan, scan + 2, written, written, true, capacity, stop);
  }

  lemma ScanOfNothing(written: seq<byte>, capacity: nat, stop: Stop)
    ensures forall boundary :: Scan([], boundary, written, capacity, stop) == Normalized(written)
  {
  }

  /** `../` with at most one byte of output is an error. */
  lemma ReadTopParentRef(text: seq<byte>, scan: nat, written: seq<byte>, capacity: nat, stop: Stop)
    requires Reading(text, scan, written, capacity, stop)
    requires Boundary(text, scan) && IsParentRef(Drop(text, scan)) && |written| <= 1
    ensures Normalize(text, capacity, stop) == Invalid
  {
  }

  lemma EndsAfterParentRef(s: seq<byte>)
    requires IsParentRef(s)
    ensures EndsInRef(s, true) == (|s| == 2 || EndsInRef(Drop(s, 3), true))
  {
  }

  lemma ScanAfterParentRef(s: seq<byte>, written: seq<byte>, capacity: nat, stop: Stop)
    requires IsParentRef(s) && |written| > 1
    ensures var r := Retreat(written[..|written| - 1], stop);
            Scan(s, true, written, capacity, stop) ==
            if r.None? then Astray else Scan(Drop(s, 3), true, r.value, capacity, stop)
  {
    hide Retreat;
  }

  /** `../` takes the write cursor back as far as the backward scan goes. */
  lemma ReadParentRef(text: seq<byte>, scan: nat, written: seq<byte>, capacity: nat, stop: Stop)
    requires Reading(text, scan, written, capacity, stop)
    requires Boundary(text, scan) && IsParentRef(Drop(text, scan)) && |written| > 1
    ensures match Retreat(written[..|written| - 1], stop)
            case None => Normalize(text, capacity, stop) == Astray
            case Some(rest) =>
              && Reading(text, scan + 3, rest, capacity, stop)
              && (scan + 3 > |text| ==> Passes(text, capacity, stop))
  {
    hide Retreat, EndsInRef, Scan;
    var r := Retreat(written[..|written| - 1], stop);
    ScanAfterParentRef(Drop(text, scan), written, capacity, stop);
    if r.Some? {
      ScanOfNothing(r.value, capacity, stop);
      DropTwice(text, scan, 3);
      EndsAfterParentRef(Drop(text, scan));
      ReadingAdvances(text, scan, scan + 3, written, r.value, true, capacity, stop);
    }
  }

  lemma EndsAfterSeparators(s: seq<byte>, boundary: bool)
    requires s != [] && s[0] == SEPARATOR
    ensures EndsInRef(s, boundary) == EndsInRef(SkipSeparators(s[1..]), true)
  {
  }

  lemma ScanAfterSeparators(s: seq<byte>, boundary: bool, written: seq<byte>, capacity: nat, stop: Stop)
    requires s != [] && s[0] == SEPARATOR
    ensures Scan(s, boundary, written, capacity, stop) ==
            if |written| + 1 >= capacity then Overflow(|written| + 1 - capacity)
            else Scan(SkipSeparators(s[1..]), true, written + [SEPARATOR], capacity, stop)
  {
  }

  /** A run of separators becomes one. */
  lemma ReadSeparators(text: seq<byte>, scan: nat, end: nat, written: seq<byte>, capacity: nat, stop: Stop)
    requires Reading(text, scan, written, capacity, stop)
    requires scan <= end < |text| && text[scan] == SEPARATOR && text[end] == SEPARATOR
    requires SkipSeparators(text[scan + 1..]) == text[end + 1..]
    ensures |written| + 1 >= capacity ==> Normalize(text, capacity, stop) == Overflow(|written| + 1 - capacity)
    ensures |written| + 1 < capacity ==> Reading(text, end + 1, written + [SEPARATOR], capacity, stop)
  {
    hide EndsInRef, Retreat, Scan;
    var s := Drop(text, scan);
    EndsAfterSeparators(s, Boundary(text, scan));
    ScanAfterSeparators(s, Boundary(text, scan), written, capacity, stop);
    assert s[0] == SEPARATOR && s[1..] == text[scan + 1..] && Drop(text, end + 1) == text[end + 1..];
    if |written| + 1 < capacity {
      ReadingAdvances(text, scan, end + 1, written, written + [SEPARATOR], true, capacity, stop);
    }
  }

  lemma EndsAfterChar(s: seq<byte>, boundary: bool)
    requires s != [] && s[0] != SEPARATOR && !(boundary && (IsRelativeRef(s) || IsParentRef(s)))
    requires 1 <= CharLen(s[0]) <= |s|
    ensures EndsInRef(s, boundary) == EndsInRef(s[CharLen(s[0])..], s[CharLen(s[0]) - 1] == SEPARATOR)
  {
  }

  lemma ScanAfterChar(s: seq<byte>, boundary: bool, written: seq<byte>, capacity: nat, stop: Stop)
    requires s != [] && s[0] != SEPARATOR && !(boundary && (IsRelativeRef(s) || IsParentRef(s)))
    ensures Scan(s, boundary, written, capacity, stop) ==
            var n := CharLen(s[0]);
            if n == 0 then Stalled
            else if n > |s| then Truncated
            else if |written| + n >= capacity then Overflow(|written| + n - capacity)
            else Scan(s[n..], s[n - 1] == SEPARATOR, written + s[..n], capacity, stop)
  {
  }

  /** Any other character is copied, if there is one. */
  lemma ReadChar(text: seq<byte>, scan: nat, written: seq<byte>, capacity: nat, stop: Stop)
    requires Reading(text, scan, written, capacity, stop)
    requires scan < |text| && text[scan] != SEPARATOR
    requires !(Boundary(text, scan) && (IsRelativeRef(Drop(text, scan)) || IsParentRef(Drop(text, scan))))
    ensures var n := CharLen(text[scan]);
            if n == 0 then Normalize(text, capacity, stop) == Stalled
            else if scan + n > |text| then Normalize(text, capacity, stop) == Truncated
            else if |written| + n >= capacity then Normalize(text, capacity, stop) == Overflow(|written| + n - capacity)
            else Reading(text, scan + n, written + text[scan..scan + n], capacity, stop)
  {
    hide EndsInRef, Normalize, CharLen, Scan, Retreat, IsRelativeRef, IsParentRef;
    var s, n, boundary := Drop(text, scan), CharLen(text[scan]), Boundary(text, scan);
    assert s[0] == text[scan] && |s| == |text| - scan;
    ScanAfterChar(s, boundary, written, capacity, stop);
    if n > 0 && scan + n <= |text| && |written| + n < capacity {
      DropAfterChar(text, scan, n);
      EndsAfterChar(s, boundary);
      ReadingAdvances(
        text, scan, scan + n, written, written + text[scan..scan + n], s[n - 1] == SEPARATOR, capacity, stop);
    }
  }

  lemma DropAfterChar(text: seq<byte>, scan: nat, n: nat)
    requires scan + n <= |text| && n > 0
    ensures var s := Drop(text, scan);
            s[..n] == text[scan..scan + n] && s[n..] == Drop(text, scan + n) && s[n - 1] == text[scan + n - 1]
  {
  }

  /** The text, byte by byte. */
  lemma TextBytes(m: seq<byte>, input: nat, text: seq<byte>)
    requires Holds(m, input, text)
    ensures forall k | input <= k < input + |text| :: m[k] == text[k - input] && m[k] != NUL
  {
    forall k | input <= k < input + |text| ensures m[k] == text[k - input] && m[k] != NUL {
      assert m[k] == m[input..input + |text|][k - input];
      assert text[k - input] in text;
    }
  }

  /** The two tests recognize a reference, with either terminator. */
  lemma RefsAgree(m: seq<byte>, input: nat, text: seq<byte>, scan: nat)
    requires Holds(m, input, text) && scan < |text| && text[scan] == DOT
    ensures m[input + scan + 1] != NUL ==> input + scan + 2 < |m|
    ensures FoundRelativeRef(m, input, input + scan) == (Boundary(text, scan) && IsRelativeRef(Drop(text, scan)))
    ensures FoundParentRef(m, input, input + scan) == (Boundary(text, scan) && IsParentRef(Drop(text, scan)))
  {
    TextBytes(m, input, text);
    var s := Drop(text, scan);
    assert forall i | 0 <= i < |s| :: s[i] == m[input + scan + i];
  }

  lemma RefsStartWithDot(s: seq<byte>)
    ensures IsRelativeRef(s) || IsParentRef(s) ==> s != [] && s[0] == DOT
  {
  }

  /** The bytes from `at` on, beyond the buffer, are the last ones of the text that was copied. */
  ghost predicate Spills(m: seq<byte>, at: nat, excess: nat, text: seq<byte>, copied: nat) {
    && excess <= copied <= |text| && at + excess <= |m|
    && m[at..at + excess] == text[copied - excess..copied]
  }

  lemma TerminatedHolds(m: seq<byte>, input: nat, text: seq<byte>, outLen: nat, stop: Stop)
    requires Terminated(m, input, text, outLen, stop)
    ensures Holds(m, input, text)
  {
  }

  /** Where the text ends. */
  lemma TextEnds(m: seq<byte>, input: nat, text: seq<byte>)
    requires Holds(m, input, text)
    ensures input + |text| < |m| && m[input + |text|] == NUL
    ensures forall k | input <= k < input + |text| :: m[k] != NUL
  {
    TextBytes(m, input, text);
  }

  lemma TerminatedEnds(m: seq<byte>, input: nat, text: seq<byte>, outLen: nat, stop: Stop)
    requires Terminated(m, input, text, outLen, stop)
    ensures input + |text| < |m| && m[input + |text|] == NUL
    ensures forall k | input <= k < input + |text| :: m[k] != NUL
  {
    TerminatedHolds(m, input, text, outLen, stop);
    TextEnds(m, input, text);
  }

  /** How a run ended: with a result; with the write cursor below the output buffer, or a character to copy
      that runs past the terminator, beyond which nothing is modelled; or in a state that repeats for ever. */
  datatype Ending = Returned(result: Result) | LeftBuffer | LeftText | Repeats

  /** Ending, scan cursor and output buffer are those of the fold. */
  ghost predicate Agrees(
    outcome: Outcome, r: Ending, scanned: nat, m: seq<byte>, out: nat, outLen: nat, text: seq<byte>)
  {
    match outcome
    case Invalid => r == Returned(InvalidPath)
    case Overflow(excess) => r == Returned(Err) && Spills(m, out + outLen, excess, text, scanned)
    case Astray => r == LeftBuffer
    case Truncated => r == LeftText
    case Stalled => r == Repeats
    case Normalized(path) =>
      && r == Returned(Ok) && |path| < outLen && out + |path| < |m|
      && m[out..out + |path|] == path && m[out + |path|] == NUL
      && scanned == |text| + (if EndsInRef(text, true) then 1 else 0)
  }

  lemma GoingUpAgrees(scanned: nat, m: seq<byte>, out: nat, outLen: nat, text: seq<byte>)
    ensures Agrees(Invalid, Returned(InvalidPath), scanned, m, out, outLen, text)
    ensures Agrees(Astray, LeftBuffer, scanned, m, out, outLen, text)
  {
  }

  lemma CopyingAgrees(scanned: nat, m: seq<byte>, out: nat, outLen: nat, text: seq<byte>)
    ensures Agrees(Truncated, LeftText, scanned, m, out, outLen, text)
    ensures Agrees(Stalled, Repeats, scanned, m, out, outLen, text)
    ensures forall excess: nat | Spills(m, out + outLen, excess, text, scanned) ::
              Agrees(Overflow(excess), Returned(Err), scanned, m, out, outLen, text)
  {
  }

  /** Fills the buffer at `out` with the normalized form of the string at `input`. The backward scan
      compares its cursor with `pathStart`: with `input` as the source is written, with `out` as it is meant. */
  method NormalizeFilepath(
    memory: array<byte>, out: nat, outLen: nat, input: nat, pathStart: nat, ghost text: seq<byte>)
    returns (r: Ending, ghost scanned: nat)
    requires 0 < out <= memory.Length && (pathStart == out || pathStart == input)
    requires Holds(memory[..], input, text)
    requires outLen > 0 && text != [] ==>
               var stop := Stop(pathStart - out, memory[out - 1]);
               && Terminated(memory[..], input, text, outLen, stop)
               && out + Room(text, outLen, stop) <= memory.Length
               && Apart(out, outLen, input, text, stop)
    modifies memory
    ensures outLen == 0 || text == [] ==> r == Returned(InvalidParameter) && memory[..] == old(memory[..])
    ensures outLen > 0 && text != [] ==>
              var outcome := Normalize(text, outLen, Stop(pathStart - out, old(memory[out - 1])));
              Agrees(outcome, r, scanned, memory[..], out, outLen, text)
    ensures outLen > 0 && text != [] ==>
              Framed(old(memory[..]), memory[..], out, Room(text, outLen, Stop(pathStart - out, old(memory[out - 1]))))
  {
    hide Reading, EndsInRef, Normalize, CopyReady, Framed, Apart, Boundary, Room, Scan, Retreat, Spills, Passes;
    hide Holds, Terminated, Agrees, CharLen;
    scanned := 0;
    TextEnds(memory[..], input, text);
    if outLen == 0 || memory[input] == NUL {
      return Returned(InvalidParameter), 0;
    }
    ghost var m0, stop := memory[..], Stop(pathStart - out, memory[out - 1]);
    ghost var room := Room(text, outLen, stop);
    var write, scan := out, input;
    ReadingStart(text, outLen, stop);
    assert memory[out..out] == [];
    FrameStarts(m0, out, room);

    while memory[scan] != NUL
      invariant input <= scan <= input + |text| + 1 && scan < memory.Length
      invariant scan > input + |text| ==> memory[scan] == NUL
      invariant out <= write < out + outLen
      invariant Reading(text, scan - input, memory[out..write], outLen, stop)
      invariant Terminated(memory[..], input, text, outLen, stop)
      invariant Framed(m0, memory[..], out, room) && memory[out - 1] == stop.before
      decreases memory.Length - scan
    {
      TerminatedEnds(memory[..], input, text, outLen, stop);
      ghost var before, writeBefore, scanBefore := memory[..], write, scan;
      var step;
      step, write, scan := Advance(memory, out, outLen, write, input, scan, pathStart, text, stop);
      GoingUpAgrees(scan - input, memory[..], out, outLen, text);
      if step == Reject {
        return Returned(InvalidPath), scan - input;
      }
      if step == Stray {
        return LeftBuffer, scan - input;
      }
      if step == Copy {
        var offset, end := CopyNext(memory, out, outLen, write, input, scan, text, stop, m0);
        if end == Some(Repeats) {
          assert memory[..] == before && write == writeBefore && scan == scanBefore;
        }
        write := write + offset;
        scan := scan + offset;
        if end.Some? {
          return end.value, scan - input;
        }
      }
    }
    TerminatedEnds(memory[..], input, text, outLen, stop);
    ReadingEnd(text, scan - input, memory[out..write], outLen, stop);
    Terminate(memory, out, outLen, write, text, stop, m0, scan - input);
    return Returned(Ok), scan - input;
  }

  /** Writes the terminator behind the output. */
  method Terminate(
    memory: array<byte>, ghost out: nat, ghost outLen: nat, write: nat, ghost text: seq<byte>, ghost stop: Stop,
    ghost m0: seq<byte>, ghost scanned: nat)
    requires out <= write < memory.Length && write < out + outLen
    requires Framed(m0, memory[..], out, Room(text, outLen, stop))
    requires scanned == |text| + if EndsInRef(text, true) then 1 else 0
    modifies memory
    ensures Agrees(Normalized(old(memory[out..write])), Returned(Ok), scanned, memory[..], out, outLen, text)
    ensures Framed(m0, memory[..], out, Room(text, outLen, stop))
  {
    hide Normalize;
    ghost var path := memory[out..write];
    memory[write] := NUL;
    assert memory[..][out..out + |path|] == path;
  }

  /** How the byte under the scan cursor is handled: `Copy` the character there, `Continue` with what
      follows a reference, `Reject` the path, or `Stray` below the output. */
  datatype Step = Copy | Continue | Reject | Stray

  /** The character at `scan` is next to be copied to `write`: then the pass goes on or overflows, unless there
      is no such character. */
  ghost predicate CopyReady(
    m: seq<byte>, out: nat, write: nat, input: nat, scan: nat, text: seq<byte>, outLen: nat, stop: Stop)
  {
    && out <= write <= |m| && input <= scan < input + |text| <= |m|
    && var n := CharLen(m[scan]);
    if n == 0 then Normalize(text, outLen, stop) == Stalled
    else if scan + n > input + |text| then Normalize(text, outLen, stop) == Truncated
    else if write - out + n >= outLen then Normalize(text, outLen, stop) == Overflow(write - out + n - outLen)
    else Reading(text, scan + n - input, m[out..write] + m[scan..scan + n], outLen, stop)
  }

  /** One of the n bytes from `at` on is a terminator. */
  predicate TerminatorWithin(m: seq<byte>, at: nat, n: nat)
    decreases n
  {
    n > 0 && at < |m| && (m[at] == NUL || TerminatorWithin(m, at + 1, n - 1))
  }

  lemma {:induction false} TerminatorIsAtEnd(m: seq<byte>, input: nat, text: seq<byte>, at: nat, n: nat)
    requires Holds(m, input, text) && input <= at <= input + |text|
    ensures TerminatorWithin(m, at, n) <==> at + n > input + |text|
    decreases n
  {
    TextBytes(m, input, text);
    if n > 0 && at < input + |text| {
      TerminatorIsAtEnd(m, input, text, at + 1, n - 1);
    }
  }

  /** A character with a terminator among its bytes runs past the text. */
  lemma PastText(
    m: seq<byte>, out: nat, outLen: nat, write: nat, input: nat, scan: nat, text: seq<byte>, stop: Stop)
    requires Terminated(m, input, text, outLen, stop) && CopyReady(m, out, write, input, scan, text, outLen, stop)
    ensures scan < |m|
    ensures if TerminatorWithin(m, scan, CharLen(m[scan])) then Normalize(text, outLen, stop) == Truncated
            else scan + CharLen(m[scan]) <= input + |text|
  {
    hide Normalize, Reading, CharLen;
    TerminatorIsAtEnd(m, input, text, scan, CharLen(m[scan]));
  }

  lemma CharReady(
    m: seq<byte>, out: nat, write: nat, input: nat, scan: nat, text: seq<byte>, outLen: nat, stop: Stop)
    requires Holds(m, input, text) && out <= write <= |m| && input <= scan < input + |text|
    requires Reading(text, scan - input, m[out..write], outLen, stop)
    requires m[scan] != SEPARATOR
    requires Boundary(text, scan - input) ==>
               !IsRelativeRef(Drop(text, scan - input)) && !IsParentRef(Drop(text, scan - input))
    ensures CopyReady(m, out, write, input, scan, text, outLen, stop)
  {
    hide Reading, EndsInRef, Normalize, CharLen, Boundary, IsRelativeRef, IsParentRef;
    TextBytes(m, input, text);
    ReadChar(text, scan - input, m[out..write], outLen, stop);
    var n := CharLen(m[scan]);
    assert scan + n <= input + |text| ==> m[scan..scan + n] == text[scan - input..scan - input + n];
  }

  lemma SeparatorReady(
    m: seq<byte>, out: nat, write: nat, input: nat, first: nat, scan: nat, text: seq<byte>, outLen: nat, stop: Stop)
    requires Holds(m, input, text) && out <= write <= |m| && input <= first <= scan < input + |text|
    requires Reading(text, first - input, m[out..write], outLen, stop)
    requires m[first] == SEPARATOR && m[scan] == SEPARATOR
    requires SkipSeparators(text[first - input + 1..]) == text[scan - input + 1..]
    ensures CopyReady(m, out, write, input, scan, text, outLen, stop)
  {
    hide Reading, EndsInRef, Normalize;
    TextBytes(m, input, text);
    ReadSeparators(text, first - input, scan - input, m[out..write], outLen, stop);
    assert m[scan..scan + 1] == [SEPARATOR];
  }

  /** Moves the cursors up to the next character to copy, or past a reference. */
  method Advance(
    memory: array<byte>, out: nat, ghost outLen: nat, writeAt: nat, input: nat, scanAt: nat, pathStart: nat,
    ghost text: seq<byte>, ghost stop: Stop)
    returns (step: Step, write: nat, scan: nat)
    requires 0 < out <= writeAt < memory.Length && writeAt < out + outLen
    requires stop == Stop(pathStart - out, memory[out - 1])
    requires Terminated(memory[..], input, text, outLen, stop)
    requires input <= scanAt < input + |text|
    requires Reading(text, scanAt - input, memory[out..writeAt], outLen, stop)
    ensures input <= scan
    ensures step == Reject ==> Normalize(text, outLen, stop) == Invalid
    ensures step == Stray ==> Normalize(text, outLen, stop) == Astray
    ensures step == Continue ==>
              && scanAt < scan <= input + |text| + 1 && scan < memory.Length && out <= write <= writeAt
              && (scan > input + |text| ==> memory[scan] == NUL)
              && Reading(text, scan - input, memory[out..write], outLen, stop)
    ensures step == Copy ==>
              && write == writeAt && scanAt <= scan < memory.Length
              && (scanAt < scan ==> memory[scan] == SEPARATOR)
              && CopyReady(memory[..], out, write, input, scan, text, outLen, stop)
  {
    hide Reading, EndsInRef, Normalize, Boundary, IsRelativeRef, IsParentRef, FoundRelativeRef, FoundParentRef;
    hide CopyReady;
    TextBytes(memory[..], input, text);
    write, scan := writeAt, scanAt;
    if memory[scan] == SEPARATOR {
      scan := LastOfRun(memory, input, scan, text);
      SeparatorReady(memory[..], out, write, input, scanAt, scan, text, outLen, stop);
      return Copy, write, scan;
    }
    if memory[scan] == DOT {
      RefsAgree(memory[..], input, text, scan - input);
      if FoundRelativeRef(memory[..], input, scan) {
        ReadRelativeRef(text, scan - input, memory[out..write], outLen, stop);
        return Continue, write, scan + 2;
      }
      if FoundParentRef(memory[..], input, scan) {
        step, write := GoUp(memory, out, outLen, write, input, scan, pathStart, text, stop);
        return step, write, scan + 3;
      }
    }
    RefsStartWithDot(Drop(text, scan - input));
    CharReady(memory[..], out, write, input, scan, text, outLen, stop);
    return Copy, write, scan;
  }

  /** `../`: an error at the top, else the last segment is removed. */
  method GoUp(
    memory: array<byte>, out: nat, ghost outLen: nat, writeAt: nat, ghost input: nat, ghost scan: nat,
    pathStart: nat, ghost text: seq<byte>, ghost stop: Stop)
    returns (step: Step, write: nat)
    requires 0 < out <= writeAt < memory.Length && stop == Stop(pathStart - out, memory[out - 1])
    requires input <= scan && Reading(text, scan - input, memory[out..writeAt], outLen, stop)
    requires Boundary(text, scan - input) && IsParentRef(Drop(text, scan - input))
    ensures step in {Continue, Reject, Stray}
    ensures step == Reject ==> Normalize(text, outLen, stop) == Invalid
    ensures step == Stray ==> Normalize(text, outLen, stop) == Astray
    ensures step == Continue ==>
              && out <= write <= writeAt && scan + 3 <= input + |text| + 1
              && Reading(text, scan + 3 - input, memory[out..write], outLen, stop)
              && (scan + 3 > input + |text| ==> Passes(text, outLen, stop))
  {
    hide Reading, EndsInRef, Normalize, Passes, Retreat, Boundary;
    ghost var written := memory[out..writeAt];
    if writeAt == out || writeAt - 1 == out {
      ReadTopParentRef(text, scan - input, written, outLen, stop);
      return Reject, writeAt;
    }
    ReadParentRef(text, scan - input, written, outLen, stop);
    assert written[..|written| - 1] == memory[out..writeAt - 1];
    var inside;
    inside, write := RemoveSegment(memory, out, writeAt, pathStart);
    return if inside then Continue else Stray, write;
  }

  lemma CopiedStays(m0: seq<byte>, m: seq<byte>, input: nat, scan: nat, n: nat, text: seq<byte>)
    requires Holds(m0, input, text) && Holds(m, input, text) && input <= scan && scan + n <= input + |text|
    ensures m[scan..scan + n] == m0[scan..scan + n] == text[scan - input..scan - input + n]
  {
    TextBytes(m0, input, text);
    TextBytes(m, input, text);
  }

  lemma SpilledBytes(
    m: seq<byte>, out: nat, outLen: nat, write: nat, input: nat, scan: nat, offset: nat, text: seq<byte>)
    requires Holds(m, input, text) && input + offset <= scan <= input + |text|
    requires out + outLen <= write <= |m| && write - offset <= out + outLen && offset <= write
    requires m[write - offset..write] == m[scan - offset..scan]
    ensures Spills(m, out + outLen, write - out - outLen, text, scan - input)
  {
    CopiedStays(m, m, input, scan - offset, offset, text);
    var excess := write - out - outLen;
    assert m[out + outLen..write] == m[write - offset..write][offset - excess..];
    assert text[scan - input - excess..scan - input] == text[scan - offset - input..scan - input][offset - excess..];
  }

  /** The copy stays within the room and clear of the character that it reads. */
  lemma CopyHasRoom(
    m: seq<byte>, out: nat, write: nat, input: nat, scan: nat, text: seq<byte>, outLen: nat, stop: Stop)
    requires Terminated(m, input, text, outLen, stop) && Apart(out, outLen, input, text, stop)
    requires write < out + outLen && CopyReady(m, out, write, input, scan, text, outLen, stop)
    requires scan + CharLen(m[scan]) <= input + |text|
    ensures out <= write && input <= scan
    ensures var n := CharLen(m[scan]);
            && scan + n <= input + |text| < |m| && write + n <= out + Room(text, outLen, stop)
            && (write + n <= scan || scan + n <= write)
  {
    hide EndsInRef, Normalize, Reading, CharLen, Passes;
  }

  /** Memory with the character at `scan` copied to `write`. */
  ghost predicate Copied(before: seq<byte>, m: seq<byte>, write: nat, scan: nat, n: nat) {
    && |m| == |before| && write + n <= |m| && scan + n <= |m|
    && m[write..write + n] == before[scan..scan + n]
    && forall k | 0 <= k < |m| && !(write <= k < write + n) :: m[k] == before[k]
  }

  lemma CopyFramed(m0: seq<byte>, before: seq<byte>, m: seq<byte>, out: nat, room: nat, write: nat, scan: nat, n: nat)
    requires Framed(m0, before, out, room) && Copied(before, m, write, scan, n)
    requires out <= write && write + n <= out + room
    ensures Framed(m0, m, out, room) && Framed(before, m, out, room)
  {
  }

  lemma CopyExtends(before: seq<byte>, m: seq<byte>, out: nat, write: nat, scan: nat, n: nat)
    requires Copied(before, m, write, scan, n) && out <= write
    ensures m[out..write + n] == before[out..write] + before[scan..scan + n]
    ensures write + n <= scan || scan + n <= write ==> m[scan..scan + n] == m[write..write + n]
  {
    assert m[out..write] == before[out..write];
    assert m[out..write + n] == m[out..write] + m[write..write + n];
  }

  lemma CharCopied(
    m0: seq<byte>, before: seq<byte>, m: seq<byte>, out: nat, outLen: nat, write: nat, input: nat, scan: nat,
    text: seq<byte>, stop: Stop)
    requires Terminated(before, input, text, outLen, stop) && Apart(out, outLen, input, text, stop)
    requires 0 < out <= write < out + outLen && input <= scan < |before|
    requires CopyReady(before, out, write, input, scan, text, outLen, stop)
    requires Framed(m0, before, out, Room(text, outLen, stop))
    requires Copied(before, m, write, scan, CharLen(before[scan]))
    requires 0 < CharLen(before[scan]) && scan + CharLen(before[scan]) <= input + |text|
    ensures var end, next := write + CharLen(before[scan]), scan + CharLen(before[scan]);
            && end <= |m|
            && (end >= out + outLen ==>
                  && Normalize(text, outLen, stop) == Overflow(end - out - outLen)
                  && Spills(m, out + outLen, end - out - outLen, text, next - input))
            && (end < out + outLen ==> Reading(text, next - input, m[out..end], outLen, stop))
    ensures Terminated(m, input, text, outLen, stop) && Framed(m0, m, out, Room(text, outLen, stop))
  {
    hide EndsInRef, Normalize, Reading, CharLen, Spills, Passes, Room, Apart, Framed, Terminated;
    var n := CharLen(before[scan]);
    CopyHasRoom(before, out, write, input, scan, text, outLen, stop);
    CopyFramed(m0, before, m, out, Room(text, outLen, stop), write, scan, n);
    CopyExtends(before, m, out, write, scan, n);
    FrameKeepsInput(before, m, out, outLen, input, text, stop);
    if write + n >= out + outLen {
      TerminatedHolds(m, input, text, outLen, stop);
      SpilledBytes(m, out, outLen, write + n, input, scan + n, n, text);
    }
  }

  lemma ReadyStalls(
    m: seq<byte>, out: nat, write: nat, input: nat, scan: nat, text: seq<byte>, outLen: nat, stop: Stop)
    requires CopyReady(m, out, write, input, scan, text, outLen, stop) && CharLen(m[scan]) == 0
    ensures Normalize(text, outLen, stop) == Stalled
  {
  }

  /** Copies one character; only the copy that overflows leaves the first `outLen` bytes. */
  method CopyChar(
    memory: array<byte>, out: nat, ghost outLen: nat, write: nat, ghost input: nat, scan: nat,
    ghost text: seq<byte>, ghost stop: Stop, ghost m0: seq<byte>)
    returns (offset: nat)
    requires Terminated(memory[..], input, text, outLen, stop) && Apart(out, outLen, input, text, stop)
    requires 0 < out <= write < out + outLen && out + Room(text, outLen, stop) <= memory.Length
    requires CopyReady(memory[..], out, write, input, scan, text, outLen, stop)
    requires scan < memory.Length && scan + CharLen(memory[scan]) <= input + |text|
    requires Framed(m0, memory[..], out, Room(text, outLen, stop))
    modifies memory
    ensures offset == CharLen(old(memory[scan])) && memory[out - 1] == old(memory[out - 1])
    ensures offset == 0 ==> memory[..] == old(memory[..]) && Normalize(text, outLen, stop) == Stalled
    ensures write + offset <= memory.Length && scan + offset <= input + |text|
    ensures write + offset >= out + outLen ==>
              var excess := write + offset - out - outLen;
              && Normalize(text, outLen, stop) == Overflow(excess)
              && Spills(memory[..], out + outLen, excess, text, scan + offset - input)
    ensures offset > 0 && write + offset < out + outLen ==>
              Reading(text, scan + offset - input, memory[out..write + offset], outLen, stop)
    ensures Terminated(memory[..], input, text, outLen, stop)
    ensures Framed(m0, memory[..], out, Room(text, outLen, stop))
  {
    hide EndsInRef, Normalize, Reading, CharLen, Spills, Passes, Room, Apart, Framed, Terminated, CopyReady;
    ghost var before := memory[..];
    CopyHasRoom(before, out, write, input, scan, text, outLen, stop);
    offset := WriteChar(memory, write, scan);
    if offset == 0 {
      ReadyStalls(before, out, write, input, scan, text, outLen, stop);
      assert memory[..] == before;
    } else {
      assert Copied(before, memory[..], write, scan, offset);
      hide Copied;
      CharCopied(m0, before, memory[..], out, outLen, write, input, scan, text, stop);
    }
  }

  /** Copies the character at `scan`, unless it runs past the text, and tells whether that ends the run. */
  method CopyNext(
    memory: array<byte>, out: nat, outLen: nat, write: nat, ghost input: nat, scan: nat,
    ghost text: seq<byte>, ghost stop: Stop, ghost m0: seq<byte>)
    returns (offset: nat, end: Option<Ending>)
    requires Terminated(memory[..], input, text, outLen, stop) && Apart(out, outLen, input, text, stop)
    requires 0 < out <= write < out + outLen && out + Room(text, outLen, stop) <= memory.Length
    requires input <= scan < memory.Length
    requires CopyReady(memory[..], out, write, input, scan, text, outLen, stop)
    requires Framed(m0, memory[..], out, Room(text, outLen, stop))
    modifies memory
    ensures Framed(m0, memory[..], out, Room(text, outLen, stop))
    ensures end.Some? ==>
              Agrees(Normalize(text, outLen, stop), end.value, scan + offset - input, memory[..], out, outLen, text)
    ensures end == Some(Repeats) ==>
              offset == 0 && memory[..] == old(memory[..]) && memory[scan] != SEPARATOR
    ensures end.None? ==>
              && memory[out - 1] == old(memory[out - 1]) && Terminated(memory[..], input, text, outLen, stop)
              && offset > 0 && write + offset < out + outLen && scan + offset <= input + |text|
              && write + offset <= memory.Length
              && Reading(text, scan + offset - input, memory[out..write + offset], outLen, stop)
  {
    hide Reading, EndsInRef, Normalize, CopyReady, Framed, Apart, Room, Spills, Passes, Terminated, Agrees, CharLen;
    hide TerminatorWithin;
    SeparatorIsChar();
    PastText(memory[..], out, outLen, write, input, scan, text, stop);
    if TerminatorWithin(memory[..], scan, CharLen(memory[scan])) {
      CopyingAgrees(scan - input, memory[..], out, outLen, text);
      return 0, Some(LeftText);
    }
    offset := CopyChar(memory, out, outLen, write, input, scan, text, stop, m0);
    CopyingAgrees(scan + offset - input, memory[..], out, outLen, text);
    if offset == 0 {
      return offset, Some(Repeats);
    }
    if write + offset - out >= outLen {
      return offset, Some(Returned(Err));
    }
    return offset, None;
  }

  /** Moves the scan cursor to the last separator of a run. */
  method LastOfRun(memory: array<byte>, ghost input: nat, first: nat, ghost text: seq<byte>) returns (scan: nat)
    requires Holds(memory[..], input, text) && input <= first < input + |text| && memory[first] == SEPARATOR
    ensures first <= scan < input + |text| && memory[scan] == SEPARATOR
    ensures SkipSeparators(text[first - input + 1..]) == text[scan - input + 1..]
  {
    TextBytes(memory[..], input, text);
    scan := first;
    while memory[scan + 1] == SEPARATOR
      invariant first <= scan < input + |text| && memory[scan] == SEPARATOR
      invariant SkipSeparators(text[first - input + 1..]) == SkipSeparators(text[scan - input + 1..])
      decreases memory.Length - scan
    {
      assert text[scan - input + 1..][1..] == text[scan - input + 2..];
      scan := scan + 1;
    }
  }

  /** Moves the write cursor back as the source does: past the closing separator, then until a separator
      stands in front of it or it has reached `pathStart`. Below the output the scan is not followed. */
  method RemoveSegment(memory: array<byte>, out: nat, end: nat, pathStart: nat) returns (inside: bool, write: nat)
    requires 0 < out && out + 1 < end <= memory.Length
    ensures out <= write <= end
    ensures Retreat(memory[out..end - 1], Stop(pathStart - out, memory[out - 1]))
         == if inside then Some(memory[out..write]) else None
  {
    write := end - 1;
    ghost var stop := Stop(pathStart - out, memory[out - 1]);
    while memory[write - 1] != SEPARATOR && write > pathStart
      invariant out <= write < end
      decreases write
      invariant Retreat(memory[out..end - 1], stop) == Retreat(memory[out..write], stop)
    {
      if write == out {
        return false, write;
      }
      assert memory[out..write][..write - out - 1] == memory[out..write - 1];
      write := write - 1;
    }
    return true, write;
  }
}
