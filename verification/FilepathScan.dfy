/** What one pass of the path normalizer computes, as a fold over the bytes that are still unread. */
module FilepathScan {
  import opened Common
  import opened Encodings

  /** How a run ends. `Overflow` tells by how many bytes the last copy went past the capacity. A run is
      `Astray` when the backward scan leaves the output, `Stalled` when it copies from a byte that announces no
      character, and `Truncated` when it is to copy a character that runs past the end of the text. */
  datatype Outcome =
    | Normalized(path: seq<byte>)
    | Invalid
    | Overflow(excess: nat)
    | Astray
    | Stalled
    | Truncated

  /** Where the backward scan stops besides at separators: `limit` bytes behind the start of the output.
      `before` is the byte in front of the output. */
  datatype Stop = Stop(limit: int, before: byte)

  /** Where the backward scan always stops at the start of a segment: as it is meant, or below a separator. */
  predicate Faithful(stop: Stop) {
    stop.limit == 0 || (stop.limit < 0 && stop.before == SEPARATOR)
  }

  function SkipSeparators(s: seq<byte>): (r: seq<byte>)
    ensures |r| <= |s|
    ensures r != [] ==> r[0] != SEPARATOR
  {
    if s != [] && s[0] == SEPARATOR then SkipSeparators(s[1..]) else s
  }

  predicate IsRelativeRef(s: seq<byte>) {
    s != [] && s[0] == DOT && (|s| == 1 || s[1] == SEPARATOR)
  }

  predicate IsParentRef(s: seq<byte>) {
    |s| >= 2 && s[0] == DOT && s[1] == DOT && (|s| == 2 || s[2] == SEPARATOR)
  }

  function Drop(s: seq<byte>, n: nat): seq<byte> {
    if n <= |s| then s[n..] else []
  }

  /** The backward scan, from the end of `written` on. */
  function Retreat(written: seq<byte>, stop: Stop): (r: Option<seq<byte>>)
    ensures r.Some? ==> |r.value| <= |written|
  {
    var last := if written == [] then stop.before else written[|written| - 1];
    if last != SEPARATOR && |written| > stop.limit then
      if written == [] then None else Retreat(written[..|written| - 1], stop)
    else
      Some(written)
  }

  /** `s` is unread, `written` is the output so far; `boundary` says that a component starts here. */
  function Scan(s: seq<byte>, boundary: bool, written: seq<byte>, capacity: nat, stop: Stop): Outcome
    decreases |s|
  {
    if s == [] then
      Normalized(written)
    else if s[0] == SEPARATOR then
      if |written| + 1 >= capacity then Overflow(|written| + 1 - capacity)
      else Scan(SkipSeparators(s[1..]), true, written + [SEPARATOR], capacity, stop)
    else if boundary && IsRelativeRef(s) then
      Scan(Drop(s, 2), true, written, capacity, stop)
    else if boundary && IsParentRef(s) then
      if |written| <= 1 then Invalid
      else
        match Retreat(written[..|written| - 1], stop)
        case None => Astray
        case Some(rest) => Scan(Drop(s, 3), true, rest, capacity, stop)
    else
      var n := CharLen(s[0]);
      if n == 0 then Stalled
      else if n > |s| then Truncated
      else if |written| + n >= capacity then Overflow(|written| + n - capacity)
      else Scan(s[n..], s[n - 1] == SEPARATOR, written + s[..n], capacity, stop)
  }

  function Normalize(path: seq<byte>, capacity: nat, stop: Stop): Outcome {
    Scan(path, true, [], capacity, stop)
  }

  /** The scan cursor ends behind the terminator: the text ends in a reference. */
  ghost predicate EndsInRef(s: seq<byte>, boundary: bool)
    decreases |s|
  {
    if s == [] then false
    else if s[0] == SEPARATOR then EndsInRef(SkipSeparators(s[1..]), true)
    else if boundary && IsRelativeRef(s) then |s| == 1 || EndsInRef(Drop(s, 2), true)
    else if boundary && IsParentRef(s) then |s| == 2 || EndsInRef(Drop(s, 3), true)
    else
      var n := CharLen(s[0]);
      1 <= n <= |s| && EndsInRef(s[n..], s[n - 1] == SEPARATOR)
  }

  // Which text can be read.

  /** What reading a text character by character comes to: its end, a byte that announces no character, or a
      character that is not there in full. Nothing is asked of the bytes behind a lead byte. */
  datatype TextEnd = Complete | Stall | Cut

  function EndOfText(s: seq<byte>): TextEnd
    decreases |s|
  {
    if s == [] then Complete
    else
      var n := CharLen(s[0]);
      if n == 0 then Stall else if n > |s| then Cut else EndOfText(s[n..])
  }

  predicate Readable(s: seq<byte>) {
    EndOfText(s) == Complete
  }

  lemma {:induction false} SkipKeepsEnd(s: seq<byte>)
    ensures EndOfText(SkipSeparators(s)) == EndOfText(s)
    decreases |s|
  {
    if s != [] && s[0] == SEPARATOR {
      SkipKeepsEnd(s[1..]);
    }
  }

  lemma {:induction false} DropKeepsEnd(s: seq<byte>, n: nat)
    requires forall i | 0 <= i < n && i < |s| :: s[i] < 0x80
    ensures EndOfText(Drop(s, n)) == EndOfText(s)
    decreases n
  {
    if n > 0 && s != [] {
      DropKeepsEnd(s[1..], n - 1);
      assert Drop(s[1..], n - 1) == Drop(s, n);
    }
  }

  function EndOf(r: Outcome): Option<TextEnd> {
    match r
    case Normalized(_) => Some(Complete)
    case Stalled => Some(Stall)
    case Truncated => Some(Cut)
    case _ => None
  }

  lemma {:induction false} ScanEnds(s: seq<byte>, boundary: bool, written: seq<byte>, capacity: nat, stop: Stop)
    ensures var r := Scan(s, boundary, written, capacity, stop); EndOf(r) in {None, Some(EndOfText(s))}
    decreases |s|
  {
    if s == [] {
    } else if s[0] == SEPARATOR {
      SkipKeepsEnd(s[1..]);
      ScanEnds(SkipSeparators(s[1..]), true, written + [SEPARATOR], capacity, stop);
    } else if boundary && IsRelativeRef(s) {
      DropKeepsEnd(s, 2);
      ScanEnds(Drop(s, 2), true, written, capacity, stop);
    } else if boundary && IsParentRef(s) {
      DropKeepsEnd(s, 3);
      if |written| > 1 && Retreat(written[..|written| - 1], stop).Some? {
        ScanEnds(Drop(s, 3), true, Retreat(written[..|written| - 1], stop).value, capacity, stop);
      }
    } else {
      var n := CharLen(s[0]);
      if 1 <= n <= |s| {
        ScanEnds(s[n..], s[n - 1] == SEPARATOR, written + s[..n], capacity, stop);
      }
    }
  }

  /** A run that is neither rejected, nor overflows, nor leaves its output, ends as reading the text does:
      for every capacity and every limit. */
  lemma EndsAsTextDoes(path: seq<byte>, capacity: nat, stop: Stop)
    requires var r := Normalize(path, capacity, stop); r != Invalid && !r.Overflow? && r != Astray
    ensures Normalize(path, capacity, stop).Normalized? <==> Readable(path)
    ensures Normalize(path, capacity, stop) == Stalled <==> EndOfText(path) == Stall
    ensures Normalize(path, capacity, stop) == Truncated <==> EndOfText(path) == Cut
  {
    ScanEnds(path, true, [], capacity, stop);
  }

  /** Position k is where a character would start, and reading ends there. */
  ghost predicate StallsAt(s: seq<byte>, k: nat) {
    k < |s| && Readable(s[..k]) && (IsTail(s[k]) || s[k] >= 0xF8)
  }

  ghost predicate CutAt(s: seq<byte>, k: nat) {
    k < |s| && Readable(s[..k]) && CharLen(s[k]) > |s| - k
  }

  /** Reading goes on behind the first character. */
  lemma ReadableFrom(s: seq<byte>, k: nat)
    requires s != [] && 1 <= CharLen(s[0]) <= |s| && k <= |s|
    ensures Readable(s[..k]) <==> k == 0 || (k >= CharLen(s[0]) && Readable(s[CharLen(s[0])..][..k - CharLen(s[0])]))
  {
    var n := CharLen(s[0]);
    if k >= n {
      assert s[..k][n..] == s[n..][..k - n];
    }
  }

  lemma FirstCharEnds(s: seq<byte>)
    requires s != [] && (CharLen(s[0]) == 0 || CharLen(s[0]) > |s|)
    ensures EndOfText(s) == Stall <==> exists k: nat :: StallsAt(s, k)
    ensures EndOfText(s) == Cut <==> exists k: nat :: CutAt(s, k)
  {
    CharLenByRange(s[0]);
    var none := s[..0];
    assert Readable(none);
    assert StallsAt(s, 0) <==> CharLen(s[0]) == 0;
    assert CutAt(s, 0) <==> CharLen(s[0]) > |s|;
    forall k: nat | k < |s| && Readable(s[..k]) ensures k == 0 {
    }
  }

  lemma LaterPositions(s: seq<byte>, k: nat)
    requires s != [] && 1 <= CharLen(s[0]) <= |s|
    ensures var n := CharLen(s[0]);
            if k < n then !StallsAt(s, k) && !CutAt(s, k)
            else StallsAt(s, k) == StallsAt(s[n..], k - n) && CutAt(s, k) == CutAt(s[n..], k - n)
  {
    CharLenByRange(s[0]);
    if k < |s| {
      ReadableFrom(s, k);
    }
  }

  /** Text stalls exactly at a continuation byte, or a byte from 0xF8 on, where a character would start, and is
      cut exactly at a lead byte there that announces more bytes than are left. */
  lemma {:induction false} StallsIff(s: seq<byte>)
    ensures EndOfText(s) == Stall <==> exists k: nat :: StallsAt(s, k)
    ensures EndOfText(s) == Cut <==> exists k: nat :: CutAt(s, k)
    decreases |s|
  {
    hide CharLen, StallsAt, CutAt;
    if s == [] {
      NothingStalls(s);
    } else if CharLen(s[0]) == 0 || CharLen(s[0]) > |s| {
      FirstCharEnds(s);
    } else {
      var n := CharLen(s[0]);
      var rest := s[n..];
      StallsIff(rest);
      forall k: nat ensures k < n ==> !StallsAt(s, k) && !CutAt(s, k) {
        LaterPositions(s, k);
      }
      forall k: nat ensures StallsAt(s, n + k) == StallsAt(rest, k) && CutAt(s, n + k) == CutAt(rest, k) {
        LaterPositions(s, n + k);
      }
      forall k: nat | k >= n
        ensures StallsAt(s, k) ==> StallsAt(rest, k - n)
        ensures CutAt(s, k) ==> CutAt(rest, k - n)
      {
        LaterPositions(s, k);
      }
    }
  }

  lemma NothingStalls(s: seq<byte>)
    requires s == []
    ensures forall k: nat :: !StallsAt(s, k) && !CutAt(s, k)
  {
  }

  /** The shortest text that stalls. */
  lemma ContinuationByteStalls(capacity: nat, stop: Stop)
    ensures Normalize([0x80], capacity, stop) == Stalled
  {
  }

  /** The shortest text that is cut: a lead byte by itself. */
  lemma LeadByteIsCut(capacity: nat, stop: Stop)
    ensures Normalize([0xC3], capacity, stop) == Truncated
  {
  }

  // Capacity.

  /** The output never outgrows what was read: a buffer larger than the input is enough. */
  lemma {:induction false} ScanFits(s: seq<byte>, boundary: bool, written: seq<byte>, capacity: nat, stop: Stop)
    requires |written| + |s| < capacity
    ensures var r := Scan(s, boundary, written, capacity, stop);
            !r.Overflow? && (r.Normalized? ==> |r.path| <= |written| + |s|)
    decreases |s|
  {
    if s == [] {
    } else if s[0] == SEPARATOR {
      ScanFits(SkipSeparators(s[1..]), true, written + [SEPARATOR], capacity, stop);
    } else if boundary && IsRelativeRef(s) {
      ScanFits(Drop(s, 2), true, written, capacity, stop);
    } else if boundary && IsParentRef(s) {
      if |written| > 1 && Retreat(written[..|written| - 1], stop).Some? {
        ScanFits(Drop(s, 3), true, Retreat(written[..|written| - 1], stop).value, capacity, stop);
      }
    } else {
      var n := CharLen(s[0]);
      if 1 <= n <= |s| {
        ScanFits(s[n..], s[n - 1] == SEPARATOR, written + s[..n], capacity, stop);
      }
    }
  }

  /** A smaller buffer can only replace an outcome by an overflow, and never yields a longer path than fits. */
  lemma {:induction false} ScanCapacity(
    s: seq<byte>, boundary: bool, written: seq<byte>, capacity: nat, larger: nat, stop: Stop)
    requires |written| < capacity <= larger
    ensures var r := Scan(s, boundary, written, capacity, stop);
            && (r.Overflow? || r == Scan(s, boundary, written, larger, stop))
            && (r.Normalized? ==> |r.path| < capacity)
    decreases |s|
  {
    if s == [] {
    } else if s[0] == SEPARATOR {
      if |written| + 1 < capacity {
        ScanCapacity(SkipSeparators(s[1..]), true, written + [SEPARATOR], capacity, larger, stop);
      }
    } else if boundary && IsRelativeRef(s) {
      ScanCapacity(Drop(s, 2), true, written, capacity, larger, stop);
    } else if boundary && IsParentRef(s) {
      if |written| > 1 && Retreat(written[..|written| - 1], stop).Some? {
        ScanCapacity(Drop(s, 3), true, Retreat(written[..|written| - 1], stop).value, capacity, larger, stop);
      }
    } else {
      var n := CharLen(s[0]);
      if 1 <= n <= |s| && |written| + n < capacity {
        ScanCapacity(s[n..], s[n - 1] == SEPARATOR, written + s[..n], capacity, larger, stop);
      }
    }
  }

  lemma NormalizeFits(path: seq<byte>, capacity: nat, stop: Stop)
    requires |path| < capacity
    ensures !Normalize(path, capacity, stop).Overflow?
    ensures Normalize(path, capacity, stop).Normalized? ==> |Normalize(path, capacity, stop).path| <= |path|
  {
    ScanFits(path, true, [], capacity, stop);
  }

  lemma NormalizeCapacity(path: seq<byte>, capacity: nat, larger: nat, stop: Stop)
    requires 0 < capacity <= larger
    ensures var r := Normalize(path, capacity, stop); r.Overflow? || r == Normalize(path, larger, stop)
    ensures Normalize(path, capacity, stop).Normalized? ==> |Normalize(path, capacity, stop).path| < capacity
  {
    ScanCapacity(path, true, [], capacity, larger, stop);
  }

  /** The copy that overflows goes past the capacity by at most three bytes, and by none for ASCII text. */
  lemma {:induction false} ScanExcess(s: seq<byte>, boundary: bool, written: seq<byte>, capacity: nat, stop: Stop)
    requires |written| < capacity
    ensures var r := Scan(s, boundary, written, capacity, stop);
            r.Overflow? ==> r.excess <= 3 && (Ascii(s) ==> r.excess == 0)
    decreases |s|
  {
    if s == [] {
    } else if s[0] == SEPARATOR {
      if |written| + 1 < capacity {
        SkipKeepsAscii(s[1..]);
        ScanExcess(SkipSeparators(s[1..]), true, written + [SEPARATOR], capacity, stop);
      }
    } else if boundary && IsRelativeRef(s) {
      ScanExcess(Drop(s, 2), true, written, capacity, stop);
    } else if boundary && IsParentRef(s) {
      if |written| > 1 && Retreat(written[..|written| - 1], stop).Some? {
        ScanExcess(Drop(s, 3), true, Retreat(written[..|written| - 1], stop).value, capacity, stop);
      }
    } else {
      var n := CharLen(s[0]);
      if 1 <= n <= |s| && |written| + n < capacity {
        ScanExcess(s[n..], s[n - 1] == SEPARATOR, written + s[..n], capacity, stop);
      }
    }
  }

  lemma {:induction false} SkipKeepsAscii(s: seq<byte>)
    ensures Ascii(s) ==> Ascii(SkipSeparators(s))
    decreases |s|
  {
    if s != [] && s[0] == SEPARATOR {
      SkipKeepsAscii(s[1..]);
    }
  }

  lemma NormalizeExcess(path: seq<byte>, capacity: nat, stop: Stop)
    requires capacity > 0 && Normalize(path, capacity, stop).Overflow?
    ensures Normalize(path, capacity, stop).excess <= 3
    ensures Ascii(path) ==> Normalize(path, capacity, stop).excess == 0
  {
    ScanExcess(path, true, [], capacity, stop);
  }

  function Max(a: nat, b: nat): nat {
    if a < b then b else a
  }

  /** Along the run that no capacity bounds, some copy makes the output longer by at least two bytes than it
      has ever been; `peak` is how long it has been. */
  ghost predicate Leaps(s: seq<byte>, boundary: bool, written: seq<byte>, peak: nat, stop: Stop)
    decreases |s|
  {
    if s == [] then false
    else if s[0] == SEPARATOR then
      Leaps(SkipSeparators(s[1..]), true, written + [SEPARATOR], Max(peak, |written| + 1), stop)
    else if boundary && IsRelativeRef(s) then Leaps(Drop(s, 2), true, written, peak, stop)
    else if boundary && IsParentRef(s) then
      |written| > 1
      && var rest := Retreat(written[..|written| - 1], stop);
      rest.Some? && Leaps(Drop(s, 3), true, rest.value, peak, stop)
    else
      var n := CharLen(s[0]);
      && 1 <= n <= |s|
      && (|written| + n >= peak + 2
          || Leaps(s[n..], s[n - 1] == SEPARATOR, written + s[..n], Max(peak, |written| + n), stop))
  }

  /** A copy goes past that capacity by at least one byte. */
  predicate SpillsPast(s: seq<byte>, boundary: bool, written: seq<byte>, capacity: nat, stop: Stop) {
    var r := Scan(s, boundary, written, capacity, stop);
    r.Overflow? && r.excess > 0
  }

  lemma SpillsCopying(s: seq<byte>, boundary: bool, written: seq<byte>, capacity: nat, stop: Stop)
    requires s != [] && (s[0] == SEPARATOR || !(boundary && (IsRelativeRef(s) || IsParentRef(s))))
    ensures var n := CharLen(s[0]);
            SpillsPast(s, boundary, written, capacity, stop) <==>
            && 1 <= n <= |s|
            && if |written| + n >= capacity then |written| + n > capacity
               else if s[0] == SEPARATOR then
                 SpillsPast(SkipSeparators(s[1..]), true, written + [SEPARATOR], capacity, stop)
               else SpillsPast(s[n..], s[n - 1] == SEPARATOR, written + s[..n], capacity, stop)
  {
    hide Retreat, SkipSeparators;
  }

  lemma SpillsAtRef(s: seq<byte>, written: seq<byte>, capacity: nat, stop: Stop)
    requires s != [] && s[0] != SEPARATOR
    ensures IsRelativeRef(s) ==>
              SpillsPast(s, true, written, capacity, stop) == SpillsPast(Drop(s, 2), true, written, capacity, stop)
    ensures IsParentRef(s) && !IsRelativeRef(s) ==>
              (SpillsPast(s, true, written, capacity, stop) <==>
                 && |written| > 1
                 && var rest := Retreat(written[..|written| - 1], stop);
                 rest.Some? && SpillsPast(Drop(s, 3), true, rest.value, capacity, stop))
  {
    hide Retreat;
  }

  lemma {:induction false} SpillsIffLeaps(s: seq<byte>, boundary: bool, written: seq<byte>, peak: nat, stop: Stop)
    requires |written| <= peak
    ensures (exists capacity: nat :: capacity > peak && SpillsPast(s, boundary, written, capacity, stop)) <==>
            Leaps(s, boundary, written, peak, stop)
    decreases |s|, 1
  {
    hide Retreat, SpillsPast, CharLen, IsRelativeRef, IsParentRef;
    if s == [] {
      NothingSpills(boundary, written, stop);
    } else if s[0] != SEPARATOR && boundary && IsRelativeRef(s) {
      SpillsIffLeaps(Drop(s, 2), true, written, peak, stop);
      forall capacity: nat
        ensures SpillsPast(s, true, written, capacity, stop) == SpillsPast(Drop(s, 2), true, written, capacity, stop)
      {
        SpillsAtRef(s, written, capacity, stop);
      }
    } else if s[0] != SEPARATOR && boundary && IsParentRef(s) {
      forall capacity: nat | SpillsPast(s, true, written, capacity, stop)
        ensures |written| > 1 && Retreat(written[..|written| - 1], stop).Some?
      {
        SpillsAtRef(s, written, capacity, stop);
      }
      if |written| > 1 && Retreat(written[..|written| - 1], stop).Some? {
        var rest := Retreat(written[..|written| - 1], stop).value;
        SpillsIffLeaps(Drop(s, 3), true, rest, peak, stop);
        forall capacity: nat
          ensures SpillsPast(s, true, written, capacity, stop) == SpillsPast(Drop(s, 3), true, rest, capacity, stop)
        {
          SpillsAtRef(s, written, capacity, stop);
        }
      }
    } else {
      CopyingLeaps(s, boundary, written, peak, stop);
    }
  }

  lemma {:induction false} CopyingLeaps(s: seq<byte>, boundary: bool, written: seq<byte>, peak: nat, stop: Stop)
    requires |written| <= peak
    requires s != [] && (s[0] == SEPARATOR || !(boundary && (IsRelativeRef(s) || IsParentRef(s))))
    ensures (exists capacity: nat :: capacity > peak && SpillsPast(s, boundary, written, capacity, stop)) <==>
            Leaps(s, boundary, written, peak, stop)
    decreases |s|, 0
  {
    SeparatorIsChar();
    hide Retreat, SpillsPast, CharLen, IsRelativeRef, IsParentRef;
    var n := CharLen(s[0]);
    if !(1 <= n <= |s|) {
      forall capacity: nat ensures !SpillsPast(s, boundary, written, capacity, stop) {
        SpillsCopying(s, boundary, written, capacity, stop);
      }
    } else if |written| + n >= peak + 2 {
      SpillsCopying(s, boundary, written, peak + 1, stop);
    } else {
      var peak' := Max(peak, |written| + n);
      var rest, closed, written' :=
        if s[0] == SEPARATOR then SkipSeparators(s[1..]) else s[n..],
        s[0] == SEPARATOR || s[n - 1] == SEPARATOR,
        if s[0] == SEPARATOR then written + [SEPARATOR] else written + s[..n];
      SpillsIffLeaps(rest, closed, written', peak', stop);
      forall capacity: nat | capacity > peak
        ensures SpillsPast(s, boundary, written, capacity, stop) <==>
                capacity > peak' && SpillsPast(rest, closed, written', capacity, stop)
      {
        SpillsCopying(s, boundary, written, capacity, stop);
      }
    }
  }

  lemma NothingSpills(boundary: bool, written: seq<byte>, stop: Stop)
    ensures forall capacity: nat :: !SpillsPast([], boundary, written, capacity, stop)
  {
  }

  lemma SeparatorIsChar()
    ensures CharLen(SEPARATOR) == 1
  {
  }

  /** Every capacity is respected exactly if no copy leaps. */
  lemma NeverSpillsIff(path: seq<byte>, stop: Stop)
    ensures (forall capacity: nat :: capacity > 0 ==> !SpillsPast(path, true, [], capacity, stop)) <==>
            !Leaps(path, true, [], 0, stop)
  {
    SpillsIffLeaps(path, true, [], 0, stop);
  }

  /** One accented letter, a buffer of one byte: the copy comes before the test and goes one byte too far. */
  lemma OneLetterOverflows(stop: Stop)
    ensures WellFormed([0xC3, 0xA9]) && Normalize([0xC3, 0xA9], 1, stop) == Overflow(1)
  {
    WellFormedChar([0xC3, 0xA9]);
  }

  // Characters.

  /** A backward scan that goes to the start of the output or beyond cuts it behind a separator or there. */
  lemma {:induction false} RetreatKeepsCharacters(written: seq<byte>, tail: seq<byte>, stop: Stop)
    requires stop.limit <= 0 && WellFormed(written + tail)
    requires tail == [] || tail[0] != SEPARATOR
    ensures Retreat(written, stop).Some? ==> WellFormed(Retreat(written, stop).value)
    ensures Faithful(stop) ==> Retreat(written, stop).Some?
    decreases |written|
  {
    if written == [] {
      WellFormedEmpty();
    } else {
      var front, last := written[..|written| - 1], written[|written| - 1];
      assert written == front + [last];
      if last == SEPARATOR {
        WellFormedAround(front, SEPARATOR, tail);
        WellFormedChar([SEPARATOR]);
        WellFormedConcat(front, [SEPARATOR]);
      } else {
        assert front + ([last] + tail) == written + tail;
        RetreatKeepsCharacters(front, [last] + tail, stop);
      }
    }
  }

  lemma {:induction false} SkipKeepsCharacters(s: seq<byte>)
    requires WellFormed(s)
    ensures WellFormed(SkipSeparators(s))
    decreases |s|
  {
    if s != [] && s[0] == SEPARATOR {
      DropAscii(s, 1);
      SkipKeepsCharacters(s[1..]);
    }
  }

  /** Dropping ASCII bytes in front leaves whole characters. */
  lemma {:induction false} DropAscii(s: seq<byte>, n: nat)
    requires WellFormed(s)
    requires forall i | 0 <= i < n && i < |s| :: s[i] < 0x80
    ensures WellFormed(Drop(s, n))
    decreases n
  {
    WellFormedEmpty();
    if n > 0 && s != [] {
      var c, rest := WellFormedSplit(s);
      CharStopsBefore(c, 0);
      assert rest == s[1..];
      DropAscii(rest, n - 1);
      assert Drop(rest, n - 1) == Drop(s, n);
    }
  }

  /** From well-formed text and output the pass reaches well-formed text and output only. */
  lemma {:induction false} ScanKeepsCharacters(
    s: seq<byte>, boundary: bool, written: seq<byte>, capacity: nat, stop: Stop)
    requires stop.limit <= 0 && WellFormed(s) && WellFormed(written)
    ensures var r := Scan(s, boundary, written, capacity, stop);
            && r != Stalled && r != Truncated && (Faithful(stop) ==> r != Astray)
            && (r.Normalized? ==> WellFormed(r.path))
    decreases |s|
  {
    hide WellFormed;
    if s == [] {
    } else if s[0] == SEPARATOR {
      DropAscii(s, 1);
      SkipKeepsCharacters(s[1..]);
      WellFormedChar([SEPARATOR]);
      WellFormedConcat(written, [SEPARATOR]);
      ScanKeepsCharacters(SkipSeparators(s[1..]), true, written + [SEPARATOR], capacity, stop);
    } else if boundary && IsRelativeRef(s) {
      DropAscii(s, 2);
      ScanKeepsCharacters(Drop(s, 2), true, written, capacity, stop);
    } else if boundary && IsParentRef(s) {
      DropAscii(s, 3);
      if |written| > 1 {
        PopKeepsCharacters(written, stop);
        if Retreat(written[..|written| - 1], stop).None? {
          return;
        }
        ScanKeepsCharacters(Drop(s, 3), true, Retreat(written[..|written| - 1], stop).value, capacity, stop);
      }
    } else {
      var c, rest := WellFormedSplit(s);
      assert c == s[..|c|] && rest == s[|c|..];
      CharLenIsPositive(c);
      WellFormedChar(c);
      WellFormedConcat(written, c);
      ScanKeepsCharacters(rest, s[|c| - 1] == SEPARATOR, written + c, capacity, stop);
    }
  }

  lemma CharLenIsPositive(c: seq<byte>)
    requires IsChar(c)
    ensures |c| >= 1 && CharLen(c[0]) == |c|
  {
    CharLenOfChar(c);
  }

  lemma PopKeepsCharacters(written: seq<byte>, stop: Stop)
    requires stop.limit <= 0 && WellFormed(written) && |written| > 1
    ensures var rest := Retreat(written[..|written| - 1], stop);
            (rest.Some? ==> WellFormed(rest.value)) && (Faithful(stop) ==> rest.Some?)
  {
    var front, last := written[..|written| - 1], written[|written| - 1];
    assert written == front + [last];
    if last == SEPARATOR {
      assert front + [SEPARATOR] + [] == written;
      WellFormedAround(front, SEPARATOR, []);
      assert front + [] == front;
      RetreatKeepsCharacters(front, [], stop);
    } else {
      RetreatKeepsCharacters(front, [last], stop);
    }
  }

  /** With a limit at the start of the output or below it, well-formed text is never misread, and its
      normalized form is well-formed. */
  lemma NormalizeKeepsCharacters(path: seq<byte>, capacity: nat, stop: Stop)
    requires stop.limit <= 0 && WellFormed(path)
    ensures var r := Normalize(path, capacity, stop);
            && r != Stalled && r != Truncated && (Faithful(stop) ==> r != Astray)
            && (r.Normalized? ==> WellFormed(r.path))
  {
    WellFormedEmpty();
    ScanKeepsCharacters(path, true, [], capacity, stop);
  }
}
