/** Whether the normalizer keeps characters whole when its backward scan stops where the source stops it. */
module FilepathCharacters {
  import opened Common
  import opened Encodings
  import opened FilepathScan
  import opened Filepath
  import opened FilepathComponents
  import opened FilepathDepths
  import opened FilepathAsWritten

  ghost predicate AllWellFormed(cs: seq<Segment>) {
    forall i | 0 <= i < |cs| :: WellFormed(cs[i])
  }

  lemma {:induction false} SplitWellFormed(s: seq<byte>)
    requires WellFormed(s)
    ensures AllWellFormed(Split(s))
    decreases |s|
  {
    var w, rest := FirstComponent(s);
    if |Split(s)| > 1 {
      WellFormedAround(w, SEPARATOR, rest);
      SplitWellFormed(rest);
    } else {
      assert Split(s) == [s];
    }
  }

  /** As it is meant, normalization never splits a character. */
  lemma NormalIsWellFormed(path: seq<byte>)
    requires WellFormed(path) && Normal(path).Normalized?
    ensures WellFormed(Normal(path).path)
  {
    var intended := Stop(0, NUL);
    WellFormedIsWhole(path);
    NormalizeKeepsCharacters(path, |path| + 1, intended);
    NormalizeIsNormal(path, |path| + 1, intended);
  }

  // Output below the input: the bytes after m components, when `..` removes one byte only.

  function WrittenBelow(cs: seq<Segment>, m: nat): seq<byte>
    requires m <= |cs|
  {
    if m == 0 then []
    else
      var w, c := WrittenBelow(cs, m - 1), cs[m - 1];
      if c == PARENT then if w == [] then [] else w[..|w| - 1]
      else if c == CURRENT || (c == [] && !KeptEmpty(cs, m - 1)) then w
      else w + c + [SEPARATOR]
  }

  /** The last component is not followed by a separator. */
  function OutputBelow(cs: seq<Segment>): seq<byte>
    requires cs != []
  {
    var n := |cs| - 1;
    if IsRef(cs[n]) then WrittenBelow(cs, |cs|) else WrittenBelow(cs, n) + cs[n]
  }

  ghost predicate Undrained(cs: seq<Segment>, m: nat) {
    forall k: nat | k < m :: !Drains(cs, k)
  }

  lemma {:induction false} WrittenLength(cs: seq<Segment>, m: nat)
    requires m <= |cs| && Undrained(cs, m)
    ensures |WrittenBelow(cs, m)| == Length(cs, m)
  {
    if m > 0 {
      WrittenLength(cs, m - 1);
      assert !Drains(cs, m - 1);
    }
  }

  lemma EnterWrites(cs: seq<Segment>, m: nat, p: Progress, stop: Stop)
    requires m < |cs| && Undrained(cs, m + 1) && p.written == WrittenBelow(cs, m) && |p.written| <= stop.limit
    requires p.keepEmpty <==> m == 0 || IsRef(cs[m - 1])
    ensures EnterBytes(p, cs[m], stop) == Entered(Progress(WrittenBelow(cs, m + 1), IsRef(cs[m])))
    ensures FinishBytes(p, cs[m], stop) ==
            Normalized(if IsRef(cs[m]) then WrittenBelow(cs, m + 1) else p.written + cs[m])
  {
    hide GoUpBytes, Undrained, Drains;
    GoUpBelow(p.written, stop);
    if cs[m] == PARENT {
      GoesUpFar(cs, m);
    }
  }

  lemma GoesUpFar(cs: seq<Segment>, m: nat)
    requires m < |cs| && Undrained(cs, m + 1) && cs[m] == PARENT
    ensures |WrittenBelow(cs, m)| > 1
  {
    hide WrittenBelow;
    WrittenLength(cs, m);
    assert !Drains(cs, m);
  }

  lemma WrittenGrows(cs: seq<Segment>, m: nat)
    requires m < |cs|
    ensures |WrittenBelow(cs, m + 1)| <= |WrittenBelow(cs, m)| + |cs[m]| + 1
  {
  }

  lemma {:induction false} BelowWrites(cs: seq<Segment>, m: nat, p: Progress, stop: Stop)
    requires m < |cs| && !Drained(cs) && p.written == WrittenBelow(cs, m)
    requires p.keepEmpty <==> m == 0 || IsRef(cs[m - 1])
    requires |p.written| + |Join(cs[m..])| <= stop.limit
    ensures ResolveBytes(p, cs[m..], stop) == Normalized(OutputBelow(cs))
    decreases |cs| - m
  {
    hide EnterBytes, FinishBytes, WrittenBelow, IsRef, Join;
    assert Undrained(cs, m + 1);
    EnterWrites(cs, m, p, stop);
    if m == |cs| - 1 {
      assert cs[m..] == [cs[m]];
    } else {
      JoinFrom(cs, m);
      WrittenGrows(cs, m);
      assert cs[m..][1..] == cs[m + 1..];
      BelowWrites(cs, m + 1, EnterBytes(p, cs[m], stop).progress, stop);
    }
  }

  // Which component a byte of the output comes from.

  /** After m components the byte at `at` comes from component i. */
  ghost predicate ComesFrom(cs: seq<Segment>, i: nat, m: nat, at: nat)
    requires m <= |cs|
  {
    i < m && Length(cs, i) <= at && forall j: nat | i < j <= m :: at < Length(cs, j)
  }

  /** The kinds of step: a component adds its bytes and a separator, or nothing, or takes one byte away. */
  lemma WrittenStep(cs: seq<Segment>, m: nat)
    requires 0 < m <= |cs| && Undrained(cs, m)
    ensures var w, w', c := WrittenBelow(cs, m - 1), WrittenBelow(cs, m), cs[m - 1];
            && |w| == Length(cs, m - 1) && |w'| == Length(cs, m)
            && if c == PARENT then |w| > 1 && w' == w[..|w| - 1] else w' == w || w' == w + (c + [SEPARATOR])
  {
    WrittenLength(cs, m - 1);
    WrittenLength(cs, m);
    assert !Drains(cs, m - 1);
    assert WrittenBelow(cs, m - 1) + cs[m - 1] + [SEPARATOR] == WrittenBelow(cs, m - 1) + (cs[m - 1] + [SEPARATOR]);
  }

  lemma {:induction false} SourceExists(cs: seq<Segment>, m: nat, at: nat) returns (i: nat)
    requires m <= |cs| && at < Length(cs, m)
    ensures ComesFrom(cs, i, m, at)
  {
    if at < Length(cs, m - 1) {
      i := SourceExists(cs, m - 1, at);
    } else {
      i := m - 1;
    }
  }

  /** There the output is the component, up to that byte. */
  lemma {:induction false} SourceBytes(cs: seq<Segment>, i: nat, m: nat, at: nat)
    requires m <= |cs| && Undrained(cs, m) && ComesFrom(cs, i, m, at)
    ensures at < |WrittenBelow(cs, m)|
    ensures var from := Length(cs, i);
            0 <= from <= at <= from + |cs[i]|
            && WrittenBelow(cs, m)[from..at + 1] == (cs[i] + [SEPARATOR])[..at + 1 - from]
    decreases m
  {
    hide WrittenBelow, Length;
    WrittenStep(cs, m);
    var w, w', from := WrittenBelow(cs, m - 1), WrittenBelow(cs, m), Length(cs, i);
    if i == m - 1 {
      assert w' == w + (cs[i] + [SEPARATOR]);
      SliceOfPiece(w, cs[i] + [SEPARATOR], at + 1);
    } else {
      SourceBytes(cs, i, m - 1, at);
      assert w'[..at + 1] == w[..at + 1];
      SliceOfPrefix(w, w', from, at + 1);
    }
  }

  lemma SliceOfPiece(w: seq<byte>, piece: seq<byte>, end: nat)
    requires |w| <= end <= |w| + |piece|
    ensures (w + piece)[|w|..end] == piece[..end - |w|]
  {
  }

  lemma SliceOfPrefix(w: seq<byte>, w': seq<byte>, from: nat, end: nat)
    requires from <= end <= |w| && end <= |w'| && w'[..end] == w[..end]
    ensures w'[from..end] == w[from..end]
  {
    assert w'[from..end] == w'[..end][from..] && w[from..end] == w[..end][from..];
  }

  // Where a cut splits a character.

  /** Component k goes up by removing a continuation byte of component i. */
  ghost predicate Splits(cs: seq<Segment>, i: nat, k: nat) {
    && k < |cs| && cs[k] == PARENT && Length(cs, k) >= 1
    && var at: nat := Length(cs, k) - 1;
    && ComesFrom(cs, i, k, at)
    && at - Length(cs, i) < |cs[i]| && Length(cs, i) >= 0 && IsTail(cs[i][at - Length(cs, i)])
  }

  ghost predicate SplitsAt(cs: seq<Segment>, k: nat) {
    exists i: nat :: Splits(cs, i, k)
  }

  /** The output never gets shorter again than component k made it. */
  ghost predicate Lasts(cs: seq<Segment>, k: nat, m: nat)
    requires k <= |cs| && m <= |cs|
  {
    forall j: nat | k < j <= m :: Length(cs, j) >= Length(cs, k) - 1
  }

  ghost predicate SplitBefore(cs: seq<Segment>, i: nat, k: nat, m: nat, end: nat)
    requires m <= |cs|
  {
    k < m && Splits(cs, i, k) && Lasts(cs, k, m) && Length(cs, k) - 1 <= end
  }

  ghost predicate AnySplit(cs: seq<Segment>, m: nat, end: nat)
    requires m <= |cs|
  {
    exists i: nat, k: nat :: SplitBefore(cs, i, k, m, end)
  }

  /** A character start, or the end of the output. */
  ghost predicate CharBoundary(w: seq<byte>, end: nat) {
    end == |w| || (end < |w| && !IsTail(w[end]))
  }

  /** The last byte of the output is a continuation byte exactly if removing it splits a character. */
  lemma SplitsIffTail(cs: seq<Segment>, k: nat)
    requires k < |cs| && cs[k] == PARENT && Undrained(cs, k + 1)
    ensures var w := WrittenBelow(cs, k);
            |w| > 1 && (IsTail(w[|w| - 1]) <==> SplitsAt(cs, k))
  {
    hide WrittenBelow;
    WrittenLength(cs, k);
    assert !Drains(cs, k);
    var w := WrittenBelow(cs, k);
    var at: nat := |w| - 1;
    var i := SourceExists(cs, k, at);
    SourceByte(cs, i, k, at);
    assert IsTail(w[at]) ==> Splits(cs, i, k);
    forall i: nat | Splits(cs, i, k) ensures IsTail(w[at]) {
      SourceByte(cs, i, k, at);
    }
  }

  lemma SourceByte(cs: seq<Segment>, i: nat, m: nat, at: nat)
    requires m <= |cs| && Undrained(cs, m) && ComesFrom(cs, i, m, at)
    ensures at < |WrittenBelow(cs, m)| && 0 <= Length(cs, i) <= at <= Length(cs, i) + |cs[i]|
    ensures var d := at - Length(cs, i);
            WrittenBelow(cs, m)[at] == if d < |cs[i]| then cs[i][d] else SEPARATOR
  {
    hide WrittenBelow, Length;
    SourceBytes(cs, i, m, at);
    var w, from, c := WrittenBelow(cs, m), Length(cs, i), cs[i] + [SEPARATOR];
    assert w[at] == w[from..at + 1][at - from] == c[..at + 1 - from][at - from] == c[at - from];
  }

  /** What is left behind such a cut is no text. */
  lemma SplitIsIllFormed(cs: seq<Segment>, i: nat, m: nat, at: nat)
    requires m <= |cs| && Undrained(cs, m) && AllWellFormed(cs) && ComesFrom(cs, i, m, at)
    requires at < |WrittenBelow(cs, m)| && IsTail(WrittenBelow(cs, m)[at])
    ensures !WellFormed(WrittenBelow(cs, m)[..at])
  {
    hide WrittenBelow, Length, WellFormed;
    SourceBytes(cs, i, m, at);
    SourceByte(cs, i, m, at);
    var w, from := WrittenBelow(cs, m), Length(cs, i);
    var d := at - from;
    assert d < |cs[i]| && cs[i][d] == w[at];
    var head, tail := cs[i][..d], cs[i][d..];
    assert head + tail == cs[i];
    CutBeforeTail(head, tail);
    assert w[from..at] == w[from..at + 1][..d] == (cs[i] + [SEPARATOR])[..d + 1][..d] == head;
    assert w[..at] == w[..from] + head;
    if WellFormed(w[..at]) {
      if head != [] {
        WellFormedFirst(cs[i]);
        assert head[0] == cs[i][0];
      }
      WellFormedCut(w[..from], head);
    }
  }

  lemma SplitsCarryOver(cs: seq<Segment>, m: nat, end: nat, end': nat)
    requires 0 < m <= |cs| && cs[m - 1] != PARENT && Length(cs, m) >= Length(cs, m - 1)
    requires end == end' || (end >= Length(cs, m - 1) && end' >= Length(cs, m - 1))
    ensures AnySplit(cs, m, end) <==> AnySplit(cs, m - 1, end')
  {
    hide Length;
    var prev := m - 1;
    forall i: nat, k: nat ensures SplitBefore(cs, i, k, m, end) == SplitBefore(cs, i, k, prev, end') {
      assert k < prev && Lasts(cs, k, prev) ==> Length(cs, prev) >= Length(cs, k) - 1;
    }
  }

  lemma SplitsGoUp(cs: seq<Segment>, m: nat, end: nat)
    requires 0 < m <= |cs| && Length(cs, m) == Length(cs, m - 1) - 1 && end <= Length(cs, m)
    ensures AnySplit(cs, m, end) <==>
            AnySplit(cs, m - 1, end) || (end == Length(cs, m) && SplitsAt(cs, m - 1))
  {
    hide Length, Splits;
    var prev := m - 1;
    forall i: nat, k: nat
      ensures SplitBefore(cs, i, k, m, end) <==>
              SplitBefore(cs, i, k, prev, end) || (k == prev && end == Length(cs, m) && Splits(cs, i, prev))
    {
      assert k < prev && Lasts(cs, k, m) ==> Lasts(cs, k, prev);
    }
    if AnySplit(cs, m, end) {
      var i: nat, k: nat :| SplitBefore(cs, i, k, m, end);
    }
    if AnySplit(cs, prev, end) {
      var i: nat, k: nat :| SplitBefore(cs, i, k, prev, end);
      assert SplitBefore(cs, i, k, m, end);
    }
    if end == Length(cs, m) {
      forall i: nat | Splits(cs, i, prev) ensures SplitBefore(cs, i, prev, m, end) {
      }
    }
  }

  /** A piece of a segment and its separator, up to a character boundary. */
  lemma PieceIsWellFormed(c: Segment, d: nat)
    requires WellFormed(c) && 0 < d <= |c| + 1 && (d <= |c| ==> !IsTail((c + [SEPARATOR])[d]))
    ensures var piece := (c + [SEPARATOR])[..d]; WellFormed(piece) && !IsTail(piece[0])
  {
    hide WellFormed;
    var whole := c + [SEPARATOR];
    WellFormedChar([SEPARATOR]);
    WellFormedConcat(c, [SEPARATOR]);
    WellFormedFirst(whole);
    assert whole == whole[..d] + whole[d..];
    WellFormedCut(whole[..d], whole[d..]);
  }

  lemma AppendKeepsWellFormed(w: seq<byte>, piece: seq<byte>)
    requires WellFormed(piece) && (piece == [] || !IsTail(piece[0]))
    ensures WellFormed(w + piece) <==> WellFormed(w)
  {
    hide WellFormed;
    if WellFormed(w) {
      WellFormedConcat(w, piece);
    }
    if WellFormed(w + piece) {
      WellFormedCut(w, piece);
    }
  }

  /** The output up to a character boundary is text exactly if no cut before it lasts. */
  lemma {:induction false} PrefixIff(cs: seq<Segment>, m: nat, end: nat)
    requires m <= |cs| && Undrained(cs, m) && AllWellFormed(cs) && CharBoundary(WrittenBelow(cs, m), end)
    ensures WellFormed(WrittenBelow(cs, m)[..end]) <==> !AnySplit(cs, m, end)
    decreases m, 1
  {
    hide WrittenBelow, Length, WellFormed, Splits, AnySplit;
    if m == 0 {
      NothingSplits(cs, end);
    } else {
      WrittenStep(cs, m);
      var w, w', c := WrittenBelow(cs, m - 1), WrittenBelow(cs, m), cs[m - 1];
      if c == PARENT {
        PrefixGoesUp(cs, m, end);
      } else if end <= |w| {
        assert w'[..end] == w[..end];
        PrefixIff(cs, m - 1, end);
        SplitsCarryOver(cs, m, end, end);
      } else {
        assert w' == w + (c + [SEPARATOR]);
        PieceIsWellFormed(c, end - |w|);
        assert w'[..end] == w + (c + [SEPARATOR])[..end - |w|] && w[..|w|] == w;
        AppendKeepsWellFormed(w, (c + [SEPARATOR])[..end - |w|]);
        PrefixIff(cs, m - 1, |w|);
        SplitsCarryOver(cs, m, end, |w|);
      }
    }
  }

  lemma NothingSplits(cs: seq<Segment>, end: nat)
    ensures WrittenBelow(cs, 0) == [] && WellFormed([]) && !AnySplit(cs, 0, end)
  {
    WellFormedEmpty();
  }

  lemma {:induction false} PrefixGoesUp(cs: seq<Segment>, m: nat, end: nat)
    requires 0 < m <= |cs| && cs[m - 1] == PARENT
    requires Undrained(cs, m) && AllWellFormed(cs) && CharBoundary(WrittenBelow(cs, m), end)
    ensures WellFormed(WrittenBelow(cs, m)[..end]) <==> !AnySplit(cs, m, end)
    decreases m, 0
  {
    hide WrittenBelow, Length, WellFormed, Splits, AnySplit, ComesFrom;
    WrittenStep(cs, m);
    var w, w' := WrittenBelow(cs, m - 1), WrittenBelow(cs, m);
    assert w'[..end] == w[..end];
    SplitsGoUp(cs, m, end);
    SplitsIffTail(cs, m - 1);
    if end == |w'| && IsTail(w[end]) {
      var i := SourceExists(cs, m - 1, end);
      SplitIsIllFormed(cs, i, m - 1, end);
    } else {
      PrefixIff(cs, m - 1, end);
    }
  }

  /** Some `..` removes a continuation byte, and the output stays at least as long as that leaves it. */
  ghost predicate SplitsCharacter(cs: seq<Segment>) {
    exists i: nat, k: nat :: Splits(cs, i, k) && Lasts(cs, k, |cs|)
  }

  lemma AnySplitAtEnd(cs: seq<Segment>)
    requires |cs| > 0 && |WrittenBelow(cs, |cs|)| == Length(cs, |cs|)
    ensures AnySplit(cs, |cs|, |WrittenBelow(cs, |cs|)|) <==> SplitsCharacter(cs)
  {
    hide WrittenBelow, Length;
    var m := |cs|;
    forall i: nat, k: nat
      ensures SplitBefore(cs, i, k, m, |WrittenBelow(cs, m)|) <==> Splits(cs, i, k) && Lasts(cs, k, m)
    {
      assert k < m && Lasts(cs, k, m) ==> Length(cs, m) >= Length(cs, k) - 1;
    }
    if SplitsCharacter(cs) {
      var i: nat, k: nat :| Splits(cs, i, k) && Lasts(cs, k, m);
      assert SplitBefore(cs, i, k, m, |WrittenBelow(cs, m)|);
    }
  }

  lemma OutputIff(cs: seq<Segment>)
    requires cs != [] && !Drained(cs) && AllWellFormed(cs)
    ensures WellFormed(OutputBelow(cs)) <==> !SplitsCharacter(cs)
  {
    hide WrittenBelow, Length, WellFormed, SplitsCharacter, AnySplit;
    var n := |cs| - 1;
    assert Undrained(cs, |cs|) && Undrained(cs, n);
    var w, w', c := WrittenBelow(cs, n), WrittenBelow(cs, |cs|), cs[n];
    WrittenStep(cs, |cs|);
    AnySplitAtEnd(cs);
    if IsRef(c) {
      PrefixIff(cs, |cs|, |w'|);
      assert w'[..|w'|] == w';
    } else {
      PrefixIff(cs, n, |w|);
      SplitsCarryOver(cs, |cs|, |w'|, |w|);
      assert w[..|w|] == w;
      if c != [] {
        WellFormedFirst(c);
      }
      AppendKeepsWellFormed(w, c);
    }
  }

  lemma BelowOutputs(path: seq<byte>, capacity: nat, stop: Stop)
    requires Whole(path) && |path| < capacity && |path| <= stop.limit && !Drained(Split(path))
    ensures Normalize(path, capacity, stop) == Normalized(OutputBelow(Split(path)))
  {
    hide OutputBelow, Drained, Split, Scan, Whole;
    var cs := Split(path);
    SplitJoin(path);
    ScanIsComponents(path, FRESH, capacity, stop);
    assert cs[0..] == cs;
    NothingWritten(cs);
    BelowWrites(cs, 0, FRESH, stop);
  }

  /** Below the input, whatever the capacity: the output of well-formed text is text exactly if no character is
      split for good. */
  lemma BelowKeepsCharactersIff(path: seq<byte>, capacity: nat, stop: Stop)
    requires WellFormed(path) && 0 < capacity <= stop.limit && Normalize(path, capacity, stop).Normalized?
    ensures WellFormed(Normalize(path, capacity, stop).path) <==> !SplitsCharacter(Split(path))
  {
    hide WellFormed, SplitsCharacter, AllWellFormed, OutputBelow, Drained, Split, Normalize, Normal, Whole;
    var larger := BelowIsAmple(path, capacity, stop);
    WellFormedIsWhole(path);
    SplitWellFormed(path);
    BelowIff(path, |path| + capacity, larger);
    BelowOutputs(path, |path| + capacity, larger);
    OutputIff(Split(path));
  }

  lemma NothingWritten(cs: seq<Segment>)
    ensures WrittenBelow(cs, 0) == []
  {
  }

  /** For the source's own call. */
  lemma AsWrittenKeepsCharactersIff(out: nat, outLen: nat, input: nat, before: byte, text: seq<byte>)
    requires WellFormed(text) && outLen > 0 && Apart(out, outLen, input, text, Stop(input - out, before))
    requires Normalize(text, outLen, Stop(input - out, before)).Normalized?
    ensures WellFormed(Normalize(text, outLen, Stop(input - out, before)).path) <==>
            input < out || !SplitsCharacter(Split(text))
  {
    hide Normalize, WellFormed, SplitsCharacter;
    var stop := Stop(input - out, before);
    if input < out {
      NormalizeKeepsCharacters(text, outLen, stop);
    } else {
      BelowKeepsCharactersIff(text, outLen, stop);
    }
  }

  // The shortest path whose output is half a character.

  const ACCENTED: Segment := [0xC3, 0xA9]

  /** `é/../..`: the second `..` removes the continuation byte. */
  lemma AccentIsSplit(capacity: nat, stop: Stop)
    requires 8 < capacity <= stop.limit
    ensures var path := ACCENTED + [SEPARATOR] + (PARENT + [SEPARATOR] + PARENT);
            && WellFormed(path) && Normal(path) == Invalid
            && Normalize(path, capacity, stop) == Normalized([0xC3]) && !WellFormed([0xC3])
  {
    hide Scan, ResolveBytes, Resolve, Split, WellFormed;
    var path := ACCENTED + [SEPARATOR] + (PARENT + [SEPARATOR] + PARENT);
    AccentSplits();
    var cs := [ACCENTED] + ([PARENT] + [PARENT]);
    ScanIsComponents(path, FRESH, capacity, stop);
    ResolveBytesCons(FRESH, ACCENTED, [PARENT] + [PARENT], stop);
    var open := Progress(ACCENTED + [SEPARATOR], false);
    assert FRESH.written + ACCENTED + [SEPARATOR] == open.written && open.written[..2] == ACCENTED;
    ResolveBytesCons(open, PARENT, [PARENT], stop);
    ResolveBytesLast(Progress(ACCENTED, true), PARENT, stop);
    assert ACCENTED[..1] == [0xC3];
    AccentIntended();
    HalfAccent();
  }

  lemma AccentIntended()
    ensures Resolve(START, [ACCENTED] + ([PARENT] + [PARENT])) == Invalid
  {
    hide Resolve, EnterAll;
    ResolveCons(START, ACCENTED, [PARENT] + [PARENT]);
    assert START.stack + [ACCENTED] == [ACCENTED];
    ResolveCons(Resolution([ACCENTED], false), PARENT, [PARENT]);
    assert [ACCENTED][..0] == [];
    ResolveOne(Resolution([], true), PARENT);
  }

  lemma AccentSplits()
    ensures var path := ACCENTED + [SEPARATOR] + (PARENT + [SEPARATOR] + PARENT);
            && WellFormed(path) && Whole(path)
            && Split(path) == [ACCENTED] + ([PARENT] + [PARENT])
  {
    hide Split, WellFormed;
    SplitName(PARENT);
    SplitAt(PARENT, PARENT);
    SplitAt(ACCENTED, PARENT + [SEPARATOR] + PARENT);
    var dots: seq<byte> := PARENT + [SEPARATOR] + PARENT;
    AsciiIsWellFormed([SEPARATOR] + dots);
    WellFormedChar(ACCENTED);
    WellFormedConcat(ACCENTED, [SEPARATOR] + dots);
    assert ACCENTED + ([SEPARATOR] + dots) == ACCENTED + [SEPARATOR] + dots;
    WellFormedIsWhole(ACCENTED + [SEPARATOR] + dots);
  }

  lemma {:induction false} AsciiIsWellFormed(s: seq<byte>)
    requires Ascii(s)
    ensures WellFormed(s)
  {
    hide WellFormed;
    if s == [] {
      WellFormedEmpty();
    } else {
      AsciiIsWellFormed(s[1..]);
      WellFormedPrepend([s[0]], s[1..]);
      assert [s[0]] + s[1..] == s;
    }
  }

  lemma HalfAccent()
    ensures !WellFormed([0xC3])
  {
    var half: seq<byte> := [0xC3];
    if WellFormed(half) {
      var c, rest := WellFormedSplit(half);
    }
  }
}
