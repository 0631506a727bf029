/** The normalizer as the source has it: its backward scan stops at the start of the input, not at that of
    the output. When the result is the intended one all the same. */
module FilepathAsWritten {
  import opened Common
  import opened Encodings
  import opened FilepathScan
  import opened Filepath
  import opened FilepathComponents
  import opened FilepathLaws
  import opened FilepathDepths
  import opened FilepathCanonical

  // Output above the input: only a separator stops the scan.

  /** Going up at component k takes the only segment, and no separator is in front of it. */
  ghost predicate Empties(cs: seq<Segment>, k: nat) {
    && k < |cs| && cs[k] == PARENT && Depth(cs, k) == 1 && !Rooted(cs, k)
    && forall j: nat | j < k :: !TopParent(cs, j)
  }

  ghost predicate EmptiesOutput(cs: seq<Segment>) {
    exists k: nat :: Empties(cs, k)
  }

  lemma EmptiesIff(cs: seq<Segment>, k: nat)
    requires k < |cs|
    ensures Empties(cs, k) <==>
            && cs[k] == PARENT && EnterAll(START, cs[..k]).Some?
            && |EnterAll(START, cs[..k]).value.stack| == 1 && !AtTop(EnterAll(START, cs[..k]).value.stack)
  {
    hide EnterAll, Depth, Rooted, TopParent;
    PrefixFailsIff(cs, k);
    if EnterAll(START, cs[..k]).Some? {
      RootedIsRooted(cs, k);
      DepthIsHeight(cs, k);
      var stack := EnterAll(START, cs[..k]).value.stack;
      assert |stack| == 1 ==> stack == [stack[0]];
    }
  }

  lemma {:induction false} RetreatLeaves(top: Segment, stop: Stop)
    requires stop.limit < 0 && stop.before != SEPARATOR && SEPARATOR !in top
    ensures Retreat(top, stop) == None
    decreases |top|
  {
    if top != [] {
      RetreatLeaves(top[..|top| - 1], stop);
    }
  }

  lemma GoUpAbove(stack: seq<Segment>, stop: Stop)
    requires stop.limit < 0 && stop.before != SEPARATOR && SeparatorFree(stack)
    ensures GoUpBytes(Flatten(stack), stop) ==
            if AtTop(stack) then Failed(Invalid)
            else if |stack| == 1 then Failed(Astray)
            else Entered(Progress(Flatten(stack[..|stack| - 1]), true))
  {
    hide Retreat, Flatten;
    FlattenTop(stack);
    if stack != [] {
      var below, top := stack[..|stack| - 1], stack[|stack| - 1];
      FlattenTop(below);
      FlattenPop(stack);
      if |stack| == 1 {
        RetreatLeaves(top, stop);
        assert stack == [top] && Flatten(below) + top == top;
      } else {
        RetreatRemovesSegmentIff(Flatten(below), top, stop);
      }
    }
  }

  lemma EnterAbove(at: Resolution, c: Segment, stop: Stop)
    requires stop.limit < 0 && stop.before != SEPARATOR && SeparatorFree(at.stack) && SEPARATOR !in c
    ensures var astray := c == PARENT && |at.stack| == 1 && !AtTop(at.stack);
            && EnterBytes(BytesOf(at), c, stop) ==
               (if astray then Failed(Astray)
                else match Enter(at, c) case None => Failed(Invalid) case Some(next) => Entered(BytesOf(next)))
            && FinishBytes(BytesOf(at), c, stop) == (if astray then Astray else Finish(at, c))
  {
    hide GoUpBytes, Retreat, Flatten;
    GoUpAbove(at.stack, stop);
    FlattenPush(at.stack, c);
  }

  /** The two runs agree up to the first component that empties the output. */
  lemma {:induction false} AboveFrom(cs: seq<Segment>, m: nat, stop: Stop)
    requires stop.limit < 0 && stop.before != SEPARATOR
    requires m < |cs| && SeparatorFree(cs) && EnterAll(START, cs[..m]).Some?
    requires forall k: nat | k < m :: !Empties(cs, k)
    ensures var at := EnterAll(START, cs[..m]).value;
            ResolveBytes(BytesOf(at), cs[m..], stop) == if EmptiesOutput(cs) then Astray else Resolve(at, cs[m..])
    decreases |cs| - m
  {
    hide EnterAll, Empties, Enter, EnterBytes, FinishBytes, Finish;
    var at, c := EnterAll(START, cs[..m]).value, cs[m];
    EnterAllSound(START, cs[..m]);
    EnterAbove(at, c, stop);
    EmptiesIff(cs, m);
    NoneEmpties(cs, m);
    if m == |cs| - 1 {
      assert cs[m..] == [c];
      ResolveOne(at, c);
    } else if !Empties(cs, m) {
      ResolveStep(at, cs[m..]);
      assert cs[m..][1..] == cs[m + 1..];
      EnterSnoc(cs, m);
      if Enter(at, c).Some? {
        AboveFrom(cs, m + 1, stop);
      }
    }
  }

  lemma ResolveOne(at: Resolution, c: Segment)
    ensures Resolve(at, [c]) == Finish(at, c)
  {
    assert |[c][..0]| == 0;
  }

  lemma EnterSnoc(cs: seq<Segment>, m: nat)
    requires m < |cs| && EnterAll(START, cs[..m]).Some?
    ensures EnterAll(START, cs[..m + 1]) == Enter(EnterAll(START, cs[..m]).value, cs[m])
  {
    assert cs[..m + 1] == cs[..m] + [cs[m]];
    EnterAllConcat(START, cs[..m], [cs[m]]);
    EnterOne(EnterAll(START, cs[..m]).value, cs[m]);
  }

  /** Behind a failure, and behind the last component, nothing empties the output. */
  lemma NoneEmpties(cs: seq<Segment>, m: nat)
    requires m < |cs|
    ensures forall k: nat | Empties(cs, k) :: k < |cs|
    ensures EnterAll(START, cs[..m + 1]) == None ==> forall k: nat | Empties(cs, k) :: k <= m
  {
    hide EnterAll;
    forall k: nat | Empties(cs, k) && k > m ensures EnterAll(START, cs[..m + 1]).Some? {
      EmptiesIff(cs, k);
      PrefixEnters(cs, m + 1, k);
    }
  }

  /** Above the input the scan leaves the output exactly when some `..` empties it, unless a separator
      happens to stand in front of the output. */
  lemma AboveIff(path: seq<byte>, capacity: nat, stop: Stop)
    requires Whole(path) && |path| < capacity && stop.limit < 0
    ensures Normalize(path, capacity, stop) ==
            if stop.before != SEPARATOR && EmptiesOutput(Split(path)) then Astray else Normal(path)
  {
    if stop.before == SEPARATOR {
      NormalizeIsNormal(path, capacity, stop);
    } else {
      var cs := Split(path);
      SplitJoin(path);
      ScanIsComponents(path, FRESH, capacity, stop);
      StartIsEmpty(cs);
      assert BytesOf(START) == FRESH && cs[0..] == cs;
      AboveFrom(cs, 0, stop);
    }
  }

  // Output below the input: the scan stops at once.

  /** Bytes of output after m components when `..` removes one byte only. */
  function Length(cs: seq<Segment>, m: nat): int
    requires m <= |cs|
  {
    if m == 0 then 0
    else
      var c := cs[m - 1];
      Length(cs, m - 1)
      + if c == PARENT then -1 else if c == CURRENT || (c == [] && !KeptEmpty(cs, m - 1)) then 0 else |c| + 1
  }

  /** Going up at component k finds at most one byte. */
  ghost predicate Drains(cs: seq<Segment>, k: nat) {
    k < |cs| && cs[k] == PARENT && Length(cs, k) <= 1
  }

  ghost predicate Drained(cs: seq<Segment>) {
    exists k: nat :: Drains(cs, k)
  }

  lemma GoUpBelow(written: seq<byte>, stop: Stop)
    requires |written| <= stop.limit
    ensures GoUpBytes(written, stop) ==
            if |written| <= 1 then Failed(Invalid) else Entered(Progress(written[..|written| - 1], true))
  {
  }

  lemma EnterBelow(cs: seq<Segment>, m: nat, p: Progress, stop: Stop)
    requires m < |cs| && |p.written| == Length(cs, m) && |p.written| <= stop.limit
    requires p.keepEmpty <==> m == 0 || IsRef(cs[m - 1])
    ensures var r := EnterBytes(p, cs[m], stop);
            if Drains(cs, m) then r == Failed(Invalid)
            else
              && r.Entered? && |r.progress.written| == Length(cs, m + 1)
              && |r.progress.written| <= |p.written| + |cs[m]| + 1
              && (r.progress.keepEmpty <==> IsRef(cs[m]))
    ensures var r := FinishBytes(p, cs[m], stop); if Drains(cs, m) then r == Invalid else r.Normalized?
  {
    hide GoUpBytes;
    GoUpBelow(p.written, stop);
  }

  lemma JoinFrom(cs: seq<Segment>, m: nat)
    requires m + 1 < |cs|
    ensures |Join(cs[m..])| == |cs[m]| + 1 + |Join(cs[m + 1..])|
  {
    assert cs[m..][1..] == cs[m + 1..];
  }

  lemma {:induction false} BelowFrom(cs: seq<Segment>, m: nat, p: Progress, stop: Stop)
    requires m < |cs| && |p.written| == Length(cs, m) && |p.written| + |Join(cs[m..])| <= stop.limit
    requires p.keepEmpty <==> m == 0 || IsRef(cs[m - 1])
    requires forall k: nat | k < m :: !Drains(cs, k)
    ensures var r := ResolveBytes(p, cs[m..], stop); if Drained(cs) then r == Invalid else r.Normalized?
    decreases |cs| - m
  {
    hide EnterBytes, FinishBytes, Length, IsRef, Join;
    EnterBelow(cs, m, p, stop);
    assert forall k: nat | Drains(cs, k) :: k < |cs|;
    if m + 1 < |cs| && !Drains(cs, m) {
      JoinFrom(cs, m);
      assert cs[m..][1..] == cs[m + 1..];
      BelowFrom(cs, m + 1, EnterBytes(p, cs[m], stop).progress, stop);
    }
  }

  /** The segment that going up at component k is to remove is empty: a kept empty component left it. */
  ghost predicate RemovesEmpty(cs: seq<Segment>, k: nat)
    requires k < |cs|
  {
    exists j: nat :: j < k && KeptEmpty(cs, j) && Depth(cs, j) == Depth(cs, k) - 1 && StaysBelow(cs, j, k)
  }

  /** From component m on no name is to be removed. */
  ghost predicate RemovesNoName(cs: seq<Segment>, m: nat) {
    forall k: nat | m <= k < |cs| && cs[k] == PARENT :: RemovesEmpty(cs, k)
  }

  lemma RemovesEmptyIff(cs: seq<Segment>, k: nat)
    requires k < |cs| && EnterAll(START, cs[..k]).Some? && EnterAll(START, cs[..k]).value.stack != []
    ensures var stack := EnterAll(START, cs[..k]).value.stack;
            RemovesEmpty(cs, k) <==> stack[|stack| - 1] == []
  {
    hide EnterAll, KeptEmpty, Depth;
    var d: nat := |EnterAll(START, cs[..k]).value.stack| - 1;
    EmptySegments(cs, k, d);
    DepthIsHeight(cs, k);
    if j: nat :| j < k && KeptEmpty(cs, j) && Depth(cs, j) == Depth(cs, k) - 1 && StaysBelow(cs, j, k) {
      assert EmptyFrom(cs, k, d, j);
    }
  }

  /** The output as written is the intended one, or it is longer. */
  ghost predicate Ahead(written: seq<byte>, intended: seq<byte>) {
    written == intended || |written| > |intended|
  }

  /** What going up removes: `intended` ends in `top` and a separator, `written` loses one byte. */
  lemma BelowGoesUp(written: seq<byte>, stack: seq<Segment>)
    requires !AtTop(stack) && Ahead(written, Flatten(stack))
    ensures |written| > 1
    ensures var rest, below := written[..|written| - 1], Flatten(stack[..|stack| - 1]);
            Ahead(rest, below) && (rest == below <==> written == Flatten(stack) && stack[|stack| - 1] == [])
  {
    hide Flatten;
    FlattenTop(stack);
    FlattenPop(stack);
    var below, top := Flatten(stack[..|stack| - 1]), stack[|stack| - 1];
    assert top == [] ==> below + top == below;
  }

  lemma BelowStep(at: Resolution, p: Progress, c: Segment, stop: Stop)
    requires p.keepEmpty == at.keepEmpty && Ahead(p.written, Flatten(at.stack)) && |p.written| <= stop.limit
    requires !(c == PARENT && AtTop(at.stack))
    ensures Enter(at, c).Some? && EnterBytes(p, c, stop).Entered?
    ensures var next, q := Enter(at, c).value, EnterBytes(p, c, stop).progress;
            && q.keepEmpty == next.keepEmpty && Ahead(q.written, Flatten(next.stack))
            && |q.written| <= |p.written| + |c| + 1
            && (q.written == Flatten(next.stack) <==>
                  p.written == Flatten(at.stack) && (c == PARENT ==> at.stack[|at.stack| - 1] == []))
  {
    hide Flatten, GoUpBytes;
    if c == PARENT {
      GoUpBelow(p.written, stop);
      BelowGoesUp(p.written, at.stack);
    } else {
      FlattenPush(at.stack, c);
      AppendKeepsAhead(p.written, Flatten(at.stack), c + [SEPARATOR]);
      assert p.written + c + [SEPARATOR] == p.written + (c + [SEPARATOR]);
      assert Flatten(at.stack) + c + [SEPARATOR] == Flatten(at.stack) + (c + [SEPARATOR]);
    }
  }

  lemma AppendKeepsAhead(written: seq<byte>, intended: seq<byte>, more: seq<byte>)
    requires Ahead(written, intended)
    ensures Ahead(written + more, intended + more) && (written + more == intended + more <==> written == intended)
  {
    assert |written| == |intended| ==> written == intended;
  }

  lemma BelowLast(at: Resolution, p: Progress, c: Segment, stop: Stop)
    requires Ahead(p.written, Flatten(at.stack)) && |p.written| <= stop.limit
    requires !(c == PARENT && AtTop(at.stack))
    ensures Finish(at, c).Normalized? && FinishBytes(p, c, stop).Normalized?
    ensures FinishBytes(p, c, stop) == Finish(at, c) <==>
            p.written == Flatten(at.stack) && (c == PARENT ==> at.stack[|at.stack| - 1] == [])
  {
    hide Flatten, GoUpBytes;
    if c == PARENT {
      GoUpBelow(p.written, stop);
      BelowGoesUp(p.written, at.stack);
    } else {
      AppendKeepsAhead(p.written, Flatten(at.stack), c);
    }
  }

  /** A run that is valid as intended is valid as written, and equal unless a name was to be removed. */
  lemma {:induction false} BelowFollows(cs: seq<Segment>, m: nat, p: Progress, stop: Stop)
    requires m < |cs| && EnterAll(START, cs[..m]).Some? && !GoesAbove(cs)
    requires var at := EnterAll(START, cs[..m]).value;
             p.keepEmpty == at.keepEmpty && Ahead(p.written, Flatten(at.stack))
    requires |p.written| + |Join(cs[m..])| <= stop.limit
    ensures var at := EnterAll(START, cs[..m]).value;
            ResolveBytes(p, cs[m..], stop) == Resolve(at, cs[m..]) <==>
            p.written == Flatten(at.stack) && RemovesNoName(cs, m)
    decreases |cs| - m
  {
    hide EnterAll, Enter, EnterBytes, FinishBytes, Finish, Join, Flatten, RemovesEmpty, TopParent, Ahead, AtTop;
    var at, c := EnterAll(START, cs[..m]).value, cs[m];
    TopParentIsAtTop(cs, m);
    if c == PARENT {
      AtTopOfNone();
      RemovesEmptyIff(cs, m);
    }
    if m == |cs| - 1 {
      assert cs[m..] == [c];
      ResolveOne(at, c);
      BelowLast(at, p, c, stop);
    } else {
      JoinFrom(cs, m);
      ResolveStep(at, cs[m..]);
      assert cs[m..][1..] == cs[m + 1..];
      EnterSnoc(cs, m);
      BelowStep(at, p, c, stop);
      BelowFollows(cs, m + 1, EnterBytes(p, c, stop).progress, stop);
      assert RemovesNoName(cs, m) <==> RemovesNoName(cs, m + 1) && (c == PARENT ==> RemovesEmpty(cs, m));
    }
  }

  lemma AtTopOfNone()
    ensures forall stack: seq<Segment> | stack == [] :: AtTop(stack)
  {
  }

  /** Below the input a path becomes invalid exactly when it drains the output. For a valid path the result
      is the intended one exactly when each `..` meets an empty segment. */
  lemma BelowIff(path: seq<byte>, capacity: nat, stop: Stop)
    requires Whole(path) && |path| < capacity && |path| <= stop.limit
    ensures var r := Normalize(path, capacity, stop);
            if Drained(Split(path)) then r == Invalid else r.Normalized?
    ensures Normalize(path, capacity, stop) == Normal(path) <==>
            if GoesAbove(Split(path)) then Drained(Split(path)) else RemovesNoName(Split(path), 0)
  {
    hide GoesAbove, Drained, RemovesNoName, EnterAll, Normal;
    var cs := Split(path);
    SplitJoin(path);
    ScanIsComponents(path, FRESH, capacity, stop);
    StartIsEmpty(cs);
    FlattenTop([]);
    assert cs[0..] == cs;
    BelowFrom(cs, 0, FRESH, stop);
    InvalidIffGoesAbove(path);
    if !GoesAbove(cs) {
      NormalResolves(path);
      BelowFollows(cs, 0, FRESH, stop);
    }
  }

  lemma NormalResolves(path: seq<byte>)
    ensures Normal(path) == Resolve(START, Split(path))
  {
  }

  lemma {:induction false} ScanBelow(
    s: seq<byte>, boundary: bool, written: seq<byte>, capacity: nat, stop: Stop, other: Stop)
    requires |written| < capacity && capacity <= stop.limit && capacity <= other.limit
    ensures Scan(s, boundary, written, capacity, stop) == Scan(s, boundary, written, capacity, other)
    decreases |s|
  {
    if s == [] {
    } else if s[0] == SEPARATOR {
      if |written| + 1 < capacity {
        ScanBelow(SkipSeparators(s[1..]), true, written + [SEPARATOR], capacity, stop, other);
      }
    } else if boundary && IsRelativeRef(s) {
      ScanBelow(Drop(s, 2), true, written, capacity, stop, other);
    } else if boundary && IsParentRef(s) {
      if |written| > 1 {
        ScanBelow(Drop(s, 3), true, written[..|written| - 1], capacity, stop, other);
      }
    } else {
      var n := CharLen(s[0]);
      if 1 <= n <= |s| && |written| + n < capacity {
        ScanBelow(s[n..], s[n - 1] == SEPARATOR, written + s[..n], capacity, stop, other);
      }
    }
  }

  /** A limit beyond the capacity might as well be larger, and then the capacity as well. */
  lemma BelowIsAmple(path: seq<byte>, capacity: nat, stop: Stop) returns (larger: Stop)
    requires 0 < capacity <= stop.limit
    ensures |path| + capacity <= larger.limit
    ensures var r := Normalize(path, capacity, stop);
            r.Overflow? || r == Normalize(path, |path| + capacity, larger)
  {
    larger := Stop(|path| + stop.limit, stop.before);
    ScanBelow(path, true, [], capacity, stop, larger);
    NormalizeCapacity(path, capacity, |path| + capacity, larger);
  }

  lemma RemovesRoot(cs: seq<Segment>, k: nat)
    requires k < |cs| && cs[k] == PARENT && RemovesEmpty(cs, k)
    requires forall j: nat | 0 < j < |cs| - 1 :: !KeptEmpty(cs, j)
    ensures TopParent(cs, k)
  {
    var j: nat :| j < k && KeptEmpty(cs, j) && Depth(cs, j) == Depth(cs, k) - 1 && StaysBelow(cs, j, k);
    assert j == 0 && Depth(cs, 0) == 0;
    assert Rooted(cs, k);
  }

  /** In a valid well-spaced path only a root can be empty, so every `..` is in the way. */
  lemma BelowIffNoParent(path: seq<byte>, capacity: nat, stop: Stop)
    requires Whole(path) && |path| < capacity && |path| <= stop.limit
    requires WellSpaced(path) && !GoesAbove(Split(path))
    ensures Normalize(path, capacity, stop) == Normal(path) <==> PARENT !in Split(path)
  {
    hide Normalize, Normal, TopParent, KeptEmpty, RemovesEmpty;
    var cs := Split(path);
    BelowIff(path, capacity, stop);
    WellSpacedKeepsNone(path);
    forall k: nat | k < |cs| && cs[k] == PARENT && RemovesEmpty(cs, k) ensures TopParent(cs, k) {
      RemovesRoot(cs, k);
    }
  }

  /** The source's own call, on a buffer apart from the string and large enough for what the call copies. */
  lemma AsWrittenIff(out: nat, outLen: nat, input: nat, before: byte, text: seq<byte>)
    requires Whole(text) && outLen > 0 && Apart(out, outLen, input, text, Stop(input - out, before))
    requires !Normalize(text, outLen, Stop(input - out, before)).Overflow?
    ensures Normalize(text, outLen, Stop(input - out, before)) == Normal(text) <==>
            if input < out then before == SEPARATOR || !EmptiesOutput(Split(text))
            else if GoesAbove(Split(text)) then Drained(Split(text))
            else RemovesNoName(Split(text), 0)
  {
    hide Normalize, EmptiesOutput, GoesAbove, Drained, RemovesNoName;
    var stop := Stop(input - out, before);
    InvalidIffGoesAbove(text);
    if input < out {
      NormalizeCapacity(text, outLen, |text| + outLen, stop);
      AboveIff(text, |text| + outLen, stop);
    } else {
      var larger := BelowIsAmple(text, outLen, stop);
      BelowIff(text, |text| + outLen, larger);
    }
  }

  // The shortest path with a name to remove.

  lemma {:induction false} AsciiIsWhole(s: seq<byte>)
    requires Ascii(s)
    ensures Whole(s)
    decreases |s|
  {
    if s != [] {
      AsciiIsWhole(s[1..]);
    }
  }

  /** `a/../b`. */
  const DOWN_AND_UP: seq<byte> := [97, SEPARATOR, DOT, DOT, SEPARATOR, 98]

  lemma DownAndUpSplits()
    ensures Whole(DOWN_AND_UP) && Split(DOWN_AND_UP) == [LETTER_A] + ([PARENT] + [LETTER_B])
  {
    AsciiIsWhole(DOWN_AND_UP);
    SplitName(LETTER_B);
    SplitAt(PARENT, LETTER_B);
    SplitAt(LETTER_A, PARENT + [SEPARATOR] + LETTER_B);
    assert LETTER_A + [SEPARATOR] + (PARENT + [SEPARATOR] + LETTER_B) == DOWN_AND_UP;
  }

  lemma ResolveBytesCons(p: Progress, c: Segment, cs: seq<Segment>, stop: Stop)
    requires cs != []
    ensures var r := EnterBytes(p, c, stop);
            ResolveBytes(p, [c] + cs, stop) == if r.Failed? then r.outcome else ResolveBytes(r.progress, cs, stop)
  {
    assert ([c] + cs)[1..] == cs;
  }

  /** The backward scan that is to remove `a`, one step behind `written`. */
  lemma DownAndUpFrom(written: seq<byte>, keepEmpty: bool, stop: Stop)
    ensures var r := ResolveBytes(Progress(written, keepEmpty), [LETTER_A] + ([PARENT] + [LETTER_B]), stop);
            && (stop.limit > |written| ==> r == Normalized(written + LETTER_A + LETTER_B))
            && (written == [] && stop.limit < 0 && stop.before != SEPARATOR ==> r == Astray)
  {
    hide ResolveBytes;
    var open := written + LETTER_A;
    ResolveBytesCons(Progress(written, keepEmpty), LETTER_A, [PARENT] + [LETTER_B], stop);
    ResolveBytesCons(Progress(open + [SEPARATOR], false), PARENT, [LETTER_B], stop);
    assert (open + [SEPARATOR])[..|open|] == open && open[..|written|] == written;
    ResolveBytesLast(Progress(open, true), LETTER_B, stop);
    if written == [] && stop.limit < 0 && stop.before != SEPARATOR {
      assert open == LETTER_A;
      RetreatLeaves(LETTER_A, stop);
    }
  }

  lemma ResolveBytesLast(p: Progress, c: Segment, stop: Stop)
    ensures ResolveBytes(p, [c], stop) == FinishBytes(p, c, stop)
  {
  }

  /** It is to become `b`. A scan that stops earlier leaves `ab`, one that stops later is astray. */
  lemma DownAndUpFails(capacity: nat, stop: Stop)
    requires |DOWN_AND_UP| < capacity
    ensures Normal(DOWN_AND_UP) == Normalized(LETTER_B)
    ensures stop.limit > 0 ==> Normalize(DOWN_AND_UP, capacity, stop) == Normalized([97, 98])
    ensures stop.limit < 0 && stop.before != SEPARATOR ==> Normalize(DOWN_AND_UP, capacity, stop) == Astray
  {
    hide Scan, ResolveBytes, Normal;
    DownAndUpSplits();
    ScanIsComponents(DOWN_AND_UP, FRESH, capacity, stop);
    DownAndUpIntended();
    DownAndUpFrom([], true, stop);
    assert [] + LETTER_A + LETTER_B == [97, 98];
  }

  lemma DownAndUpIntended()
    ensures Normal(DOWN_AND_UP) == Normalized(LETTER_B)
  {
    hide Split, Resolve, EnterAll, Flatten;
    DownAndUpSplits();
    ResolveCons(START, LETTER_A, [PARENT] + [LETTER_B]);
    ResolveCons(Resolution(START.stack + [LETTER_A], false), PARENT, [LETTER_B]);
    ResolveLast(Resolution([], true), LETTER_B);
    FlattenTop([]);
  }

  /** No other stop than the intended one, or a separator below the buffer, is right for every path. */
  lemma AlwaysRightIffFaithful(stop: Stop)
    ensures Faithful(stop) <==>
            forall path: seq<byte>, capacity: nat | Whole(path) && |path| < capacity ::
              Normalize(path, capacity, stop) == Normal(path)
  {
    hide Normalize, Normal;
    if Faithful(stop) {
      forall path: seq<byte>, capacity: nat | Whole(path) && |path| < capacity
        ensures Normalize(path, capacity, stop) == Normal(path)
      {
        NormalizeIsNormal(path, capacity, stop);
      }
    } else {
      DownAndUpSplits();
      DownAndUpFails(|DOWN_AND_UP| + 1, stop);
    }
  }

  lemma RootedDownAndUpSplits()
    ensures Whole([SEPARATOR] + DOWN_AND_UP)
    ensures Split([SEPARATOR] + DOWN_AND_UP) == [[]] + ([LETTER_A] + ([PARENT] + [LETTER_B]))
  {
    hide Whole, Split;
    var none: Segment, path := [], [SEPARATOR] + DOWN_AND_UP;
    DownAndUpSplits();
    AsciiIsWhole(path);
    SplitAt(none, DOWN_AND_UP);
    assert none + [SEPARATOR] + DOWN_AND_UP == path;
  }

  /** `/a/../b` becomes `/ab` below the input, where `/b` is meant. */
  lemma RootedDownAndUpFails(capacity: nat, stop: Stop)
    requires |DOWN_AND_UP| + 1 < capacity && stop.limit > 1
    ensures Normalize([SEPARATOR] + DOWN_AND_UP, capacity, stop) == Normalized([SEPARATOR, 97, 98])
    ensures Normal([SEPARATOR] + DOWN_AND_UP) == Normalized([SEPARATOR, 98])
  {
    hide Scan, ResolveBytes, Resolve, Split, Whole;
    var none: Segment, cs := [], [LETTER_A] + ([PARENT] + [LETTER_B]);
    RootedDownAndUpSplits();
    ScanIsComponents([SEPARATOR] + DOWN_AND_UP, FRESH, capacity, stop);
    ResolveBytesCons(FRESH, none, cs, stop);
    assert FRESH.written + none + [SEPARATOR] == [SEPARATOR];
    DownAndUpFrom([SEPARATOR], false, stop);
    assert [SEPARATOR] + LETTER_A + LETTER_B == [SEPARATOR, 97, 98];
    RootedDownAndUpIntended();
  }

  lemma RootedDownAndUpIntended()
    ensures Resolve(START, [[]] + ([LETTER_A] + ([PARENT] + [LETTER_B]))) == Normalized([SEPARATOR, 98])
  {
    hide Resolve, EnterAll;
    var none: Segment := [];
    ResolveCons(START, none, [LETTER_A] + ([PARENT] + [LETTER_B]));
    assert START.stack + [none] == [none];
    ResolveCons(Resolution([none], false), LETTER_A, [PARENT] + [LETTER_B]);
    ResolveCons(Resolution([none] + [LETTER_A], false), PARENT, [LETTER_B]);
    assert ([none] + [LETTER_A])[..1] == [none];
    ResolveLast(Resolution([none], true), LETTER_B);
    FlattenPush([], none);
    assert [] + [none] == [none];
  }
}
