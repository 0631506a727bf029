/** When a path may be normalized before more text is appended to it. */
module FilepathComposition {
  import opened Common
  import opened FilepathScan
  import opened FilepathComponents
  import opened FilepathLaws
  import opened FilepathDepths
  import opened FilepathCanonical

  /** The path does not end in a reference; nor in a reference and its separator, unless that leads back to
      where the path started. */
  predicate Extendable(path: seq<byte>) {
    var cs := Split(path);
    var n := |cs| - 1;
    && !IsRef(cs[n])
    && (cs[n] == [] && n > 0 && IsRef(cs[n - 1]) ==> Depth(cs, n) == 0)
  }

  /** Segments without references, none empty but the first one, lead back to themselves. */
  lemma Replayed(stack: seq<Segment>)
    requires RefFree(stack) && forall k | 0 < k < |stack| :: stack[k] != []
    ensures EnterAll(START, stack) == Some(Resolution(stack, stack == []))
  {
    if stack != [] {
      assert forall k | 0 <= k < |stack[1..]| :: stack[1..][k] == stack[k + 1];
      NonEmptyOfNonEmpty(stack[1..]);
      RefFreeFromStart(stack);
      assert [stack[0]] + stack[1..] == stack;
    }
  }

  /** Appending text merges it into the component that stands open. */
  lemma AppendToOutput(stack: seq<Segment>, c: Segment, y: seq<byte>)
    requires SeparatorFree(stack) && SEPARATOR !in c
    ensures Split(Flatten(stack) + c + y) == stack + ([c + Split(y)[0]] + Split(y)[1..])
  {
    SplitOutput(stack, c);
    SplitConcat(Flatten(stack) + c, y);
    assert (stack + [c])[..|stack|] == stack;
  }

  lemma AppendToInput(path: seq<byte>, front: seq<Segment>, c: Segment, y: seq<byte>)
    requires Split(path) == front + [c]
    ensures Split(path + y) == front + ([c + Split(y)[0]] + Split(y)[1..])
  {
    SplitConcat(path, y);
    assert (front + [c])[..|front|] == front;
  }

  /** Both sides of the law, from the point where the appended text starts. */
  lemma Continuations(path: seq<byte>, y: seq<byte>)
    returns (at: Resolution, stack: seq<Segment>, c: Segment, open: Segment, tail: seq<Segment>)
    requires Normal(path).Normalized? && !LeavesInnerEmpty(path)
    ensures SplitsInto(path, c, at) && stack == Closed(at, c) && open == Opened(c)
    ensures Normal(path).path == Flatten(stack) + open
    ensures tail == Split(y)[1..]
    ensures Normal(path + y) == Resolve(at, [c + Split(y)[0]] + tail)
    ensures Normal(Normal(path).path + y) == Resolve(Resolution(stack, stack == []), [open + Split(y)[0]] + tail)
  {
    var front;
    front, at, c := NormalEnds(path);
    assert Split(path)[..|Split(path)| - 1] == front;
    FinishSegments(at, c);
    stack, open, tail := Closed(at, c), Opened(c), Split(y)[1..];
    AppendToInput(path, front, c, y);
    ResolveConcat(START, front, [c + Split(y)[0]] + tail);
    AppendToOutput(stack, open, y);
    OutputIsReplayed(path, stack, open);
    ResolveConcat(START, stack, [open + Split(y)[0]] + tail);
  }

  ghost predicate SplitsInto(path: seq<byte>, c: Segment, at: Resolution) {
    var cs := Split(path);
    c == cs[|cs| - 1] && EnterAll(START, cs[..|cs| - 1]) == Some(at) && Sound(at)
  }

  /** The finished segments of an output without inner empty ones lead back to themselves. */
  lemma OutputIsReplayed(path: seq<byte>, stack: seq<Segment>, open: Segment)
    requires Normal(path).Normalized? && !LeavesInnerEmpty(path)
    requires Split(Normal(path).path) == stack + [open]
    ensures EnterAll(START, stack) == Some(Resolution(stack, stack == []))
  {
    hide LeavesInnerEmpty, Normal, EnterAll;
    IdempotentIffNoneLeft(path);
    AdjacentIsInnerEmpty(Normal(path).path);
    OutputIsRefFree(path);
    var segments := stack + [open];
    assert forall k | 0 <= k < |stack| :: stack[k] == segments[k];
    Replayed(stack);
  }

  lemma ExtendableKeeps(x: seq<byte>, c: Segment, at: Resolution)
    requires SplitsInto(x, c, at) && !IsRef(c) && Extendable(x)
    ensures at.keepEmpty == (at.stack == []) || c != []
  {
    var cs := Split(x);
    var front := cs[..|cs| - 1];
    DepthIsHeight(cs, |cs| - 1);
    if at.keepEmpty && front != [] {
      KeepAfterRef(START, front);
      assert front[|front| - 1] == cs[|cs| - 2];
    }
  }

  /** Text may be appended before or after normalization, if the path is extendable. */
  lemma ExtendableComposes(x: seq<byte>, y: seq<byte>)
    requires Normal(x).Normalized? && Extendable(x) && !LeavesInnerEmpty(x)
    ensures Normal(Normal(x).path + y) == Normal(x + y)
  {
    hide LeavesInnerEmpty, Extendable;
    var at, stack, c, open, tail := Continuations(x, y);
    EndsInNoRef(x);
    assert stack == at.stack && open == c;
    ExtendableKeeps(x, c, at);
    if c != [] {
      KeepIsIrrelevant(stack, [c + Split(y)[0]] + tail);
    }
  }

  lemma EndsInNoRef(x: seq<byte>)
    requires Extendable(x)
    ensures !IsRef(Split(x)[|Split(x)| - 1])
  {
  }

  /** After a bare reference a letter makes a name of it. */
  lemma BareReferenceFails(x: seq<byte>)
    requires Normal(x).Normalized? && !LeavesInnerEmpty(x)
    requires IsRef(Split(x)[|Split(x)| - 1])
    ensures Normal(Normal(x).path + LETTER_B) != Normal(x + LETTER_B)
  {
    var at, stack, c, open, tail := Continuations(x, LETTER_B);
    SplitName(LETTER_B);
    assert tail == [] && open + LETTER_B == LETTER_B;
    assert [c + LETTER_B] + tail == [c + LETTER_B] && [open + LETTER_B] + tail == [LETTER_B];
    assert (c + LETTER_B)[|c|] == 98;
    ResolveLast(at, c + LETTER_B);
    ResolveLast(Resolution(stack, stack == []), LETTER_B);
    assert |Flatten(stack)| <= |Flatten(at.stack)| by {
      if c == PARENT {
        assert Flatten(at.stack) == Flatten(stack) + at.stack[|at.stack| - 1] + [SEPARATOR];
      }
    }
  }

  /** After a reference and its separator one more separator closes an empty segment. */
  lemma SeparatedReferenceFails(x: seq<byte>)
    requires Normal(x).Normalized? && !LeavesInnerEmpty(x)
    requires |Split(x)| > 1 && Split(x)[|Split(x)| - 1] == [] && IsRef(Split(x)[|Split(x)| - 2])
    requires Depth(Split(x), |Split(x)| - 1) != 0
    ensures Normal(Normal(x).path + ([SEPARATOR] + LETTER_B)) != Normal(x + ([SEPARATOR] + LETTER_B))
  {
    hide LeavesInnerEmpty, Normal, Resolve, EnterAll, Split, Flatten, Depth;
    var y := [SEPARATOR] + LETTER_B;
    var at, stack, c, open, tail := Continuations(x, y);
    SplitSeparatorLetter();
    var none: Segment := [];
    assert none + none == none && [none] + tail == [none, LETTER_B];
    KeptBehindReference(x, at);
    EmptyThenLetter(at);
    EmptyThenLetter(Resolution(stack, false));
    FlattenPush(stack, none);
    assert |Flatten(at.stack + [none]) + LETTER_B| != |Flatten(stack) + LETTER_B|;
  }

  lemma KeptBehindReference(x: seq<byte>, at: Resolution)
    requires |Split(x)| > 1 && IsRef(Split(x)[|Split(x)| - 2]) && Depth(Split(x), |Split(x)| - 1) != 0
    requires EnterAll(START, Split(x)[..|Split(x)| - 1]) == Some(at)
    ensures at.keepEmpty && at.stack != []
  {
    hide EnterAll, Split;
    var cs := Split(x);
    var front := cs[..|cs| - 1];
    DepthIsHeight(cs, |cs| - 1);
    assert front[|front| - 1] == cs[|cs| - 2];
    KeepAfterRef(START, front);
  }

  lemma SplitSeparatorLetter()
    ensures Split([SEPARATOR] + LETTER_B) == [[], LETTER_B]
  {
    SplitName(LETTER_B);
    SplitAt([], LETTER_B);
    var none: Segment := [];
    assert none + [SEPARATOR] + LETTER_B == [SEPARATOR] + LETTER_B;
  }

  lemma EmptyThenLetter(at: Resolution)
    ensures Resolve(at, [[], LETTER_B]) ==
            Normalized(Flatten(if at.keepEmpty then at.stack + [[]] else at.stack) + LETTER_B)
  {
    var cs: seq<Segment> := [[], LETTER_B];
    ResolveStep(at, cs);
    assert cs[1..] == [LETTER_B];
    ResolveLast(Enter(at, []).value, LETTER_B);
  }

  /** Normalizing first commutes with appending any text exactly for extendable paths that leave no empty
      segment below the first one. */
  lemma ComposesIffExtendable(x: seq<byte>)
    requires Normal(x).Normalized?
    ensures (forall y: seq<byte> :: Normal(Normal(x).path + y) == Normal(x + y)) <==>
            Extendable(x) && !LeavesInnerEmpty(x)
  {
    hide LeavesInnerEmpty, Normal, Depth;
    if LeavesInnerEmpty(x) {
      IdempotentIffNoneLeft(x);
      AppendNothing(x);
      AppendNothing(Normal(x).path);
    } else if Extendable(x) {
      forall y: seq<byte> ensures Normal(Normal(x).path + y) == Normal(x + y) {
        ExtendableComposes(x, y);
      }
    } else if IsRef(Split(x)[|Split(x)| - 1]) {
      BareReferenceFails(x);
    } else {
      SeparatedReferenceFails(x);
    }
  }

  lemma AppendNothing(x: seq<byte>)
    ensures Normal(x + []) == Normal(x)
  {
    assert x + [] == x;
  }

  /** For well-spaced paths a look at the end of the path is enough. */
  lemma WellSpacedComposesIff(x: seq<byte>)
    requires WellSpaced(x) && Normal(x).Normalized?
    ensures (forall y: seq<byte> :: Normal(Normal(x).path + y) == Normal(x + y)) <==> Extendable(x)
  {
    hide Normal, Extendable;
    ComposesIffExtendable(x);
    CanonicalForm(x);
    IdempotentIffNoneLeft(x);
  }
}
