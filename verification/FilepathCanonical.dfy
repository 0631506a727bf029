/** When the output of the normalizer is canonical, and when it is absolute, for every path. */
module FilepathCanonical {
  import opened Common
  import opened FilepathScan
  import opened FilepathComponents
  import opened FilepathLaws
  import opened FilepathDepths

  // Canonical form and idempotence.

  ghost predicate InnerNonEmpty(cs: seq<Segment>) {
    forall k | 0 < k < |cs| - 1 :: cs[k] != []
  }

  /** Two separators in a row enclose an empty component. */
  lemma {:induction false} AdjacentIsInnerEmpty(s: seq<byte>)
    ensures AdjacentSeparators(s) <==> !InnerNonEmpty(Split(s))
    decreases |s|
  {
    var w, rest := FirstComponent(s);
    if |Split(s)| > 1 {
      AdjacentIsInnerEmpty(rest);
      var v, _ := FirstComponent(rest);
      InnerOfCons(w, Split(rest));
      AdjacentOfCons(w, rest);
      assert rest != [] && rest[0] == SEPARATOR <==> v == [] && |Split(rest)| > 1;
    }
  }

  lemma InnerOfCons(w: Segment, cs: seq<Segment>)
    requires cs != []
    ensures InnerNonEmpty([w] + cs) <==> InnerNonEmpty(cs) && (|cs| > 1 ==> cs[0] != [])
  {
    var all := [w] + cs;
    if InnerNonEmpty(all) {
      forall k | 0 <= k < |cs| - 1 ensures cs[k] != [] {
        assert cs[k] == all[k + 1];
      }
    }
  }

  lemma AdjacentOfCons(w: Segment, rest: seq<byte>)
    requires SEPARATOR !in w
    ensures AdjacentSeparators(w + [SEPARATOR] + rest) <==>
            AdjacentSeparators(rest) || (rest != [] && rest[0] == SEPARATOR)
  {
    var s := w + [SEPARATOR] + rest;
    var n := |w| + 1;
    assert s[n - 1] == SEPARATOR;
    assert forall i | 0 <= i < |rest| :: s[n + i] == rest[i];
    assert forall i | 0 <= i < |w| :: s[i] == w[i] && w[i] in w;
    if AdjacentSeparators(s) {
      var i :| 0 <= i < |s| - 1 && s[i] == SEPARATOR && s[i + 1] == SEPARATOR;
      assert i >= n - 1;
      if i >= n {
        assert rest[i - n] == SEPARATOR && rest[i - n + 1] == SEPARATOR;
      }
    }
    if AdjacentSeparators(rest) {
      var i :| 0 <= i < |rest| - 1 && rest[i] == SEPARATOR && rest[i + 1] == SEPARATOR;
      assert s[n + i] == SEPARATOR && s[n + i + 1] == SEPARATOR;
    }
  }

  lemma RefFreeEnter(at: Resolution, c: Segment)
    requires !IsRef(c) && !at.keepEmpty
    ensures Enter(at, c) == Some(Resolution(at.stack + NonEmpty([c]), false))
  {
    NonEmptyOne(c);
    assert at.stack + [] == at.stack;
  }

  lemma NonEmptyOne(c: Segment)
    ensures NonEmpty([c]) == if c == [] then [] else [c]
  {
    var one: seq<Segment> := [c];
    assert |one[1..]| == 0;
  }

  /** Without references only the empty components in between are dropped. */
  lemma {:induction false} RefFreeEnterAll(at: Resolution, cs: seq<Segment>)
    requires RefFree(cs) && !at.keepEmpty
    ensures EnterAll(at, cs) == Some(Resolution(at.stack + NonEmpty(cs), false))
    decreases |cs|
  {
    hide Enter, IsRef;
    if cs == [] {
      assert at.stack + [] == at.stack;
    } else {
      var c, rest := cs[0], cs[1..];
      RefFreeEnter(at, c);
      RefFreeEnterAll(Enter(at, c).value, rest);
      NonEmptyConcat([c], rest);
      assert [c] + rest == cs;
      assert at.stack + (NonEmpty([c]) + NonEmpty(rest)) == at.stack + NonEmpty([c]) + NonEmpty(rest);
    }
  }

  lemma RefFreeFromStart(cs: seq<Segment>)
    requires RefFree(cs) && cs != []
    ensures EnterAll(START, cs) == Some(Resolution([cs[0]] + NonEmpty(cs[1..]), false))
  {
    assert START.stack + [cs[0]] == [cs[0]];
    RefFreeEnterAll(Resolution([cs[0]], false), cs[1..]);
  }

  function Squeezed(cs: seq<Segment>): seq<Segment>
    requires cs != []
  {
    if |cs| == 1 then cs else [cs[0]] + NonEmpty(cs[1..|cs| - 1]) + [cs[|cs| - 1]]
  }

  lemma SqueezedIsInnerNonEmpty(cs: seq<Segment>)
    requires cs != []
    ensures Squeezed(cs) != [] && InnerNonEmpty(Squeezed(cs))
    ensures Squeezed(cs) == cs <==> InnerNonEmpty(cs)
    ensures RefFree(cs) ==> RefFree(Squeezed(cs))
  {
    hide NonEmpty, RefFree, IsRef;
    if |cs| > 1 {
      var first, inner, last := cs[0], cs[1..|cs| - 1], cs[|cs| - 1];
      NonEmptyOfNonEmpty(inner);
      assert cs == [first] + inner + [last];
      InnerOf(first, inner, last);
      InnerOf(first, NonEmpty(inner), last);
      RefFreeInner(first, inner, last);
      RefFreeInner(first, NonEmpty(inner), last);
    }
  }

  lemma InnerOf(first: Segment, inner: seq<Segment>, last: Segment)
    ensures InnerNonEmpty([first] + inner + [last]) <==> forall k | 0 <= k < |inner| :: inner[k] != []
    ensures ([first] + inner + [last])[1..|inner| + 1] == inner
  {
    var cs := [first] + inner + [last];
    assert forall k | 0 <= k < |inner| :: inner[k] == cs[k + 1];
    assert forall k | 0 < k < |cs| - 1 :: cs[k] == inner[k - 1];
  }

  lemma RefFreeInner(first: Segment, inner: seq<Segment>, last: Segment)
    ensures RefFree([first] + inner + [last]) <==> !IsRef(first) && RefFree(inner) && !IsRef(last)
  {
    hide IsRef;
    var cs := [first] + inner + [last];
    assert cs[0] == first && cs[|inner| + 1] == last;
    assert forall k | 0 <= k < |inner| :: inner[k] == cs[k + 1];
  }

  /** Normalizing a path without references squeezes its separators. */
  lemma NormalOfRefFree(r: seq<byte>)
    requires RefFree(Split(r))
    ensures Normal(r).Normalized? && Split(Normal(r).path) == Squeezed(Split(r))
  {
    var cs := Split(r);
    SplitJoin(r);
    var front, c := cs[..|cs| - 1], cs[|cs| - 1];
    if front == [] {
      assert EnterAll(START, front) == Some(START);
    } else {
      RefFreeFromStart(front);
      assert front[1..] == cs[1..|cs| - 1];
    }
    var at := EnterAll(START, front).value;
    EnterAllSound(START, front);
    FinishSegments(at, c);
  }

  lemma SplitIsInjective(a: seq<byte>, b: seq<byte>)
    requires Split(a) == Split(b)
    ensures a == b
  {
    SplitJoin(a);
    SplitJoin(b);
  }

  /** No output contains a reference. */
  lemma OutputIsRefFree(path: seq<byte>)
    requires Normal(path).Normalized?
    ensures RefFree(Split(Normal(path).path))
  {
    var stack, c := OutputSegments(path);
  }

  /** An output is a fixed point exactly when it has no adjacent separators. */
  lemma FixedPointIffNoAdjacentSeparators(path: seq<byte>)
    requires Normal(path).Normalized?
    ensures Normal(Normal(path).path) == Normal(path) <==> !AdjacentSeparators(Normal(path).path)
  {
    var r := Normal(path).path;
    OutputIsRefFree(path);
    NormalOfRefFree(r);
    SqueezedIsInnerNonEmpty(Split(r));
    AdjacentIsInnerEmpty(r);
    if Split(Normal(r).path) == Split(r) {
      SplitIsInjective(Normal(r).path, r);
    }
  }

  /** Whatever the spacing of the input, normalizing twice reaches a canonical fixed point. */
  lemma TwiceIsCanonical(path: seq<byte>)
    requires Normal(path).Normalized?
    ensures var again := Normal(Normal(path).path);
            && again.Normalized?
            && !AdjacentSeparators(again.path) && RefFree(Split(again.path))
            && Normal(again.path) == again
  {
    var r := Normal(path).path;
    OutputIsRefFree(path);
    NormalOfRefFree(r);
    SqueezedIsInnerNonEmpty(Split(r));
    AdjacentIsInnerEmpty(Normal(r).path);
    OutputIsRefFree(r);
    FixedPointIffNoAdjacentSeparators(r);
  }

  /** Component k leaves an empty segment in the output. */
  ghost predicate LeavesEmpty(path: seq<byte>, k: nat) {
    var cs := Split(path);
    k < |cs| - 1 && KeptEmpty(cs, k) && StaysBelow(cs, k, |cs|)
  }

  /** The empty segments of an output are those that the path left there. */
  lemma EmptyOutputSegments(path: seq<byte>, d: nat)
    requires Normal(path).Normalized? && d < |Split(Normal(path).path)| - 1
    ensures Split(Normal(path).path)[d] == [] <==>
            exists k: nat :: LeavesEmpty(path, k) && Depth(Split(path), k) == d
  {
    hide Normal, EnterAll, KeptEmpty, Depth, AtTop;
    var cs := Split(path);
    var n := |cs| - 1;
    var stack, done, open := OutputStack(path);
    EmptySegments(cs, n, d);
    forall k: nat ensures EmptyFrom(cs, n, d, k) <==> LeavesEmpty(path, k) && Depth(cs, k) == d {
      if k < n && Depth(cs, k) == d {
        LastStaysBelow(cs, k, d);
      }
    }
  }

  lemma LastStaysBelow(cs: seq<Segment>, k: nat, d: nat)
    requires k < |cs| - 1 && Depth(cs, k) == d
    requires d < if cs[|cs| - 1] == PARENT then Depth(cs, |cs|) else Depth(cs, |cs| - 1)
    ensures StaysBelow(cs, k, |cs|) <==> StaysBelow(cs, k, |cs| - 1)
  {
    StaysBelowNext(cs, k, |cs|);
  }

  /** Some component leaves an empty segment below the first one. */
  ghost predicate LeavesInnerEmpty(path: seq<byte>) {
    exists k: nat :: LeavesEmpty(path, k) && Depth(Split(path), k) > 0
  }

  /** Normalizing is idempotent on exactly the paths that leave no empty segment below the first one. */
  lemma IdempotentIffNoneLeft(path: seq<byte>)
    requires Normal(path).Normalized?
    ensures Normal(Normal(path).path) == Normal(path) <==> !LeavesInnerEmpty(path)
    ensures AdjacentSeparators(Normal(path).path) <==> LeavesInnerEmpty(path)
  {
    hide KeptEmpty;
    var segments := Split(Normal(path).path);
    FixedPointIffNoAdjacentSeparators(path);
    AdjacentIsInnerEmpty(Normal(path).path);
    if !InnerNonEmpty(segments) {
      var d :| 0 < d < |segments| - 1 && segments[d] == [];
      EmptyOutputSegments(path, d);
    }
    if k: nat :| LeavesEmpty(path, k) && Depth(Split(path), k) > 0 {
      LeftIsInside(path, k);
      EmptyOutputSegments(path, Depth(Split(path), k));
    }
  }

  /** The segment that a component leaves is one of the finished ones. */
  lemma LeftIsInside(path: seq<byte>, k: nat)
    requires Normal(path).Normalized? && LeavesEmpty(path, k)
    ensures 0 <= Depth(Split(path), k) < |Split(Normal(path).path)| - 1
  {
    hide Normal, EnterAll, KeptEmpty, Depth, AtTop;
    var cs := Split(path);
    var n := |cs| - 1;
    var stack, done, open := OutputStack(path);
    PrefixEnters(cs, k, n);
    DepthIsHeight(cs, k);
    assert Depth(cs, n) > Depth(cs, k) && Depth(cs, n + 1) > Depth(cs, k);
  }

  /** Only spacing can leave one: well-spaced paths reach their canonical form at once. */
  lemma CanonicalForm(path: seq<byte>)
    requires WellSpaced(path) && Normal(path).Normalized?
    ensures !AdjacentSeparators(Normal(path).path) && RefFree(Split(Normal(path).path))
    ensures Normal(Normal(path).path) == Normal(path)
  {
    IdempotentIffNoneLeft(path);
    OutputIsRefFree(path);
    WellSpacedKeepsNone(path);
  }

  lemma WellSpacedKeepsNone(path: seq<byte>)
    requires WellSpaced(path)
    ensures forall k: nat | 0 < k < |Split(path)| - 1 :: !KeptEmpty(Split(path), k)
  {
    var cs := Split(path);
    var front := cs[..|cs| - 1];
    forall k: nat | 0 < k < |cs| - 1 ensures !KeptEmpty(cs, k) {
      assert front[k - 1] == cs[k - 1] && front[k] == cs[k];
    }
  }

  // The root.

  /** Some component is kept, empty, where nothing is in front of it. */
  ghost predicate Roots(path: seq<byte>, k: nat) {
    k < |Split(path)| - 1 && KeptEmpty(Split(path), k) && Depth(Split(path), k) == 0
  }

  /** An output is absolute exactly when some component made a root, which `..` never removes. */
  lemma AbsoluteIffRooted(path: seq<byte>)
    requires Normal(path).Normalized?
    ensures Absolute(Normal(path).path) <==> exists k: nat :: Roots(path, k)
  {
    var r := Normal(path).path;
    AbsoluteSegments(r);
    if Absolute(r) {
      EmptyOutputSegments(path, 0);
      var k: nat :| LeavesEmpty(path, k) && Depth(Split(path), k) == 0;
      assert Roots(path, k);
    }
    if k: nat :| Roots(path, k) {
      RootedIsAbsolute(path, k);
    }
  }

  lemma AbsoluteSegments(r: seq<byte>)
    ensures Absolute(r) <==> |Split(r)| > 1 && Split(r)[0] == []
  {
    var w, rest := FirstComponent(r);
  }

  lemma RootedIsAbsolute(path: seq<byte>, k: nat)
    requires Normal(path).Normalized? && Roots(path, k)
    ensures |Split(Normal(path).path)| > 1 && Split(Normal(path).path)[0] == []
  {
    hide Normal, EnterAll, KeptEmpty, Depth;
    var stack, done, open := OutputStack(path);
    RootedStack(Split(path), k, |Split(path)| - 1);
    assert |stack| == 1 ==> stack == [[]];
  }

  /** Well-spaced paths stay absolute or relative. */
  lemma OutputKeepsRoot(path: seq<byte>)
    requires WellSpaced(path) && Normal(path).Normalized?
    ensures Absolute(Normal(path).path) <==> Absolute(path)
  {
    AbsoluteIffRooted(path);
    AbsoluteSegments(path);
    WellSpacedKeepsNone(path);
    assert Absolute(path) ==> Roots(path, 0);
  }

  const LETTER_A: Segment := [97]
  const LETTER_B: Segment := [98]

  /** `a/.//b`: the skip eats one separator, and the other one closes an empty segment. */
  lemma SpacingMatters()
    ensures var path := LETTER_A + [SEPARATOR] + (CURRENT + [SEPARATOR] + ([] + [SEPARATOR] + LETTER_B));
            Normal(path) == Normalized([97, SEPARATOR, SEPARATOR, 98]) && !WellSpaced(path)
  {
    hide Split, Resolve, EnterAll;
    var none: Segment := [];
    SplitName(LETTER_B);
    SplitAt(none, LETTER_B);
    var tail := none + [SEPARATOR] + LETTER_B;
    SplitAt(CURRENT, tail);
    SplitAt(LETTER_A, CURRENT + [SEPARATOR] + tail);
    var cs := [LETTER_A] + ([CURRENT] + ([none] + [LETTER_B]));
    assert cs[..3][1] == CURRENT && cs[..3][2] == none;
    ResolveCons(START, LETTER_A, [CURRENT] + ([none] + [LETTER_B]));
    assert START.stack + [LETTER_A] == [LETTER_A];
    ResolveCons(Resolution([LETTER_A], false), CURRENT, [none] + [LETTER_B]);
    ResolveCons(Resolution([LETTER_A], true), none, [LETTER_B]);
    ResolveLast(Resolution([LETTER_A] + [none], false), LETTER_B);
    FlattenPush([], LETTER_A);
    FlattenPush([LETTER_A], none);
  }

  /** `.//a`: the same makes a relative path absolute. */
  lemma RootAppears()
    ensures var path := CURRENT + [SEPARATOR] + ([] + [SEPARATOR] + LETTER_A);
            !Absolute(path) && Normal(path) == Normalized([SEPARATOR, 97])
  {
    hide Split, Resolve, EnterAll, Flatten;
    var none: Segment := [];
    SplitName(LETTER_A);
    SplitAt(none, LETTER_A);
    SplitAt(CURRENT, none + [SEPARATOR] + LETTER_A);
    ResolveCons(START, CURRENT, [none] + [LETTER_A]);
    ResolveCons(START, none, [LETTER_A]);
    ResolveLast(Resolution(START.stack + [none], false), LETTER_A);
    FlattenPush(START.stack, none);
    FlattenTop(START.stack);
    assert [SEPARATOR] + LETTER_A == [SEPARATOR, 97];
  }
}
