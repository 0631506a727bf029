/** How deep the components of a path lead, counted without resolving them. */
module FilepathDepths {
  import opened Common
  import opened FilepathScan
  import opened FilepathComponents
  import opened FilepathLaws

  /** An empty component that becomes a segment of its own: at the very start or right after a reference. */
  predicate KeptEmpty(cs: seq<Segment>, k: nat) {
    k < |cs| && cs[k] == [] && (k == 0 || IsRef(cs[k - 1]))
  }

  /** The first m components, counted: a reference to the parent is -1, one to the current directory and
      an empty component that is not kept are 0, anything else is 1. */
  function Depth(cs: seq<Segment>, m: nat): int
    requires m <= |cs|
  {
    if m == 0 then 0
    else
      var c := cs[m - 1];
      Depth(cs, m - 1)
      + if c == PARENT then -1 else if c == CURRENT || (c == [] && !KeptEmpty(cs, m - 1)) then 0 else 1
  }

  /** No prefix from k + 1 to m components leads back to the depth before component k. */
  ghost predicate StaysBelow(cs: seq<Segment>, k: nat, m: nat)
    requires k <= m <= |cs|
  {
    forall j | k < j <= m :: Depth(cs, j) > Depth(cs, k)
  }

  lemma EnterNext(cs: seq<Segment>, m: nat)
    requires 0 < m <= |cs| && EnterAll(START, cs[..m]).Some?
    ensures EnterAll(START, cs[..m - 1]).Some?
    ensures Enter(EnterAll(START, cs[..m - 1]).value, cs[m - 1]) == EnterAll(START, cs[..m])
    ensures EnterAll(START, cs[..m]).value.keepEmpty <==> IsRef(cs[m - 1])
  {
    var c: Segment := cs[m - 1];
    assert cs[..m] == cs[..m - 1] + [c];
    EnterAllConcat(START, cs[..m - 1], [c]);
    EnterOne(EnterAll(START, cs[..m - 1]).value, c);
    KeepAfterRef(START, cs[..m]);
  }

  /** What one component adds to the stack. */
  lemma EnterGrows(cs: seq<Segment>, m: nat) returns (was: seq<Segment>, now: seq<Segment>)
    requires 0 < m <= |cs| && EnterAll(START, cs[..m]).Some?
    ensures EnterAll(START, cs[..m - 1]).Some? && was == EnterAll(START, cs[..m - 1]).value.stack
    ensures now == EnterAll(START, cs[..m]).value.stack
    ensures var grown := Depth(cs, m) - Depth(cs, m - 1);
            && -1 <= grown <= 1
            && (grown == -1 ==> |was| > 0 && now == was[..|was| - 1])
            && (grown == 0 ==> now == was)
            && (grown == 1 ==> now == was + [cs[m - 1]])
            && (KeptEmpty(cs, m - 1) <==> grown == 1 && cs[m - 1] == [])
  {
    EnterNext(cs, m);
    var at := EnterAll(START, cs[..m - 1]).value;
    was, now := at.stack, EnterAll(START, cs[..m]).value.stack;
    if m > 1 {
      EnterNext(cs, m - 1);
    } else {
      assert cs[..0] == [];
    }
  }

  lemma {:induction false} DepthIsHeight(cs: seq<Segment>, m: nat)
    requires m <= |cs| && EnterAll(START, cs[..m]).Some?
    ensures |EnterAll(START, cs[..m]).value.stack| == Depth(cs, m)
  {
    if m == 0 {
      assert cs[..0] == [];
    } else {
      var was, now := EnterGrows(cs, m);
      DepthIsHeight(cs, m - 1);
    }
  }

  ghost predicate EmptyFrom(cs: seq<Segment>, m: nat, d: nat, k: nat)
    requires m <= |cs|
  {
    k < m && KeptEmpty(cs, k) && Depth(cs, k) == d && StaysBelow(cs, k, m)
  }

  /** A segment is empty exactly when a kept empty component left it there and nothing led back up to it. */
  lemma {:induction false} EmptySegments(cs: seq<Segment>, m: nat, d: nat)
    requires m <= |cs| && EnterAll(START, cs[..m]).Some?
    requires d < |EnterAll(START, cs[..m]).value.stack|
    ensures EnterAll(START, cs[..m]).value.stack[d] == [] <==> exists k: nat :: EmptyFrom(cs, m, d, k)
  {
    hide KeptEmpty, Enter, EnterAll;
    if m == 0 {
      StartIsEmpty(cs);
    } else {
      var prev := m - 1;
      var was, now := EnterGrows(cs, m);
      DepthIsHeight(cs, m);
      DepthIsHeight(cs, prev);
      if d < |was| {
        EmptySegments(cs, prev, d);
        forall k: nat ensures EmptyFrom(cs, m, d, k) == EmptyFrom(cs, prev, d, k) {
          StaysBelowNext(cs, k, m);
        }
      } else {
        if now[d] == [] {
          assert EmptyFrom(cs, m, d, prev);
        }
        forall k: nat | EmptyFrom(cs, m, d, k) ensures k == prev {
          StaysBelowNext(cs, k, m);
        }
      }
    }
  }

  lemma StartIsEmpty(cs: seq<Segment>)
    ensures EnterAll(START, cs[..0]) == Some(START)
  {
    assert cs[..0] == [];
  }

  lemma StaysBelowNext(cs: seq<Segment>, k: nat, m: nat)
    requires 0 < m <= |cs|
    ensures k < m ==> (StaysBelow(cs, k, m) <==> StaysBelow(cs, k, m - 1) && Depth(cs, m) > Depth(cs, k))
  {
  }

  lemma PrefixEnters(cs: seq<Segment>, k: nat, m: nat)
    requires k <= m <= |cs| && EnterAll(START, cs[..m]).Some?
    ensures EnterAll(START, cs[..k]).Some?
  {
    assert cs[..m] == cs[..k] + cs[k..m];
    EnterAllConcat(START, cs[..k], cs[k..m]);
  }

  lemma {:induction false} RootStays(at: Resolution, cs: seq<Segment>)
    requires at.stack != [] && at.stack[0] == [] && EnterAll(at, cs).Some?
    ensures EnterAll(at, cs).value.stack != [] && EnterAll(at, cs).value.stack[0] == []
    decreases |cs|
  {
    if cs != [] {
      RootStays(Enter(at, cs[0]).value, cs[1..]);
    }
  }

  lemma RootedStack(cs: seq<Segment>, k: nat, m: nat)
    requires k < m <= |cs| && KeptEmpty(cs, k) && Depth(cs, k) == 0 && EnterAll(START, cs[..m]).Some?
    ensures EnterAll(START, cs[..m]).value.stack != [] && EnterAll(START, cs[..m]).value.stack[0] == []
  {
    hide KeptEmpty, EnterAll;
    PrefixEnters(cs, k + 1, m);
    var was, now := EnterGrows(cs, k + 1);
    DepthIsHeight(cs, k);
    assert cs[..m] == cs[..k + 1] + cs[k + 1..m];
    EnterAllConcat(START, cs[..k + 1], cs[k + 1..m]);
    RootStays(EnterAll(START, cs[..k + 1]).value, cs[k + 1..m]);
  }

  /** The finished segments of an output are those before the last component, or all but one of them. */
  lemma OutputStack(path: seq<byte>) returns (stack: seq<Segment>, done: seq<Segment>, open: Segment)
    requires Normal(path).Normalized?
    ensures var cs := Split(path);
            var n := |cs| - 1;
            && EnterAll(START, cs[..n]).Some? && stack == EnterAll(START, cs[..n]).value.stack
            && |stack| == Depth(cs, n)
            && |done| == (if cs[n] == PARENT then Depth(cs, n + 1) else Depth(cs, n))
            && Depth(cs, n + 1) >= |done|
            && |stack| - 1 <= |done| <= |stack| && done == stack[..|done|]
            && (AtTop(stack) ==> done == stack)
    ensures Split(Normal(path).path) == done + [open]
  {
    hide Enter, EnterAll, Flatten;
    var cs := Split(path);
    var front, at, c := NormalEnds(path);
    assert cs[..|front|] == front && cs[|front|] == c;
    NormalizedLast(at, c);
    FinishSegments(at, c);
    stack, done, open := at.stack, Closed(at, c), Opened(c);
    DepthIsHeight(cs, |front|);
  }

  lemma NormalizedLast(at: Resolution, c: Segment)
    requires Finish(at, c).Normalized?
    ensures !(c == PARENT && AtTop(at.stack))
  {
  }

  // When going up fails.

  /** One of the first m components made a root. */
  ghost predicate Rooted(cs: seq<Segment>, m: nat)
    requires m <= |cs|
  {
    exists j: nat :: j < m && KeptEmpty(cs, j) && Depth(cs, j) == 0
  }

  /** Component k goes up where there is nothing to go up from. */
  ghost predicate TopParent(cs: seq<Segment>, k: nat) {
    k < |cs| && cs[k] == PARENT && Depth(cs, k) <= if Rooted(cs, k) then 1 else 0
  }

  lemma RootedIsRooted(cs: seq<Segment>, m: nat)
    requires m <= |cs| && EnterAll(START, cs[..m]).Some?
    ensures var stack := EnterAll(START, cs[..m]).value.stack;
            Rooted(cs, m) <==> stack != [] && stack[0] == []
  {
    hide KeptEmpty, EnterAll, Depth;
    var stack := EnterAll(START, cs[..m]).value.stack;
    if stack != [] && stack[0] == [] {
      EmptySegments(cs, m, 0);
    }
    if j: nat :| j < m && KeptEmpty(cs, j) && Depth(cs, j) == 0 {
      RootedStack(cs, j, m);
    }
  }

  lemma TopParentIsAtTop(cs: seq<Segment>, k: nat)
    requires k < |cs| && EnterAll(START, cs[..k]).Some?
    ensures TopParent(cs, k) <==> cs[k] == PARENT && AtTop(EnterAll(START, cs[..k]).value.stack)
  {
    hide EnterAll, Rooted, Depth;
    RootedIsRooted(cs, k);
    DepthIsHeight(cs, k);
    var stack := EnterAll(START, cs[..k]).value.stack;
    assert |stack| == 1 ==> stack == [stack[0]];
  }

  lemma {:induction false} PrefixFailsIff(cs: seq<Segment>, m: nat)
    requires m <= |cs|
    ensures EnterAll(START, cs[..m]) == None <==> exists k: nat :: k < m && TopParent(cs, k)
  {
    hide EnterAll, TopParent, AtTop;
    if m == 0 {
      StartIsEmpty(cs);
    } else {
      var prev := m - 1;
      PrefixFailsIff(cs, prev);
      assert cs[..m] == cs[..prev] + [cs[prev]];
      EnterAllConcat(START, cs[..prev], [cs[prev]]);
      if EnterAll(START, cs[..prev]).Some? {
        EnterOne(EnterAll(START, cs[..prev]).value, cs[prev]);
        TopParentIsAtTop(cs, prev);
      }
    }
  }

  ghost predicate GoesAbove(cs: seq<Segment>) {
    exists k: nat :: TopParent(cs, k)
  }

  /** A path, spaced in whichever way, is invalid exactly when some `..` has nothing to go up from. */
  lemma InvalidIffGoesAbove(path: seq<byte>)
    ensures Normal(path) == Invalid <==> GoesAbove(Split(path))
    ensures Normal(path).Normalized? || Normal(path) == Invalid
  {
    hide EnterAll, Depth, Rooted, AtTop;
    var cs := Split(path);
    var n: nat := |cs| - 1;
    PrefixFailsIff(cs, n);
    if EnterAll(START, cs[..n]).Some? {
      TopParentIsAtTop(cs, n);
      FailsAtLast(EnterAll(START, cs[..n]).value, cs[n]);
      assert forall k: nat | TopParent(cs, k) :: k == n || k < n;
    }
  }

  lemma FailsAtLast(at: Resolution, c: Segment)
    ensures Finish(at, c) == Invalid <==> c == PARENT && AtTop(at.stack)
    ensures Finish(at, c).Normalized? || Finish(at, c) == Invalid
  {
  }
}
