/** What normalization means, and the laws it obeys. */
module FilepathLaws {
  import opened Common
  import opened FilepathScan
  import opened FilepathComponents

  predicate Absolute(path: seq<byte>) {
    path != [] && path[0] == SEPARATOR
  }

  /** No `.` or `..` component is followed by two or more separators. */
  ghost predicate WellSpaced(path: seq<byte>) {
    Spaced(Split(path)[..|Split(path)| - 1])
  }

  /** The same, on the components that a separator follows. */
  ghost predicate Spaced(cs: seq<Segment>) {
    forall k | 0 <= k < |cs| - 1 :: IsRef(cs[k]) ==> cs[k + 1] != []
  }

  ghost predicate RefFree(cs: seq<Segment>) {
    forall k | 0 <= k < |cs| :: !IsRef(cs[k])
  }

  ghost predicate Proper(cs: seq<Segment>) {
    forall k | 0 <= k < |cs| :: cs[k] != [] && !IsRef(cs[k])
  }

  ghost predicate AdjacentSeparators(s: seq<byte>) {
    exists i :: 0 <= i < |s| - 1 && s[i] == SEPARATOR && s[i + 1] == SEPARATOR
  }

  function NonEmpty(cs: seq<Segment>): seq<Segment> {
    if cs == [] then []
    else (if cs[0] == [] then [] else [cs[0]]) + NonEmpty(cs[1..])
  }

  function Names(path: seq<byte>): seq<Segment> {
    NonEmpty(Split(path))
  }

  /** Lexical resolution: `.` stays, `..` goes up, any other name goes down. */
  function Lexical(below: seq<Segment>, names: seq<Segment>): Option<seq<Segment>>
    decreases |names|
  {
    if names == [] then Some(below)
    else if names[0] == CURRENT then Lexical(below, names[1..])
    else if names[0] == PARENT then
      if below == [] then None else Lexical(below[..|below| - 1], names[1..])
    else Lexical(below + [names[0]], names[1..])
  }

  /** Ordinary names minus parent references. */
  function Level(names: seq<Segment>): int {
    if names == [] then 0
    else (if names[0] == CURRENT then 0 else if names[0] == PARENT then -1 else 1) + Level(names[1..])
  }

  // Stacks, components and text.

  lemma {:induction false} JoinConcat(a: seq<Segment>, b: seq<Segment>)
    requires b != []
    ensures Join(a + b) == Flatten(a) + Join(b)
    decreases |a|
  {
    if a == [] {
      assert a + b == b;
    } else {
      var a', x := a[..|a| - 1], a[|a| - 1];
      JoinConcat(a', [x] + b);
      assert a + b == a' + ([x] + b);
      JoinCons(x, b);
      assert Flatten(a) == Flatten(a') + x + [SEPARATOR];
    }
  }

  lemma JoinCons(c: Segment, cs: seq<Segment>)
    requires cs != []
    ensures Join([c] + cs) == c + [SEPARATOR] + Join(cs)
  {
    assert ([c] + cs)[1..] == cs;
  }

  /** The components of an output are the segments it was made of. */
  lemma SplitOutput(stack: seq<Segment>, c: Segment)
    requires SeparatorFree(stack) && SEPARATOR !in c
    ensures Split(Flatten(stack) + c) == stack + [c]
  {
    JoinConcat(stack, [c]);
    JoinSplit(stack + [c]);
  }

  lemma JoinPrepend(c: Segment, d: Segment, t: seq<Segment>)
    ensures Join([c + d] + t) == c + Join([d] + t)
  {
    assert ([c + d] + t)[1..] == t && ([d] + t)[1..] == t;
    if t != [] {
      assert (c + d) + [SEPARATOR] + Join(t) == c + (d + [SEPARATOR] + Join(t));
    }
  }

  lemma JoinMerged(front: seq<Segment>, c: Segment, d: Segment, tail: seq<Segment>)
    ensures Join(front + ([c + d] + tail)) == Join(front + [c]) + Join([d] + tail)
  {
    JoinConcat(front, [c]);
    JoinConcat(front, [c + d] + tail);
    JoinPrepend(c, d, tail);
    assert Flatten(front) + (c + Join([d] + tail)) == Flatten(front) + c + Join([d] + tail);
  }

  /** Concatenation merges the last component with the first one. */
  lemma SplitConcat(x: seq<byte>, y: seq<byte>)
    ensures var n := |Split(x)| - 1;
            Split(x + y) == Split(x)[..n] + ([Split(x)[n] + Split(y)[0]] + Split(y)[1..])
  {
    SplitJoin(x);
    SplitJoin(y);
    var n := |Split(x)| - 1;
    var front, c, d, tail := Split(x)[..n], Split(x)[n], Split(y)[0], Split(y)[1..];
    assert front + [c] == Split(x) && [d] + tail == Split(y);
    JoinMerged(front, c, d, tail);
    SplitOfMerged(front, c, d, tail);
  }

  lemma SplitOfMerged(front: seq<Segment>, c: Segment, d: Segment, tail: seq<Segment>)
    requires SeparatorFree(front + [c]) && SeparatorFree([d] + tail)
    ensures Split(Join(front + ([c + d] + tail))) == front + ([c + d] + tail)
  {
    var all := front + ([c + d] + tail);
    forall i | 0 <= i < |all| ensures SEPARATOR !in all[i] {
      if i < |front| {
        assert all[i] == (front + [c])[i];
      } else if i == |front| {
        assert (front + [c])[i] == c && ([d] + tail)[0] == d;
      } else {
        assert all[i] == ([d] + tail)[i - |front|];
      }
    }
    JoinSplit(all);
  }

  // Invariants of resolution.

  ghost predicate Sound(at: Resolution) {
    RefFree(at.stack) && SeparatorFree(at.stack) && (at.stack == [] ==> at.keepEmpty)
  }

  lemma {:induction false} EnterAllSound(at: Resolution, cs: seq<Segment>)
    requires Sound(at) && SeparatorFree(cs)
    ensures EnterAll(at, cs).Some? ==> Sound(EnterAll(at, cs).value)
    decreases |cs|
  {
    if cs != [] && Enter(at, cs[0]).Some? {
      EnterAllSound(Enter(at, cs[0]).value, cs[1..]);
    }
  }

  lemma EnterOne(at: Resolution, c: Segment)
    ensures EnterAll(at, [c]) == Enter(at, c)
  {
    var cs: seq<Segment> := [c];
    assert |cs[1..]| == 0;
  }

  /** An empty component is kept only at the start and after a reference. */
  lemma KeepAfterRef(at: Resolution, cs: seq<Segment>)
    requires cs != [] && EnterAll(at, cs).Some?
    ensures IsRef(cs[|cs| - 1]) ==> EnterAll(at, cs).value.keepEmpty
    ensures EnterAll(at, cs).value.keepEmpty ==> IsRef(cs[|cs| - 1])
  {
    var front, c := cs[..|cs| - 1], cs[|cs| - 1];
    assert cs == front + [c];
    EnterAllConcat(at, front, [c]);
    var mid := EnterAll(at, front).value;
    EnterOne(mid, c);
  }

  /** Before a component that is not empty it does not matter whether an empty one would be kept. */
  lemma KeepIsIrrelevant(stack: seq<Segment>, cs: seq<Segment>)
    requires cs != [] && (cs[0] != [] || |cs| == 1)
    ensures Resolve(Resolution(stack, true), cs) == Resolve(Resolution(stack, false), cs)
  {
    if |cs| > 1 {
      ResolveStep(Resolution(stack, true), cs);
      ResolveStep(Resolution(stack, false), cs);
    }
  }

  /** Where the components of a successful path led before the last one. */
  lemma NormalEnds(path: seq<byte>) returns (front: seq<Segment>, at: Resolution, c: Segment)
    requires Normal(path).Normalized?
    ensures Split(path) == front + [c] && SEPARATOR !in c
    ensures EnterAll(START, front) == Some(at) && Finish(at, c) == Normal(path)
    ensures Sound(at)
  {
    var cs := Split(path);
    SplitJoin(path);
    front, c := cs[..|cs| - 1], cs[|cs| - 1];
    at := EnterAll(START, front).value;
    EnterAllSound(START, front);
  }

  /** The finished segments after the last component, and what stands open behind them. */
  function Closed(at: Resolution, c: Segment): seq<Segment> {
    if c == PARENT && at.stack != [] then at.stack[..|at.stack| - 1] else at.stack
  }

  function Opened(c: Segment): Segment {
    if IsRef(c) then [] else c
  }

  lemma FinishSegments(at: Resolution, c: Segment)
    requires Sound(at) && SEPARATOR !in c && !(c == PARENT && AtTop(at.stack))
    ensures var path := Flatten(Closed(at, c)) + Opened(c);
            Finish(at, c) == Normalized(path) && Split(path) == Closed(at, c) + [Opened(c)]
  {
    assert Flatten(Closed(at, c)) + [] == Flatten(Closed(at, c));
    SplitOutput(Closed(at, c), Opened(c));
  }

  /** The segments of a successful output; none of them is a reference. */
  lemma OutputSegments(path: seq<byte>) returns (stack: seq<Segment>, c: Segment)
    requires Normal(path).Normalized?
    ensures Normal(path).path == Flatten(stack) + c
    ensures Split(Normal(path).path) == stack + [c]
    ensures RefFree(stack + [c]) && SeparatorFree(stack + [c])
  {
    var front, at, last := NormalEnds(path);
    FinishSegments(at, last);
    stack, c := Closed(at, last), Opened(last);
  }

  // Meaning on well-spaced paths.

  ghost predicate IsRoot(root: seq<Segment>) {
    root == [] || root == [[]]
  }

  lemma AtTopOfRoot(root: seq<Segment>, below: seq<Segment>)
    requires IsRoot(root) && Proper(below)
    ensures AtTop(root + below) <==> below == []
  {
    if below != [] {
      assert (root + below)[|root|] == below[0];
    } else {
      assert root + below == root;
    }
  }

  lemma NonEmptyCons(c: Segment, cs: seq<Segment>)
    ensures NonEmpty([c] + cs) == (if c == [] then [] else [c]) + NonEmpty(cs)
  {
    assert ([c] + cs)[1..] == cs;
  }

  lemma {:induction false} NonEmptyConcat(a: seq<Segment>, b: seq<Segment>)
    ensures NonEmpty(a + b) == NonEmpty(a) + NonEmpty(b)
    decreases |a|
  {
    if a == [] {
      assert a + b == b;
    } else {
      hide NonEmpty;
      var c, rest := a[0], a[1..];
      NonEmptyConcat(rest, b);
      NonEmptyCons(c, rest);
      NonEmptyCons(c, rest + b);
      assert a == [c] + rest && a + b == [c] + (rest + b);
      var head: seq<Segment> := if c == [] then [] else [c];
      assert head + (NonEmpty(rest) + NonEmpty(b)) == head + NonEmpty(rest) + NonEmpty(b);
    }
  }

  lemma {:induction false} NonEmptyOfNonEmpty(cs: seq<Segment>)
    ensures |NonEmpty(cs)| <= |cs|
    ensures NonEmpty(cs) == cs <==> forall k | 0 <= k < |cs| :: cs[k] != []
    ensures RefFree(cs) ==> RefFree(NonEmpty(cs))
    ensures SeparatorFree(cs) ==> SeparatorFree(NonEmpty(cs))
    ensures forall k | 0 <= k < |NonEmpty(cs)| :: NonEmpty(cs)[k] != []
  {
    if cs != [] {
      NonEmptyOfNonEmpty(cs[1..]);
      var rest := NonEmpty(cs[1..]);
      if cs[0] == [] {
        assert NonEmpty(cs) == rest;
      } else {
        assert NonEmpty(cs) == [cs[0]] + rest;
        assert NonEmpty(cs)[1..] == rest;
        assert cs == [cs[0]] + cs[1..];
      }
    }
  }

  lemma {:induction false} LexicalConcat(below: seq<Segment>, a: seq<Segment>, b: seq<Segment>)
    ensures Lexical(below, a + b) == match Lexical(below, a) case None => None case Some(mid) => Lexical(mid, b)
    decreases |a|
  {
    if a == [] {
      assert a + b == b;
    } else {
      assert (a + b)[1..] == a[1..] + b;
      if a[0] == PARENT {
        if below != [] {
          LexicalConcat(below[..|below| - 1], a[1..], b);
        }
      } else {
        LexicalConcat(if a[0] == CURRENT then below else below + [a[0]], a[1..], b);
      }
    }
  }

  lemma LexicalOne(below: seq<Segment>, c: Segment)
    ensures Lexical(below, NonEmpty([c])) ==
            if c == PARENT then if below == [] then None else Some(below[..|below| - 1])
            else Some(if c == [] || c == CURRENT then below else below + [c])
  {
    var one: seq<Segment> := [c];
    assert |one[1..]| == 0;
    assert NonEmpty([c]) == if c == [] then [] else [c];
  }

  /** One component, on the stack and lexically. */
  lemma EnterIsLexical(at: Resolution, c: Segment, root: seq<Segment>, below: seq<Segment>)
    requires IsRoot(root) && Proper(below) && at.stack == root + below
    requires c == [] ==> !at.keepEmpty
    ensures match Lexical(below, NonEmpty([c]))
            case None => Enter(at, c) == None
            case Some(next) =>
              && Proper(next) && Enter(at, c).Some? && Enter(at, c).value.stack == root + next
              && (Enter(at, c).value.keepEmpty ==> IsRef(c))
  {
    AtTopOfRoot(root, below);
    LexicalOne(below, c);
    if c == PARENT {
      if below != [] {
        assert at.stack[..|at.stack| - 1] == root + below[..|below| - 1];
      }
    } else if c != [] && c != CURRENT {
      assert at.stack + [c] == root + (below + [c]);
    }
  }

  /** On spaced components the stack is the root followed by what lexical resolution yields. */
  lemma {:induction false} EnterAllIsLexical(
    at: Resolution, cs: seq<Segment>, root: seq<Segment>, below: seq<Segment>)
    requires IsRoot(root) && Proper(below) && at.stack == root + below
    requires Spaced(cs) && (cs != [] && cs[0] == [] ==> !at.keepEmpty)
    ensures match Lexical(below, NonEmpty(cs))
            case None => EnterAll(at, cs) == None
            case Some(ns) => EnterAll(at, cs).Some? && EnterAll(at, cs).value.stack == root + ns && Proper(ns)
    decreases |cs|
  {
    if cs != [] {
      var c, rest := cs[0], cs[1..];
      assert cs == [c] + rest;
      NonEmptyConcat([c], rest);
      LexicalConcat(below, NonEmpty([c]), NonEmpty(rest));
      EnterIsLexical(at, c, root, below);
      if Enter(at, c).Some? {
        assert rest != [] ==> rest[0] == cs[1];
        EnterAllIsLexical(Enter(at, c).value, rest, root, Lexical(below, NonEmpty([c])).value);
      }
    }
  }
}
