/** The laws of normalization into a buffer that is large enough. */
module FilepathTheorems {
  import opened Common
  import opened FilepathScan
  import opened FilepathComponents
  import opened FilepathLaws

  // Meaning.

  function Root(path: seq<byte>): seq<Segment> {
    if Absolute(path) then [[]] else []
  }

  /** What stands behind the last name: nothing when the path ends in a name, else the end of a separator. */
  function Ending(path: seq<byte>): seq<Segment> {
    EndingOf(Split(path)[|Split(path)| - 1])
  }

  function EndingOf(last: Segment): seq<Segment> {
    if last == [] || IsRef(last) then [[]] else []
  }

  /** The components before the last one lead to the root and the names resolved so far. */
  lemma FrontIsLexical(path: seq<byte>, front: seq<Segment>, c: Segment)
    requires WellSpaced(path) && path != []
    requires Split(path) == front + [c]
    ensures match Lexical([], NonEmpty(front))
            case None => EnterAll(START, front) == None
            case Some(ns) =>
              EnterAll(START, front).Some? && EnterAll(START, front).value.stack == Root(path) + ns && Proper(ns)
  {
    assert front == Split(path)[..|Split(path)| - 1];
    var w, rest := FirstComponent(path);
    if Absolute(path) {
      assert w == [] && |Split(path)| > 1;
      var next := Resolution([[]], false);
      assert Enter(START, []) == Some(next) by {
        assert START.stack + [[]] == [[]];
      }
      assert front[0] == [] && NonEmpty(front) == NonEmpty(front[1..]);
      assert next.stack + START.stack == [[]];
      EnterAllIsLexical(next, front[1..], [[]], []);
    } else {
      assert front != [] ==> front[0] == w;
      EnterAllIsLexical(START, front, [], []);
      assert forall ns: seq<Segment> :: Root(path) + ns == ns;
    }
  }

  /** On well-spaced paths normalization is lexical resolution, and it keeps the root. */
  lemma Meaning(path: seq<byte>)
    requires WellSpaced(path) && path != []
    ensures match Lexical([], Names(path))
            case None => Normal(path) == Invalid
            case Some(ns) =>
              && Normal(path).Normalized?
              && Split(Normal(path).path) == Root(path) + ns + Ending(path)
              && Names(Normal(path).path) == ns
              && Proper(ns)
  {
    var cs := Split(path);
    var front, c := cs[..|cs| - 1], cs[|cs| - 1];
    assert cs == front + [c];
    SplitJoin(path);
    FrontIsLexical(path, front, c);
    NonEmptyConcat(front, [c]);
    LexicalConcat([], NonEmpty(front), NonEmpty([c]));
    if Lexical([], NonEmpty(front)).Some? {
      LastIsLexical(path, front, c);
    }
  }

  lemma LastIsLexical(path: seq<byte>, front: seq<Segment>, c: Segment)
    requires Split(path) == front + [c] && SEPARATOR !in c
    requires Lexical([], NonEmpty(front)).Some? && EnterAll(START, front).Some?
    requires SeparatorFree(front)
    requires var ns := Lexical([], NonEmpty(front)).value;
             EnterAll(START, front).value.stack == Root(path) + ns && Proper(ns)
    ensures var ns := Lexical([], NonEmpty(front)).value;
            match Lexical(ns, NonEmpty([c]))
            case None => Normal(path) == Invalid
            case Some(ms) =>
              && Normal(path).Normalized?
              && Split(Normal(path).path) == Root(path) + ms + Ending(path)
              && Names(Normal(path).path) == ms
              && Proper(ms)
  {
    var at, ns, root := EnterAll(START, front).value, Lexical([], NonEmpty(front)).value, Root(path);
    EnterAllSound(START, front);
    AtTopOfRoot(root, ns);
    LexicalOne(ns, c);
    assert Normal(path) == Finish(at, c);
    if Lexical(ns, NonEmpty([c])).Some? {
      var ms := Lexical(ns, NonEmpty([c])).value;
      FinishSegments(at, c);
      ClosedIsLexical(at, c, root, ns);
      assert Ending(path) == EndingOf(c);
      NamesOfOutput(root, ms, Ending(path));
    }
  }

  lemma ClosedIsLexical(at: Resolution, c: Segment, root: seq<Segment>, ns: seq<Segment>)
    requires Proper(ns) && at.stack == root + ns && !(c == PARENT && ns == [])
    ensures Lexical(ns, NonEmpty([c])).Some?
    ensures var ms := Lexical(ns, NonEmpty([c])).value;
            Proper(ms) && Closed(at, c) + [Opened(c)] == root + ms + EndingOf(c)
  {
    LexicalOne(ns, c);
  }

  lemma NamesOfOutput(root: seq<Segment>, ns: seq<Segment>, ending: seq<Segment>)
    requires IsRoot(root) && IsRoot(ending) && Proper(ns)
    ensures NonEmpty(root + ns + ending) == ns
  {
    NonEmptyConcat(root + ns, ending);
    NonEmptyConcat(root, ns);
    NonEmptyOfNonEmpty(ns);
  }

  lemma {:induction false} LexicalFails(below: seq<Segment>, names: seq<Segment>)
    ensures Lexical(below, names) == None <==> exists k :: 0 <= k <= |names| && |below| + Level(names[..k]) < 0
    decreases |names|
  {
    if names == [] {
      assert forall k | 0 <= k <= |names| :: names[..k] == [];
    } else {
      var w := if names[0] == CURRENT then 0 else if names[0] == PARENT then -1 else 1;
      forall k | 0 < k <= |names| ensures Level(names[..k]) == w + Level(names[1..][..k - 1]) {
        assert names[..k][1..] == names[1..][..k - 1];
      }
      assert Level(names[..0]) == 0;
      if names[0] == PARENT && below == [] {
        assert Level(names[..1]) == -1 by {
          assert names[1..][..0] == [];
        }
      } else {
        var below' :=
          if names[0] == CURRENT then below
          else if names[0] == PARENT then below[..|below| - 1]
          else below + [names[0]];
        LexicalFails(below', names[1..]);
        if k: int :| 0 <= k <= |names| - 1 && |below'| + Level(names[1..][..k]) < 0 {
          assert Level(names[..k + 1]) == w + Level(names[1..][..k]);
        }
        if k: int :| 0 <= k <= |names| && |below| + Level(names[..k]) < 0 {
          assert k > 0;
          assert |below'| + Level(names[1..][..k - 1]) < 0;
        }
      }
    }
  }

  /** A well-spaced path is invalid exactly when some prefix of it goes up more often than down. */
  lemma InvalidIffPrefixGoesAbove(path: seq<byte>)
    requires WellSpaced(path) && path != []
    ensures Normal(path) == Invalid <==> exists k :: 0 <= k <= |Names(path)| && Level(Names(path)[..k]) < 0
  {
    Meaning(path);
    LexicalFails([], Names(path));
  }

  // Cancellation.

  /** Going into `n` and up again changes nothing. */
  lemma Cancellation(x: seq<byte>, n: Segment, y: seq<byte>)
    requires x == [] || x[|x| - 1] == SEPARATOR
    requires y == [] || y[0] != SEPARATOR
    requires n != [] && SEPARATOR !in n && !IsRef(n)
    ensures Normal(x + n + [SEPARATOR, DOT, DOT, SEPARATOR] + y) == Normal(x + y)
  {
    var front, cs := Split(x)[..|Split(x)| - 1], Split(y);
    var tail := SplitOfDownAndUp(n, y);
    assert x + tail == x + n + [SEPARATOR, DOT, DOT, SEPARATOR] + y;
    SplitAfterSeparator(x, y);
    SplitAfterSeparator(x, tail);
    ResolveConcat(START, front, cs);
    ResolveConcat(START, front, Split(tail));
    if EnterAll(START, front).Some? {
      var w, rest := FirstComponent(y);
      DownAndUp(EnterAll(START, front).value, n, cs);
    }
  }

  lemma SplitOfDownAndUp(n: Segment, y: seq<byte>) returns (tail: seq<byte>)
    requires SEPARATOR !in n
    ensures tail == n + [SEPARATOR, DOT, DOT, SEPARATOR] + y
    ensures Split(tail) == [n] + ([PARENT] + Split(y))
  {
    SplitAt(PARENT, y);
    SplitAt(n, PARENT + [SEPARATOR] + y);
    tail := n + [SEPARATOR] + (PARENT + [SEPARATOR] + y);
  }

  lemma DownAndUp(at: Resolution, n: Segment, cs: seq<Segment>)
    requires n != [] && !IsRef(n)
    requires cs != [] && (cs[0] != [] || |cs| == 1)
    ensures Resolve(at, [n] + ([PARENT] + cs)) == Resolve(at, cs)
  {
    var down, up := Resolution(at.stack + [n], false), Resolution(at.stack, true);
    ResolveStep(at, [n] + ([PARENT] + cs));
    assert ([n] + ([PARENT] + cs))[1..] == [PARENT] + cs;
    ResolveStep(down, [PARENT] + cs);
    assert ([PARENT] + cs)[1..] == cs;
    assert down.stack[..|down.stack| - 1] == at.stack;
    assert !AtTop(down.stack) by {
      assert down.stack[|at.stack|] == n;
    }
    KeepIsIrrelevant(at.stack, cs);
  }

  lemma SplitAfterSeparator(x: seq<byte>, y: seq<byte>)
    requires x == [] || x[|x| - 1] == SEPARATOR
    ensures Split(x + y) == Split(x)[..|Split(x)| - 1] + Split(y)
  {
    SplitConcat(x, y);
    var n := |Split(x)| - 1;
    assert Split(x)[n] == [] by {
      if x != [] {
        var x' := x[..|x| - 1];
        assert x == x' + [SEPARATOR];
        SplitConcat(x', [SEPARATOR]);
        assert Split([SEPARATOR]) == [[], []];
      }
    }
    var none: Segment := [];
    assert none + Split(y)[0] == Split(y)[0];
    assert [none + Split(y)[0]] + Split(y)[1..] == Split(y);
  }
}
