/** A second, independent account of normalization: split the whole path at its separators,
    then resolve the components one after the other. */
module FilepathComponents {
  import opened Common
  import opened Encodings
  import opened FilepathScan

  type Segment = seq<byte>

  const CURRENT: Segment := [DOT]
  const PARENT: Segment := [DOT, DOT]

  predicate IsRef(c: Segment) {
    c == CURRENT || c == PARENT
  }

  function Split(s: seq<byte>): (cs: seq<Segment>)
    ensures cs != []
  {
    if s == [] then [[]]
    else
      var rest := Split(s[1..]);
      if s[0] == SEPARATOR then [[]] + rest else [[s[0]] + rest[0]] + rest[1..]
  }

  function Join(cs: seq<Segment>): seq<byte>
    requires cs != []
  {
    if |cs| == 1 then cs[0] else cs[0] + [SEPARATOR] + Join(cs[1..])
  }

  ghost predicate SeparatorFree(stack: seq<Segment>) {
    forall i | 0 <= i < |stack| :: SEPARATOR !in stack[i]
  }

  /** The output bytes that a stack of finished segments stands for. */
  function Flatten(stack: seq<Segment>): (r: seq<byte>) {
    if stack == [] then []
    else Flatten(stack[..|stack| - 1]) + stack[|stack| - 1] + [SEPARATOR]
  }

  /** Nothing to go up from: no segment at all, or only the root. */
  predicate AtTop(stack: seq<Segment>) {
    stack == [] || stack == [[]]
  }

  /** The finished segments, and whether an empty component would be kept here: it is, as a segment of
      its own, at the very start and right after a reference. */
  datatype Resolution = Resolution(stack: seq<Segment>, keepEmpty: bool)

  const START := Resolution([], true)

  /** One component that a separator follows. */
  function Enter(at: Resolution, c: Segment): Option<Resolution> {
    if c == CURRENT then Some(at.(keepEmpty := true))
    else if c == PARENT then
      if AtTop(at.stack) then None else Some(Resolution(at.stack[..|at.stack| - 1], true))
    else if c == [] && !at.keepEmpty then Some(at)
    else Some(Resolution(at.stack + [c], false))
  }

  function EnterAll(at: Resolution, cs: seq<Segment>): Option<Resolution>
    decreases |cs|
  {
    if cs == [] then Some(at)
    else
      match Enter(at, cs[0])
      case None => None
      case Some(next) => EnterAll(next, cs[1..])
  }

  /** The last component, which nothing follows. */
  function Finish(at: Resolution, c: Segment): Outcome {
    if c == CURRENT then Normalized(Flatten(at.stack))
    else if c == PARENT then
      if AtTop(at.stack) then Invalid else Normalized(Flatten(at.stack[..|at.stack| - 1]))
    else Normalized(Flatten(at.stack) + c)
  }

  function Resolve(at: Resolution, cs: seq<Segment>): Outcome
    requires cs != []
  {
    match EnterAll(at, cs[..|cs| - 1])
    case None => Invalid
    case Some(last) => Finish(last, cs[|cs| - 1])
  }

  /** Normalization into a buffer that is large enough. */
  function Normal(path: seq<byte>): Outcome {
    Resolve(START, Split(path))
  }

  lemma FlattenPush(stack: seq<Segment>, c: Segment)
    ensures Flatten(stack + [c]) == Flatten(stack) + c + [SEPARATOR]
  {
    assert (stack + [c])[..|stack|] == stack;
  }

  lemma FlattenTop(stack: seq<Segment>)
    ensures |Flatten(stack)| == 0 <==> stack == []
    ensures |Flatten(stack)| == 1 <==> stack == [[]]
    ensures stack != [] ==> Flatten(stack)[|Flatten(stack)| - 1] == SEPARATOR
  {
    if |stack| >= 2 {
      var below := stack[..|stack| - 1];
      assert Flatten(below) == Flatten(below[..|below| - 1]) + below[|below| - 1] + [SEPARATOR];
    } else if |stack| == 1 {
      assert stack == [stack[0]] && stack[..0] == [];
    }
  }

  lemma FlattenPop(stack: seq<Segment>)
    requires stack != []
    ensures Flatten(stack)[..|Flatten(stack)| - 1] == Flatten(stack[..|stack| - 1]) + stack[|stack| - 1]
    ensures Flatten(stack) == Flatten(stack[..|stack| - 1]) + stack[|stack| - 1] + [SEPARATOR]
  {
  }

  lemma {:induction false} EnterAllConcat(at: Resolution, a: seq<Segment>, b: seq<Segment>)
    ensures EnterAll(at, a + b) == match EnterAll(at, a) case None => None case Some(mid) => EnterAll(mid, b)
    decreases |a|
  {
    if a == [] {
      assert a + b == b;
    } else {
      assert (a + b)[0] == a[0] && (a + b)[1..] == a[1..] + b;
      match Enter(at, a[0])
      case None =>
      case Some(next) => EnterAllConcat(next, a[1..], b);
    }
  }

  /** Resolving after a prefix is resolving from where the prefix led. */
  lemma ResolveConcat(at: Resolution, a: seq<Segment>, b: seq<Segment>)
    requires b != []
    ensures Resolve(at, a + b) == match EnterAll(at, a) case None => Invalid case Some(mid) => Resolve(mid, b)
  {
    assert (a + b)[..|a + b| - 1] == a + b[..|b| - 1];
    EnterAllConcat(at, a, b[..|b| - 1]);
  }

  lemma ResolveStep(at: Resolution, cs: seq<Segment>)
    requires |cs| > 1
    ensures Resolve(at, cs) == match Enter(at, cs[0]) case None => Invalid case Some(next) => Resolve(next, cs[1..])
  {
    var closed := cs[..|cs| - 1];
    assert closed[0] == cs[0] && closed[1..] == cs[1..][..|cs| - 2];
  }

  lemma ResolveCons(at: Resolution, c: Segment, cs: seq<Segment>)
    requires cs != []
    ensures Resolve(at, [c] + cs) == match Enter(at, c) case None => Invalid case Some(next) => Resolve(next, cs)
  {
    ResolveStep(at, [c] + cs);
    assert ([c] + cs)[1..] == cs;
  }

  lemma ResolveLast(at: Resolution, c: Segment)
    requires !IsRef(c)
    ensures Resolve(at, [c]) == Normalized(Flatten(at.stack) + c)
  {
    assert |[c][..0]| == 0;
  }

  // Splitting and joining are inverse to each other.

  lemma {:induction false} SplitJoin(s: seq<byte>)
    ensures SeparatorFree(Split(s)) && Join(Split(s)) == s
  {
    if s != [] {
      var rest := Split(s[1..]);
      SplitJoin(s[1..]);
      if s[0] == SEPARATOR {
        assert ([[]] + rest)[1..] == rest;
      } else {
        assert ([[s[0]] + rest[0]] + rest[1..])[1..] == rest[1..];
        assert s == [s[0]] + s[1..];
      }
    }
  }

  lemma {:induction false} SplitName(w: Segment)
    requires SEPARATOR !in w
    ensures Split(w) == [w]
  {
    if w != [] {
      SplitName(w[1..]);
      assert [w[0]] + w[1..] == w;
    }
  }

  lemma {:induction false} SplitAt(w: Segment, s: seq<byte>)
    requires SEPARATOR !in w
    ensures Split(w + [SEPARATOR] + s) == [w] + Split(s)
  {
    var t := w + [SEPARATOR] + s;
    if w == [] {
      assert t[1..] == s;
    } else {
      SplitAt(w[1..], s);
      assert t[1..] == w[1..] + [SEPARATOR] + s;
      assert [w[0]] + w[1..] == w;
    }
  }

  lemma {:induction false} JoinSplit(cs: seq<Segment>)
    requires cs != [] && SeparatorFree(cs)
    ensures Split(Join(cs)) == cs
  {
    if |cs| == 1 {
      SplitName(cs[0]);
    } else {
      JoinSplit(cs[1..]);
      SplitAt(cs[0], Join(cs[1..]));
      assert cs == [cs[0]] + cs[1..];
    }
  }

  /** Text ends its first component at the end or at a separator. */
  lemma FirstComponent(s: seq<byte>) returns (w: Segment, rest: seq<byte>)
    ensures SEPARATOR !in w && w == Split(s)[0]
    ensures |Split(s)| == 1 ==> s == w
    ensures |Split(s)| > 1 ==> s == w + [SEPARATOR] + rest && Split(s) == [w] + Split(rest)
  {
    SplitJoin(s);
    var cs := Split(s);
    w, rest := cs[0], [];
    if |cs| > 1 {
      rest := Join(cs[1..]);
      JoinSplit(cs[1..]);
      assert cs == [cs[0]] + cs[1..];
    }
  }

  // Components as the byte fold meets them: the output is bytes, and the backward scan may stop anywhere.

  datatype Progress = Progress(written: seq<byte>, keepEmpty: bool)

  datatype Entered = Entered(progress: Progress) | Failed(outcome: Outcome)

  function GoUpBytes(written: seq<byte>, stop: Stop): Entered {
    if |written| <= 1 then Failed(Invalid)
    else
      match Retreat(written[..|written| - 1], stop)
      case None => Failed(Astray)
      case Some(rest) => Entered(Progress(rest, true))
  }

  function EnterBytes(p: Progress, c: Segment, stop: Stop): Entered {
    if c == CURRENT then Entered(p.(keepEmpty := true))
    else if c == PARENT then GoUpBytes(p.written, stop)
    else if c == [] && !p.keepEmpty then Entered(p)
    else Entered(Progress(p.written + c + [SEPARATOR], false))
  }

  function FinishBytes(p: Progress, c: Segment, stop: Stop): Outcome {
    if c == CURRENT then Normalized(p.written)
    else if c == PARENT then
      match GoUpBytes(p.written, stop)
      case Failed(outcome) => outcome
      case Entered(q) => Normalized(q.written)
    else Normalized(p.written + c)
  }

  function ResolveBytes(p: Progress, cs: seq<Segment>, stop: Stop): Outcome
    requires cs != []
    decreases |cs|
  {
    if |cs| == 1 then FinishBytes(p, cs[0], stop)
    else
      match EnterBytes(p, cs[0], stop)
      case Failed(outcome) => outcome
      case Entered(q) => ResolveBytes(q, cs[1..], stop)
  }

  /** Every character is there in full and has no separator inside, as in all well-formed text. */
  ghost predicate Whole(s: seq<byte>)
    decreases |s|
  {
    s == [] || (1 <= CharLen(s[0]) <= |s| && SEPARATOR !in s[1..CharLen(s[0])] && Whole(s[CharLen(s[0])..]))
  }

  lemma {:induction false} WholeIsReadable(s: seq<byte>)
    requires Whole(s)
    ensures Readable(s)
    decreases |s|
  {
    if s != [] {
      WholeIsReadable(s[CharLen(s[0])..]);
    }
  }

  lemma {:induction false} WellFormedIsWhole(s: seq<byte>)
    requires WellFormed(s)
    ensures Whole(s)
    decreases |s|
  {
    if s != [] {
      var c, rest := WellFormedSplit(s);
      CharLenIsPositive(c);
      CharLenOfChar(c);
      assert s[|c|..] == rest && s[1..|c|] == c[1..];
      WellFormedIsWhole(rest);
    }
  }

  /** Whole text may be cut at a separator. */
  lemma {:induction false} WholeAround(w: Segment, rest: seq<byte>)
    requires SEPARATOR !in w && Whole(w + [SEPARATOR] + rest)
    ensures Whole(w) && Whole(rest)
    decreases |w|
  {
    var s := w + [SEPARATOR] + rest;
    if w == [] {
      assert s[1..] == rest;
    } else {
      var n := FirstCharFits(w, rest);
      WholeAround(w[n..], rest);
    }
  }

  lemma EndsBefore(s: seq<byte>, n: nat, i: nat)
    requires 1 <= n <= |s| && 1 <= i < |s| && s[i] == SEPARATOR && SEPARATOR !in s[1..n]
    ensures n <= i
  {
    assert forall j | 1 <= j < n :: s[1..n][j - 1] == s[j] && s[j] in s[1..n];
  }

  /** The first character of a name ends inside the name. */
  lemma FirstCharFits(w: Segment, rest: seq<byte>) returns (n: nat)
    requires w != [] && Whole(w + [SEPARATOR] + rest)
    ensures n == CharLen(w[0]) && 1 <= n <= |w|
    ensures (w + [SEPARATOR] + rest)[n..] == w[n..] + [SEPARATOR] + rest
    ensures (w + [SEPARATOR] + rest)[..n] == w[..n]
    ensures SEPARATOR !in w[1..n] && Whole(w[n..] + [SEPARATOR] + rest)
  {
    var s := w + [SEPARATOR] + rest;
    n := CharLen(w[0]);
    assert s[0] == w[0];
    EndsBefore(s, n, |w|);
    CutInside(w, [SEPARATOR] + rest, n);
    assert s == w + ([SEPARATOR] + rest) && w[n..] + [SEPARATOR] + rest == w[n..] + ([SEPARATOR] + rest);
  }

  lemma CutInside(w: seq<byte>, tail: seq<byte>, n: nat)
    requires 1 <= n <= |w|
    ensures (w + tail)[n..] == w[n..] + tail && (w + tail)[1..n] == w[1..n] && (w + tail)[..n] == w[..n]
  {
  }

  lemma RefBytes(w: Segment, s: seq<byte>, rest: seq<byte>)
    requires SEPARATOR !in w
    requires s == w || s == w + [SEPARATOR] + rest
    ensures IsRelativeRef(s) <==> w == CURRENT
    ensures IsParentRef(s) <==> w == PARENT
  {
    assert s[..|w|] == w;
    if |w| < |s| {
      assert s[|w|] == SEPARATOR;
    }
    assert forall i | 0 <= i < |w| :: s[i] == w[i] && w[i] in w;
  }

  /** A run of separators is a run of empty components, none of which is kept. */
  lemma {:induction false} SkipIsSplit(p: Progress, s: seq<byte>, stop: Stop)
    requires !p.keepEmpty && Whole(s)
    ensures ResolveBytes(p, Split(s), stop) == ResolveBytes(p, Split(SkipSeparators(s)), stop)
    ensures Whole(SkipSeparators(s))
    decreases |s|
  {
    if s != [] && s[0] == SEPARATOR {
      SkipIsSplit(p, s[1..], stop);
      assert Split(s)[1..] == Split(s[1..]);
    }
  }

  lemma WordEnd(w: Segment, n: nat)
    requires SEPARATOR !in w && 1 <= n <= |w|
    ensures w[n - 1] != SEPARATOR && SEPARATOR !in w[n..]
  {
    assert w[n - 1] in w;
  }

  /** The bytes of a name that ends the text. */
  lemma {:induction false} ScanLastName(w: Segment, written: seq<byte>, capacity: nat, stop: Stop)
    requires SEPARATOR !in w && Whole(w) && |written| + |w| < capacity
    ensures Scan(w, false, written, capacity, stop) == Normalized(written + w)
    decreases |w|
  {
    if w == [] {
      assert written + w == written;
    } else {
      var n := CharLen(w[0]);
      WordEnd(w, n);
      ScanLastName(w[n..], written + w[..n], capacity, stop);
      assert written + w[..n] + w[n..] == written + w;
    }
  }

  /** The bytes of a name, up to the separator that closes it. */
  lemma {:induction false} ScanName(w: Segment, rest: seq<byte>, written: seq<byte>, capacity: nat, stop: Stop)
    requires SEPARATOR !in w && Whole(w + [SEPARATOR] + rest) && |written| + |w| + 1 < capacity
    ensures Scan(w + [SEPARATOR] + rest, false, written, capacity, stop)
         == Scan(SkipSeparators(rest), true, written + w + [SEPARATOR], capacity, stop)
    decreases |w|
  {
    var s := w + [SEPARATOR] + rest;
    if w == [] {
      assert s[1..] == rest && written + w == written;
    } else {
      var n := FirstCharFits(w, rest);
      WordEnd(w, n);
      assert s[n - 1] == w[n - 1];
      ScanName(w[n..], rest, written + w[..n], capacity, stop);
      assert written + w[..n] + w[n..] == written + w;
    }
  }

  /** A component that is the whole rest of the text. */
  lemma ScanLastComponent(w: Segment, p: Progress, capacity: nat, stop: Stop)
    requires SEPARATOR !in w && Whole(w) && |p.written| + |w| < capacity
    ensures Scan(w, true, p.written, capacity, stop) == FinishBytes(p, w, stop)
  {
    hide Retreat;
    RefBytes(w, w, []);
    if IsRef(w) {
      assert Drop(w, |w| + 1) == [];
    } else {
      ScanLastName(w, p.written, capacity, stop);
      if w != [] {
        NoRefBoundary(w, p.written, capacity, stop);
      }
    }
  }

  /** Where no reference starts it does not matter whether a component does. */
  lemma NoRefBoundary(s: seq<byte>, written: seq<byte>, capacity: nat, stop: Stop)
    requires s != [] && !IsRelativeRef(s) && !IsParentRef(s)
    ensures Scan(s, true, written, capacity, stop) == Scan(s, false, written, capacity, stop)
  {
    hide Retreat;
  }

  /** A component and the separators behind it. */
  lemma ScanComponent(w: Segment, rest: seq<byte>, p: Progress, capacity: nat, stop: Stop) returns (rest': seq<byte>)
    requires SEPARATOR !in w && Whole(w + [SEPARATOR] + rest)
    requires |p.written| + |w| + 1 + |rest| < capacity
    requires w == [] ==> p.keepEmpty
    ensures |rest'| <= |rest| && Whole(rest')
    ensures var r, s := EnterBytes(p, w, stop), w + [SEPARATOR] + rest;
            if r.Failed? then Scan(s, true, p.written, capacity, stop) == r.outcome
            else
              var next := r.progress;
              && Scan(s, true, p.written, capacity, stop) == Scan(rest', true, next.written, capacity, stop)
              && ResolveBytes(next, Split(rest), stop) == ResolveBytes(next, Split(rest'), stop)
              && |next.written| + |rest'| < capacity
              && (rest' != [] && rest'[0] == SEPARATOR ==> next.keepEmpty)
  {
    hide Retreat;
    var s := w + [SEPARATOR] + rest;
    RefBytes(w, s, rest);
    WholeAround(w, rest);
    assert s[|w| + 1..] == rest && s[|w|] == SEPARATOR;
    if IsRef(w) {
      rest' := rest;
      assert Drop(s, |w| + 1) == rest;
    } else {
      rest' := SkipSeparators(rest);
      SkipIsSplit(Progress(p.written + w + [SEPARATOR], false), rest, stop);
      ScanName(w, rest, p.written, capacity, stop);
      NoRefBoundary(s, p.written, capacity, stop);
    }
  }

  /** The fold over bytes meets the components one after the other, wherever the backward scan stops. */
  lemma {:induction false} ScanIsComponents(s: seq<byte>, p: Progress, capacity: nat, stop: Stop)
    requires Whole(s) && |p.written| + |s| < capacity
    requires s != [] && s[0] == SEPARATOR ==> p.keepEmpty
    ensures Scan(s, true, p.written, capacity, stop) == ResolveBytes(p, Split(s), stop)
    decreases |s|
  {
    hide Retreat;
    var w, rest := FirstComponent(s);
    if |Split(s)| == 1 {
      ScanLastComponent(w, p, capacity, stop);
    } else {
      assert Split(s)[1..] == Split(rest);
      assert w == [] ==> s[0] == SEPARATOR;
      var rest' := ScanComponent(w, rest, p, capacity, stop);
      match EnterBytes(p, w, stop)
      case Failed(_) =>
      case Entered(next) => ScanIsComponents(rest', next, capacity, stop);
    }
  }

  // Where the scan cursor ends.

  lemma {:induction false} SkipKeepsLast(s: seq<byte>)
    requires Whole(s)
    ensures Whole(SkipSeparators(s))
    ensures Split(SkipSeparators(s))[|Split(SkipSeparators(s))| - 1] == Split(s)[|Split(s)| - 1]
    decreases |s|
  {
    if s != [] && s[0] == SEPARATOR {
      SkipKeepsLast(s[1..]);
      assert Split(s)[1..] == Split(s[1..]);
    }
  }

  lemma {:induction false} NameEnds(w: Segment)
    requires SEPARATOR !in w && Whole(w)
    ensures !EndsInRef(w, false)
    decreases |w|
  {
    if w != [] {
      WordEnd(w, CharLen(w[0]));
      NameEnds(w[CharLen(w[0])..]);
    }
  }

  lemma {:induction false} NameContinues(w: Segment, rest: seq<byte>)
    requires SEPARATOR !in w && Whole(w + [SEPARATOR] + rest)
    ensures EndsInRef(w + [SEPARATOR] + rest, false) == EndsInRef(SkipSeparators(rest), true)
    decreases |w|
  {
    var s := w + [SEPARATOR] + rest;
    if w == [] {
      assert s[1..] == rest;
    } else {
      var n := FirstCharFits(w, rest);
      WordEnd(w, n);
      assert s[n - 1] == w[n - 1];
      NameContinues(w[n..], rest);
    }
  }

  lemma LastEnds(w: Segment)
    requires SEPARATOR !in w && Whole(w)
    ensures EndsInRef(w, true) <==> IsRef(w)
  {
    RefBytes(w, w, []);
    NameEnds(w);
  }

  lemma ComponentEnds(w: Segment, rest: seq<byte>)
    requires SEPARATOR !in w && Whole(w + [SEPARATOR] + rest)
    ensures EndsInRef(w + [SEPARATOR] + rest, true) == EndsInRef(if IsRef(w) then rest else SkipSeparators(rest), true)
  {
    hide Whole;
    var s := w + [SEPARATOR] + rest;
    RefBytes(w, s, rest);
    NameContinues(w, rest);
    assert s[|w| + 1..] == rest && s[0] == (w + [SEPARATOR])[0];
  }

  /** The cursor passes the terminator exactly when the last component is a reference. */
  lemma {:induction false} EndsInRefIffLast(s: seq<byte>)
    requires Whole(s)
    ensures EndsInRef(s, true) <==> IsRef(Split(s)[|Split(s)| - 1])
    decreases |s|
  {
    hide Whole, EndsInRef, IsRef, Split, SkipSeparators;
    var w, rest := FirstComponent(s);
    if |Split(s)| == 1 {
      LastEnds(w);
    } else {
      WholeAround(w, rest);
      SkipKeepsLast(rest);
      ComponentEnds(w, rest);
      EndsInRefIffLast(if IsRef(w) then rest else SkipSeparators(rest));
    }
  }

  // Where the backward scan removes the last segment.

  const FRESH := Progress([], true)

  /** The scan goes back over `top`, and no further, exactly if its limit lies neither behind the start of
      `top` nor, when `top` is all there is and no separator stands in front, before the output. */
  lemma {:induction false} RetreatRemovesSegmentIff(below: seq<byte>, top: Segment, stop: Stop)
    requires SEPARATOR !in top
    requires below == [] || below[|below| - 1] == SEPARATOR
    ensures Retreat(below + top, stop) == Some(below) <==>
            (top == [] || |below| >= stop.limit) && (below != [] || stop.before == SEPARATOR || 0 <= stop.limit)
    decreases |top|
  {
    var written := below + top;
    if top == [] {
      assert written == below;
    } else {
      assert written[..|written| - 1] == below + top[..|top| - 1];
      assert written[|written| - 1] == top[|top| - 1] && top[|top| - 1] in top;
      RetreatRemovesSegmentIff(below, top[..|top| - 1], stop);
    }
  }

  /** Going up on the bytes of a stack removes its last segment. */
  lemma GoUpRemovesLast(stack: seq<Segment>, stop: Stop)
    requires Faithful(stop) && SeparatorFree(stack)
    ensures GoUpBytes(Flatten(stack), stop) ==
            if AtTop(stack) then Failed(Invalid) else Entered(Progress(Flatten(stack[..|stack| - 1]), true))
  {
    hide Flatten, Retreat;
    FlattenTop(stack);
    if stack != [] {
      var below, top := stack[..|stack| - 1], stack[|stack| - 1];
      FlattenTop(below);
      FlattenPop(stack);
      RetreatRemovesSegmentIff(Flatten(below), top, stop);
    }
  }

  ghost function BytesOf(at: Resolution): Progress {
    Progress(Flatten(at.stack), at.keepEmpty)
  }

  lemma EnterBytesIsEnter(at: Resolution, c: Segment, stop: Stop)
    requires Faithful(stop) && SeparatorFree(at.stack) && SEPARATOR !in c
    ensures EnterBytes(BytesOf(at), c, stop) ==
            match Enter(at, c) case None => Failed(Invalid) case Some(next) => Entered(BytesOf(next))
    ensures Enter(at, c).Some? ==> SeparatorFree(Enter(at, c).value.stack)
  {
    hide GoUpBytes, Retreat, Flatten;
    GoUpRemovesLast(at.stack, stop);
    FlattenPush(at.stack, c);
  }

  lemma {:induction false} ComponentsAreResolved(at: Resolution, cs: seq<Segment>, stop: Stop)
    requires Faithful(stop) && cs != [] && SeparatorFree(at.stack) && SeparatorFree(cs)
    ensures ResolveBytes(BytesOf(at), cs, stop) == Resolve(at, cs)
    decreases |cs|
  {
    hide Retreat, Flatten;
    if |cs| == 1 {
      GoUpRemovesLast(at.stack, stop);
      assert EnterAll(at, cs[..0]) == Some(at);
    } else {
      EnterBytesIsEnter(at, cs[0], stop);
      ResolveStep(at, cs);
      match Enter(at, cs[0])
      case None =>
      case Some(next) => ComponentsAreResolved(next, cs[1..], stop);
    }
  }

  /** With such a stop the normalizer's fold is the resolution of components, on every path of whole
      characters. */
  lemma NormalizeIsNormal(path: seq<byte>, capacity: nat, stop: Stop)
    requires Faithful(stop) && Whole(path) && |path| < capacity
    ensures Normalize(path, capacity, stop) == Normal(path)
  {
    SplitJoin(path);
    ScanIsComponents(path, FRESH, capacity, stop);
    ComponentsAreResolved(START, Split(path), stop);
    assert BytesOf(START) == FRESH;
  }
}
