/** When a run overflows its capacity: exactly when its output ever gets that long. */
module FilepathOverflow {
  import opened Common
  import opened Encodings
  import opened FilepathScan
  import opened FilepathComponents

  /** The output up to some component, or to the end, is at least as long as the capacity. */
  ghost predicate Reaches(p: Progress, cs: seq<Segment>, capacity: nat, stop: Stop)
    requires cs != []
    decreases |cs|
  {
    if |cs| == 1 then
      var r := FinishBytes(p, cs[0], stop);
      r.Normalized? && |r.path| >= capacity
    else
      var r := EnterBytes(p, cs[0], stop);
      r.Entered? && (|r.progress.written| >= capacity || Reaches(r.progress, cs[1..], capacity, stop))
  }

  lemma {:induction false} LastNameOverflows(w: Segment, written: seq<byte>, capacity: nat, stop: Stop)
    requires SEPARATOR !in w && Whole(w) && |written| < capacity
    ensures Scan(w, false, written, capacity, stop).Overflow? <==> |written| + |w| >= capacity
    decreases |w|
  {
    if w != [] {
      var n := CharLen(w[0]);
      WordEnd(w, n);
      if |written| + n < capacity {
        LastNameOverflows(w[n..], written + w[..n], capacity, stop);
      }
    }
  }

  lemma {:induction false} NameOverflows(w: Segment, rest: seq<byte>, written: seq<byte>, capacity: nat, stop: Stop)
    requires SEPARATOR !in w && Whole(w + [SEPARATOR] + rest)
    requires |written| < capacity <= |written| + |w| + 1
    ensures Scan(w + [SEPARATOR] + rest, false, written, capacity, stop).Overflow?
    decreases |w|
  {
    var s := w + [SEPARATOR] + rest;
    if w != [] {
      var n := FirstCharFits(w, rest);
      WordEnd(w, n);
      assert s[n - 1] == w[n - 1];
      if |written| + n < capacity {
        NameOverflows(w[n..], rest, written + w[..n], capacity, stop);
      }
    }
  }

  /** Separators that are skipped change nothing. */
  lemma {:induction false} SkipReaches(p: Progress, s: seq<byte>, capacity: nat, stop: Stop)
    requires !p.keepEmpty && Whole(s) && |p.written| < capacity
    ensures Reaches(p, Split(s), capacity, stop) == Reaches(p, Split(SkipSeparators(s)), capacity, stop)
    decreases |s|
  {
    if s != [] && s[0] == SEPARATOR {
      SkipReaches(p, s[1..], capacity, stop);
      assert Split(s)[1..] == Split(s[1..]);
    }
  }

  lemma LastOverflows(w: Segment, p: Progress, capacity: nat, stop: Stop)
    requires SEPARATOR !in w && Whole(w) && |p.written| < capacity
    ensures Scan(w, true, p.written, capacity, stop).Overflow? <==>
            FinishBytes(p, w, stop).Normalized? && |FinishBytes(p, w, stop).path| >= capacity
  {
    hide Retreat;
    RefBytes(w, w, []);
    if IsRef(w) {
      assert Drop(w, |w| + 1) == [];
    } else {
      LastNameOverflows(w, p.written, capacity, stop);
      if w != [] {
        NoRefBoundary(w, p.written, capacity, stop);
      }
    }
  }

  /** A component and its separator: an overflow there, or a step to the next component. */
  lemma ComponentOverflows(w: Segment, rest: seq<byte>, p: Progress, capacity: nat, stop: Stop)
    returns (rest': seq<byte>)
    requires SEPARATOR !in w && Whole(w + [SEPARATOR] + rest) && |p.written| < capacity
    requires w == [] ==> p.keepEmpty
    ensures |rest'| <= |rest| && Whole(rest')
    ensures var r, s := EnterBytes(p, w, stop), w + [SEPARATOR] + rest;
            if r.Failed? then !Scan(s, true, p.written, capacity, stop).Overflow?
            else if |r.progress.written| >= capacity then Scan(s, true, p.written, capacity, stop).Overflow?
            else
              var next := r.progress;
              && Scan(s, true, p.written, capacity, stop) == Scan(rest', true, next.written, capacity, stop)
              && Reaches(next, Split(rest), capacity, stop) == Reaches(next, Split(rest'), capacity, stop)
              && (rest' != [] && rest'[0] == SEPARATOR ==> next.keepEmpty)
  {
    hide Retreat, Reaches;
    var s := w + [SEPARATOR] + rest;
    RefBytes(w, s, rest);
    WholeAround(w, rest);
    assert s[|w| + 1..] == rest && s[|w|] == SEPARATOR;
    if IsRef(w) {
      rest' := rest;
      assert Drop(s, |w| + 1) == rest;
    } else {
      rest' := SkipSeparators(rest);
      SkipKeepsLast(rest);
      NoRefBoundary(s, p.written, capacity, stop);
      if |p.written| + |w| + 1 >= capacity {
        NameOverflows(w, rest, p.written, capacity, stop);
      } else {
        SkipReaches(Progress(p.written + w + [SEPARATOR], false), rest, capacity, stop);
        ScanName(w, rest, p.written, capacity, stop);
      }
    }
  }

  lemma {:induction false} ScanOverflows(s: seq<byte>, p: Progress, capacity: nat, stop: Stop)
    requires Whole(s) && |p.written| < capacity
    requires s != [] && s[0] == SEPARATOR ==> p.keepEmpty
    ensures Scan(s, true, p.written, capacity, stop).Overflow? <==> Reaches(p, Split(s), capacity, stop)
    decreases |s|
  {
    hide Retreat, Scan, EnterBytes, FinishBytes, Whole;
    var w, rest := FirstComponent(s);
    if |Split(s)| == 1 {
      LastOverflows(w, p, capacity, stop);
    } else {
      assert Split(s)[1..] == Split(rest);
      assert w == [] ==> s[0] == SEPARATOR;
      var rest' := ComponentOverflows(w, rest, p, capacity, stop);
      var r := EnterBytes(p, w, stop);
      if r.Entered? && |r.progress.written| < capacity {
        ScanOverflows(rest', r.progress, capacity, stop);
      }
    }
  }

  // In terms of the resolution of components.

  /** After m components the finished segments are at least as long as the capacity. */
  ghost predicate LongAfter(at: Resolution, cs: seq<Segment>, m: nat, capacity: nat) {
    && 0 < m < |cs| && EnterAll(at, cs[..m]).Some?
    && |Flatten(EnterAll(at, cs[..m]).value.stack)| >= capacity
  }

  ghost predicate EverLong(at: Resolution, cs: seq<Segment>, capacity: nat) {
    exists m: nat :: LongAfter(at, cs, m, capacity)
  }

  lemma LongAfterNext(at: Resolution, cs: seq<Segment>, m: nat, capacity: nat)
    requires |cs| > 1
    ensures LongAfter(at, cs, m + 1, capacity) <==>
            && m + 1 < |cs| && Enter(at, cs[0]).Some?
            && if m == 0 then |Flatten(Enter(at, cs[0]).value.stack)| >= capacity
               else LongAfter(Enter(at, cs[0]).value, cs[1..], m, capacity)
  {
    hide Enter, Flatten;
    if m + 1 < |cs| {
      assert cs[..m + 1][0] == cs[0] && cs[..m + 1][1..] == cs[1..][..m];
    }
  }

  lemma EverLongNext(at: Resolution, cs: seq<Segment>, capacity: nat)
    requires |cs| > 1
    ensures EverLong(at, cs, capacity) <==>
            && Enter(at, cs[0]).Some?
            && (|Flatten(Enter(at, cs[0]).value.stack)| >= capacity
                || EverLong(Enter(at, cs[0]).value, cs[1..], capacity))
  {
    hide Enter, Flatten, LongAfter;
    NotLongAtStart(at, cs, capacity);
    LongAfterNext(at, cs, 0, capacity);
    if m: nat :| LongAfter(at, cs, m, capacity) {
      LongAfterNext(at, cs, m - 1, capacity);
    }
    if Enter(at, cs[0]).Some? {
      var next := Enter(at, cs[0]).value;
      NotLongAtStart(next, cs[1..], capacity);
      if m: nat :| LongAfter(next, cs[1..], m, capacity) {
        LongBeforeEnd(next, cs[1..], m, capacity);
        LongAfterNext(at, cs, m, capacity);
      }
    }
  }

  lemma NotLongAtStart(at: Resolution, cs: seq<Segment>, capacity: nat)
    ensures !LongAfter(at, cs, 0, capacity)
  {
  }

  lemma LongBeforeEnd(at: Resolution, cs: seq<Segment>, m: nat, capacity: nat)
    requires LongAfter(at, cs, m, capacity)
    ensures m < |cs|
  {
  }

  lemma {:induction false} ReachesIff(at: Resolution, cs: seq<Segment>, capacity: nat, stop: Stop)
    requires Faithful(stop) && cs != [] && SeparatorFree(at.stack) && SeparatorFree(cs)
    ensures Reaches(BytesOf(at), cs, capacity, stop) <==>
            || EverLong(at, cs, capacity)
            || (Resolve(at, cs).Normalized? && |Resolve(at, cs).path| >= capacity)
    decreases |cs|
  {
    hide Flatten, Enter, EnterBytes, Retreat;
    if |cs| == 1 {
      GoUpRemovesLast(at.stack, stop);
      assert EnterAll(at, cs[..0]) == Some(at);
      assert cs == [cs[0]];
    } else {
      EnterBytesIsEnter(at, cs[0], stop);
      ResolveStep(at, cs);
      EverLongNext(at, cs, capacity);
      if Enter(at, cs[0]).Some? {
        ReachesIff(Enter(at, cs[0]).value, cs[1..], capacity, stop);
      }
    }
  }

  /** A run overflows exactly if its output, at the end of some component or of the path, is ever as long as the
      capacity: on every path of whole characters, valid or not. */
  lemma OverflowIff(path: seq<byte>, capacity: nat, stop: Stop)
    requires Faithful(stop) && Whole(path) && capacity > 0
    ensures Normalize(path, capacity, stop).Overflow? <==>
            || EverLong(START, Split(path), capacity)
            || (Normal(path).Normalized? && |Normal(path).path| >= capacity)
  {
    hide Scan, Reaches, EverLong, Resolve;
    SplitJoin(path);
    FlattenTop([]);
    assert BytesOf(START) == FRESH;
    ScanOverflows(path, FRESH, capacity, stop);
    ReachesIff(START, Split(path), capacity, stop);
  }
}
