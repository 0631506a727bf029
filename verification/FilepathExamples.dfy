/** Outcomes on paths that are written out as bytes. */
module FilepathExamples {
  import opened Common
  import opened Encodings
  import opened FilepathScan
  import opened Filepath
  import opened FilepathComponents
  import opened FilepathAsWritten

  /** From components to the outcome of the run on a given text. */
  lemma Outcome(path: seq<byte>, cs: seq<Segment>, capacity: nat, stop: Stop)
    requires Faithful(stop) && |path| < capacity && Ascii(path) && Split(path) == cs
    ensures Normalize(path, capacity, stop) == Resolve(START, cs)
  {
    AsciiIsWhole(path);
    NormalizeIsNormal(path, capacity, stop);
  }

  lemma SplitCons(path: seq<byte>, w: Segment, rest: seq<byte>)
    requires path == w + [SEPARATOR] + rest && SEPARATOR !in w
    ensures Split(path) == [w] + Split(rest)
  {
    SplitAt(w, rest);
  }

  /** `a/./b` becomes `a/b`. */
  lemma RelativeReference(capacity: nat, stop: Stop)
    requires Faithful(stop) && capacity > 5
    ensures Normalize([97, 47, 46, 47, 98], capacity, stop) == Normalized([97, 47, 98])
  {
    hide Split, Resolve, Flatten, Scan;
    SplitCons([97, 47, 46, 47, 98], [97], [46, 47, 98]);
    SplitCons([46, 47, 98], [46], [98]);
    SplitName([98]);
    var cs: seq<Segment> := [[97]] + ([[46]] + [[98]]);
    Outcome([97, 47, 46, 47, 98], cs, capacity, stop);
    ResolveCons(START, [97], [[46]] + [[98]]);
    ResolveCons(Resolution([[97]], false), [46], [[98]]);
    assert START.stack + [[97]] == [[97]];
    ResolveLast(Resolution([[97]], true), [98]);
    OneSegment([97]);
  }

  /** `a//b` becomes `a/b`. */
  lemma SeparatorRun(capacity: nat, stop: Stop)
    requires Faithful(stop) && capacity > 4
    ensures Normalize([97, 47, 47, 98], capacity, stop) == Normalized([97, 47, 98])
  {
    hide Split, Resolve, Flatten, Scan;
    var none: Segment := [];
    SplitCons([97, 47, 47, 98], [97], [47, 98]);
    SplitCons([47, 98], none, [98]);
    SplitName([98]);
    var cs: seq<Segment> := [[97]] + ([none] + [[98]]);
    Outcome([97, 47, 47, 98], cs, capacity, stop);
    ResolveCons(START, [97], [none] + [[98]]);
    assert START.stack + [[97]] == [[97]];
    ResolveCons(Resolution([[97]], false), none, [[98]]);
    ResolveLast(Resolution([[97]], false), [98]);
    OneSegment([97]);
  }

  /** `a/../b` becomes `b`. */
  lemma ParentReference(capacity: nat, stop: Stop)
    requires Faithful(stop) && capacity > 6
    ensures Normalize([97, 47, 46, 46, 47, 98], capacity, stop) == Normalized([98])
  {
    hide Split, Resolve, Flatten, Scan;
    SplitCons([97, 47, 46, 46, 47, 98], [97], [46, 46, 47, 98]);
    SplitCons([46, 46, 47, 98], [46, 46], [98]);
    SplitName([98]);
    var cs: seq<Segment> := [[97]] + ([[46, 46]] + [[98]]);
    Outcome([97, 47, 46, 46, 47, 98], cs, capacity, stop);
    ResolveCons(START, [97], [[46, 46]] + [[98]]);
    assert START.stack + [[97]] == [[97]];
    ResolveCons(Resolution([[97]], false), [46, 46], [[98]]);
    ResolveLast(Resolution([], true), [98]);
    FlattenTop([]);
  }

  /** `../a` and `/..` are invalid. */
  lemma ParentOfNothing(capacity: nat, stop: Stop)
    requires Faithful(stop) && capacity > 4
    ensures Normalize([46, 46, 47, 97], capacity, stop) == Invalid
    ensures Normalize([47, 46, 46], capacity, stop) == Invalid
  {
    hide Split, Resolve, Flatten, Scan;
    SplitCons([46, 46, 47, 97], [46, 46], [97]);
    SplitName([97]);
    Outcome([46, 46, 47, 97], [[46, 46]] + [[97]], capacity, stop);
    ResolveCons(START, [46, 46], [[97]]);
    var none: Segment := [];
    SplitCons([47, 46, 46], none, [46, 46]);
    SplitName([46, 46]);
    Outcome([47, 46, 46], [none] + [[46, 46]], capacity, stop);
    ResolveCons(START, none, [[46, 46]]);
    assert START.stack + [none] == [none];
    ResolveOne(Resolution([none], false), [46, 46]);
  }

  /** `/a/..` becomes `/`. */
  lemma ParentBelowRoot(capacity: nat, stop: Stop)
    requires Faithful(stop) && capacity > 5
    ensures Normalize([47, 97, 47, 46, 46], capacity, stop) == Normalized([47])
  {
    hide Split, Resolve, Flatten, Scan;
    var none: Segment := [];
    SplitCons([47, 97, 47, 46, 46], none, [97, 47, 46, 46]);
    SplitCons([97, 47, 46, 46], [97], [46, 46]);
    SplitName([46, 46]);
    var cs: seq<Segment> := [none] + ([[97]] + [[46, 46]]);
    Outcome([47, 97, 47, 46, 46], cs, capacity, stop);
    ResolveCons(START, none, [[97]] + [[46, 46]]);
    assert START.stack + [none] == [none];
    ResolveCons(Resolution([none], false), [97], [[46, 46]]);
    ResolveOne(Resolution([none] + [[97]], false), [46, 46]);
    assert ([none] + [[97]])[..1] == [none];
    OneSegment(none);
  }

  /** `a/...` and `a\b` stay as they are: three dots are a name, and a backslash separates nothing. */
  lemma NamesStay(capacity: nat, stop: Stop)
    requires Faithful(stop) && capacity > 5
    ensures Normalize([97, 47, 46, 46, 46], capacity, stop) == Normalized([97, 47, 46, 46, 46])
    ensures Normalize([97, 92, 98], capacity, stop) == Normalized([97, 92, 98])
  {
    hide Split, Resolve, Flatten, Scan;
    SplitCons([97, 47, 46, 46, 46], [97], [46, 46, 46]);
    SplitName([46, 46, 46]);
    Outcome([97, 47, 46, 46, 46], [[97]] + [[46, 46, 46]], capacity, stop);
    ResolveCons(START, [97], [[46, 46, 46]]);
    assert START.stack + [[97]] == [[97]];
    ResolveLast(Resolution([[97]], false), [46, 46, 46]);
    OneSegment([97]);
    SplitName([97, 92, 98]);
    Outcome([97, 92, 98], [[97, 92, 98]], capacity, stop);
    ResolveLast(START, [97, 92, 98]);
    FlattenTop([]);
  }

  // Text that is not UTF-8: a lead byte takes the separators behind it along.

  /** 0xC3, then `/./b`: the pair ends in a separator, so the reference behind it is one. */
  lemma SeparatorInsideCharacter(capacity: nat, stop: Stop)
    requires capacity > 5
    ensures Normalize([0xC3, 47, 46, 47, 98], capacity, stop) == Normalized([0xC3, 47, 98])
  {
    var s: seq<byte> := [0xC3, 47, 46, 47, 98];
    assert s[2..] == [46, 47, 98] && s[..2] == [0xC3, 47];
    assert Drop([46, 47, 98], 2) == [98];
    CopyOne([98], true, [0xC3, 47], capacity, stop);
    assert [98][1..] == [];
  }

  /** 0xF6 announces four bytes: both of two separators behind it in the text are kept. */
  lemma FourBytesTaken(capacity: nat, stop: Stop)
    requires capacity > 7
    ensures Normalize([75, 0xF6, 108, 110, 47, 47, 120], capacity, stop)
         == Normalized([75, 0xF6, 108, 110, 47, 47, 120])
  {
    var s: seq<byte> := [75, 0xF6, 108, 110, 47, 47, 120];
    CopyOne(s, true, [], capacity, stop);
    var t := s[1..];
    assert t == [0xF6, 108, 110, 47, 47, 120] && t[4..] == [47, 120] && t[..4] == [0xF6, 108, 110, 47];
    var four: seq<byte> := [75] + [0xF6, 108, 110, 47];
    assert Scan(t, false, [75], capacity, stop) == Scan([47, 120], true, four, capacity, stop);
    assert [47, 120][1..] == [120];
    assert Scan([47, 120], true, four, capacity, stop) == Scan([120], true, four + [47], capacity, stop);
    CopyOne([120], true, four + [47], capacity, stop);
  }

  /** A letter is copied. */
  lemma CopyOne(s: seq<byte>, boundary: bool, written: seq<byte>, capacity: nat, stop: Stop)
    requires s != [] && 48 <= s[0] < 0x80 && |written| + 1 < capacity
    ensures Scan(s, boundary, written, capacity, stop) == Scan(s[1..], false, written + [s[0]], capacity, stop)
  {
    assert s[..1] == [s[0]];
  }

  /** Strings end in a zero byte, and `.` needs two. */
  lemma StringsEndInZero(capacity: nat, stop: Stop)
    ensures Holds([46, 0], 0, [46]) && forall b: byte | b != 0 :: !Holds([46, b], 0, [46])
    ensures Terminated([46, 0, 0], 0, [46], capacity, stop) && !Terminated([46, 0], 0, [46], capacity, stop)
  {
    DotPasses(capacity, stop);
    assert [46, 0][0..1] == [46] && [46, 0, 0][0..1] == [46];
  }

  lemma OneSegment(c: Segment)
    ensures Flatten([c]) == c + [47]
  {
    FlattenPush([], c);
    assert [] + [c] == [c];
  }
}
