/** UTF-8: the library's lead-byte test, and well-formedness as RFC 3629 defines it. */
module Encodings {
  import opened Common

  /** Length of the character that a lead byte announces, 0 when it announces none.
      Shifting right by k bits is division by 2^k. */
  function CharLen(lead: byte): nat {
    if lead / 128 == 0 then 1
    else if lead / 32 == 6 then 2
    else if lead / 16 == 14 then 3
    else if lead / 8 == 30 then 4
    else 0
  }

  predicate IsTail(b: byte) {
    0x80 <= b <= 0xBF
  }

  /** One encoded character: the grammar of section 4 of RFC 3629. */
  predicate IsChar(c: seq<byte>) {
    if |c| == 1 then c[0] <= 0x7F
    else if |c| == 2 then 0xC2 <= c[0] <= 0xDF && IsTail(c[1])
    else if |c| == 3 then
      && (|| (c[0] == 0xE0 && 0xA0 <= c[1] <= 0xBF)
          || (0xE1 <= c[0] <= 0xEC && IsTail(c[1]))
          || (c[0] == 0xED && 0x80 <= c[1] <= 0x9F)
          || (0xEE <= c[0] <= 0xEF && IsTail(c[1])))
      && IsTail(c[2])
    else if |c| == 4 then
      && (|| (c[0] == 0xF0 && 0x90 <= c[1] <= 0xBF)
          || (0xF1 <= c[0] <= 0xF3 && IsTail(c[1]))
          || (c[0] == 0xF4 && 0x80 <= c[1] <= 0x8F))
      && IsTail(c[2]) && IsTail(c[3])
    else false
  }

  function Concat(cs: seq<seq<byte>>): seq<byte> {
    if cs == [] then [] else cs[0] + Concat(cs[1..])
  }

  ghost predicate AreChars(cs: seq<seq<byte>>) {
    forall i | 0 <= i < |cs| :: IsChar(cs[i])
  }

  /** Text is well formed when it is a sequence of characters. */
  ghost predicate WellFormed(s: seq<byte>) {
    exists cs: seq<seq<byte>> :: AreChars(cs) && s == Concat(cs)
  }

  ghost predicate Ascii(s: seq<byte>) {
    forall i | 0 <= i < |s| :: s[i] < 0x80
  }

  /** The lead-byte test agrees with the grammar, and only one-byte characters are below 0x80. */
  lemma CharLenOfChar(c: seq<byte>)
    requires IsChar(c)
    ensures CharLen(c[0]) == |c|
    ensures |c| > 1 ==> forall i | 0 <= i < |c| :: c[i] >= 0x80
  {
  }

  /** The announced lengths, by range of lead bytes; continuation bytes announce no character. */
  lemma CharLenByRange(b: byte)
    ensures b <= 0x7F ==> CharLen(b) == 1
    ensures IsTail(b) ==> CharLen(b) == 0
    ensures 0xC0 <= b <= 0xDF ==> CharLen(b) == 2
    ensures 0xE0 <= b <= 0xEF ==> CharLen(b) == 3
    ensures 0xF0 <= b <= 0xF7 ==> CharLen(b) == 4
    ensures 0xF8 <= b ==> CharLen(b) == 0
  {
  }

  lemma WellFormedPrepend(c: seq<byte>, s: seq<byte>)
    requires IsChar(c) && WellFormed(s)
    ensures WellFormed(c + s)
  {
    var cs :| AreChars(cs) && s == Concat(cs);
    assert ([c] + cs)[1..] == cs;
    assert Concat([c] + cs) == c + s;
  }

  /** The announced length is the length of the first character of well-formed text. */
  lemma WellFormedSplit(s: seq<byte>) returns (c: seq<byte>, rest: seq<byte>)
    requires WellFormed(s) && s != []
    ensures IsChar(c) && WellFormed(rest) && s == c + rest
    ensures |c| == CharLen(s[0])
  {
    var cs :| AreChars(cs) && s == Concat(cs);
    c, rest := cs[0], Concat(cs[1..]);
    CharLenOfChar(c);
    assert AreChars(cs[1..]);
  }

  lemma WellFormedEmpty()
    ensures WellFormed([])
  {
    assert AreChars([]) && Concat([]) == [];
  }

  lemma WellFormedChar(c: seq<byte>)
    requires IsChar(c)
    ensures WellFormed(c)
  {
    WellFormedEmpty();
    WellFormedPrepend(c, []);
    assert c + [] == c;
  }

  lemma {:induction false} WellFormedConcat(a: seq<byte>, b: seq<byte>)
    requires WellFormed(a) && WellFormed(b)
    ensures WellFormed(a + b)
    decreases |a|
  {
    if a == [] {
      assert a + b == b;
    } else {
      var c, rest := WellFormedSplit(a);
      WellFormedConcat(rest, b);
      WellFormedPrepend(c, rest + b);
      assert a + b == c + (rest + b);
    }
  }

  /** A character that reaches an ASCII byte ends there. */
  lemma CharStopsBefore(c: seq<byte>, i: nat)
    requires IsChar(c) && i < |c| && c[i] < 0x80
    ensures |c| == 1
  {
    CharLenOfChar(c);
  }

  /** An ASCII byte is always a character by itself: text may be cut on either side of it. */
  lemma {:induction false} WellFormedAround(a: seq<byte>, x: byte, b: seq<byte>)
    requires x < 0x80 && WellFormed(a + [x] + b)
    ensures WellFormed(a) && WellFormed(b)
    decreases |a|
  {
    hide WellFormed, IsChar, CharLen;
    var s := a + [x] + b;
    var c, rest := WellFormedSplit(s);
    if a == [] {
      CharStopsBefore(c, 0);
      WellFormedEmpty();
      assert rest == s[1..] == b;
    } else {
      assert c == s[..|c|];
      if |a| < |c| {
        assert c[|a|] == s[|a|] == x;
        CharStopsBefore(c, |a|);
      }
      var a' := a[|c|..];
      assert c == a[..|c|];
      assert a == c + a' && rest == s[|c|..] == a' + [x] + b;
      WellFormedAround(a', x, b);
      WellFormedPrepend(c, a');
    }
  }

  lemma WellFormedFirst(s: seq<byte>)
    requires WellFormed(s) && s != []
    ensures !IsTail(s[0])
  {
    var c, rest := WellFormedSplit(s);
    assert s[0] == c[0];
  }

  /** Text may be cut in front of any byte that is not a continuation byte. */
  lemma {:induction false} WellFormedCut(a: seq<byte>, b: seq<byte>)
    requires WellFormed(a + b) && (b == [] || !IsTail(b[0]))
    ensures WellFormed(a) && WellFormed(b)
    decreases |a|
  {
    hide IsChar, WellFormed, CharLen, IsTail;
    if a == [] {
      assert a + b == b;
      WellFormedEmpty();
    } else {
      var c, rest := WellFormedSplit(a + b);
      assert c == (a + b)[..|c|];
      if b != [] {
        CharEndsBefore(c, a + b, |a|);
      }
      var a' := a[|c|..];
      assert c == (a + b)[..|c|] == a[..|c|] && a == c + a' && rest == (a + b)[|c|..] == a' + b;
      WellFormedCut(a', b);
      WellFormedPrepend(c, a');
    }
  }

  lemma CharEndsBefore(c: seq<byte>, s: seq<byte>, i: nat)
    requires IsChar(c) && c <= s && 1 <= i < |s| && !IsTail(s[i])
    ensures |c| <= i
  {
    assert forall j | 1 <= j < |c| :: IsTail(c[j]) && c[j] == s[j];
  }

  /** In front of a continuation byte it may not. */
  lemma {:induction false} CutBeforeTail(a: seq<byte>, b: seq<byte>)
    requires WellFormed(a + b) && b != [] && IsTail(b[0])
    ensures !WellFormed(a)
    decreases |a|
  {
    hide IsChar, WellFormed, CharLen, IsTail;
    if a == [] {
      WellFormedFirst(a + b);
    } else if WellFormed(a) {
      var c, rest := WellFormedSplit(a);
      var d, rest' := WellFormedSplit(a + b);
      assert c == (a + b)[..|c|] == d;
      assert rest == a[|c|..] && rest' == (a + b)[|c|..] == rest + b;
      CutBeforeTail(rest, b);
    }
  }

  /** Copies the character at `src` to `dest`, both in one memory, and returns its length. */
  method WriteChar(memory: array<byte>, dest: nat, src: nat) returns (len: nat)
    requires src < memory.Length && src + CharLen(memory[src]) <= memory.Length
    requires dest + CharLen(memory[src]) <= memory.Length
    requires dest + CharLen(memory[src]) <= src || src + CharLen(memory[src]) <= dest
    modifies memory
    ensures len == CharLen(old(memory[src]))
    ensures memory[dest..dest + len] == old(memory[src..src + len])
    ensures forall k | 0 <= k < memory.Length && !(dest <= k < dest + len) :: memory[k] == old(memory[k])
  {
    len := CharLen(memory[src]);
    forall k | 0 <= k < len {
      memory[dest + k] := memory[src + k];
    }
  }
}
