/** Alignment arithmetic of the allocators, on 64-bit unsigned words. */
module MemoryHelpers {
  import opened Bits

  const WORD: nat := 0x1_0000_0000_0000_0000
  const U32_LIMIT: nat := 0x1_0000_0000
  /** Alignment of the most strictly aligned scalar type. */
  const MAX_ALIGN: nat := 16

  predicate IsPowerOfTwo(offset: nat) {
    And(offset % WORD, (offset - 1) % WORD) == 0
  }

  predicate IsValidAlignment(alignment: nat) {
    alignment != 0 && IsPowerOfTwo(alignment) && alignment <= MAX_ALIGN
  }

  /** Adds, then clears the bits of `alignment - 1`; both steps wrap at the word size. */
  function AlignUp(value: nat, alignment: nat): nat {
    And((value + alignment - 1) % WORD, WORD - 1 - (alignment - 1) % WORD)
  }

  lemma Pow2Square(j: nat, v: nat)
    requires Pow2(j) == v
    ensures Pow2(2 * j) == v * v
  {
    Pow2Sum(j, j);
  }

  lemma WordIsPow2()
    ensures Pow2(64) == WORD
  {
    Pow2Square(4, 16);
    Pow2Square(8, 0x100);
    Pow2Square(16, 0x1_0000);
    Pow2Square(32, 0x1_0000_0000);
  }

  lemma PowerOfTwoTest(x: nat)
    requires 0 < x < WORD
    ensures IsPowerOfTwo(x) <==> IsPow2(x)
  {
    hide And, IsPow2;
    AndPredecessor(x);
    assert x % WORD == x && (x - 1) % WORD == x - 1;
  }

  lemma ValidAlignments(a: nat)
    ensures IsValidAlignment(a) <==> a == 1 || a == 2 || a == 4 || a == 8 || a == 16
  {
    if 0 < a <= MAX_ALIGN {
      PowerOfTwoTest(a);
      assert Pow2(0) == 1 && Pow2(1) == 2 && Pow2(2) == 4 && Pow2(3) == 8 && Pow2(4) == 16 && Pow2(5) == 32;
      if IsPow2(a) {
        var k: nat :| a == Pow2(k);
        if k >= 5 {
          Pow2Grows(5, k);
        }
      }
    }
  }

  lemma ValidAlignmentDivides(a: nat)
    requires IsValidAlignment(a)
    ensures 1 <= a <= MAX_ALIGN && MAX_ALIGN % a == 0 && 32 % a == 0
  {
    hide IsValidAlignment;
    ValidAlignments(a);
  }

  /** Without overflow, rounding removes from the sum the bits shared with `a - 1`. */
  lemma AlignUpIsSubtraction(v: nat, a: nat)
    requires a >= 1 && v + a - 1 < WORD
    ensures AlignUp(v, a) == v + a - 1 - And(v + a - 1, a - 1)
  {
    hide And, Pow2;
    WordIsPow2();
    AndComplement(v + a - 1, a - 1, 64);
  }

  /** For every alignment, a power of two or not. */
  lemma AlignUpBounds(v: nat, a: nat)
    requires a >= 1 && v + a - 1 < WORD
    ensures v <= AlignUp(v, a) <= v + a - 1
  {
    AlignUpIsSubtraction(v, a);
  }

  lemma AlignUpLeastMultiple(v: nat, a: nat)
    requires IsPow2(a) && v + a - 1 < WORD
    ensures v <= AlignUp(v, a) <= v + a - 1
    ensures AlignUp(v, a) % a == 0
    ensures forall m: nat :: m >= v && m % a == 0 ==> AlignUp(v, a) <= m
  {
    hide And, Pow2, AlignUp;
    AlignUpBounds(v, a);
    AlignUpToPowerOfTwo(v, a);
    RemovedRemainder(v + a - 1, a);
    forall m: nat | m >= v && m % a == 0 ensures AlignUp(v, a) <= m {
      MultiplesAreApart(AlignUp(v, a), m, a);
    }
  }

  lemma AlignUpToPowerOfTwo(v: nat, a: nat)
    requires IsPow2(a) && a >= 1 && v + a - 1 < WORD
    ensures AlignUp(v, a) == v + a - 1 - (v + a - 1) % a
  {
    hide And, Pow2, AlignUp;
    var k: nat :| a == Pow2(k);
    AlignUpIsSubtraction(v, a);
    AndMask(v + a - 1, k);
  }

  /** The least multiple of d that is at least v. */
  ghost predicate LeastMultiple(x: nat, v: nat, d: nat)
    requires d > 0
  {
    x % d == 0 && v <= x < v + d
  }

  /** Beyond the largest multiple in a word the sum wraps, and the result is zero. */
  lemma AlignUpWraps(v: nat, a: nat)
    requires IsPow2(a) && 0 < a < WORD && v < WORD && v + a - 1 >= WORD
    ensures AlignUp(v, a) == 0
  {
    hide And, Pow2;
    var k: nat :| a == Pow2(k);
    var x := v + a - 1 - WORD;
    assert (v + a - 1) % WORD == x;
    WordIsPow2();
    AndComplement(x, a - 1, 64);
    AndMask(x, k);
    RemainderIsUnique(x, a, 0, x);
  }

  lemma RemovedRemainder(x: nat, a: nat)
    requires a >= 1
    ensures (x - x % a) % a == 0
  {
    RemainderIsUnique(x - x % a, a, x / a, 0);
  }

  /** Two multiples of `a` that differ do so by at least `a`. */
  lemma MultiplesAreApart(x: nat, y: nat, a: nat)
    requires a >= 1 && x % a == 0 && y % a == 0
    ensures y < x ==> y + a <= x
  {
    if y < x {
      if x / a > y / a {
        LessByAMultiple(a, y / a, x / a);
      } else if x / a < y / a {
        LessByAMultiple(a, x / a, y / a);
      }
    }
  }

  /** For any other alignment already the value 1 is not rounded to a multiple. */
  lemma AlignUpMissesMultiple(a: nat)
    requires 1 <= a < WORD && !IsPow2(a)
    ensures AlignUp(1, a) % a != 0
  {
    AlignUpIsSubtraction(1, a);
    AndPredecessor(a);
    var r := AlignUp(1, a);
    assert 0 < r < a;
    RemainderIsUnique(r, a, 0, r);
  }

  /** Rounding yields multiples for every value exactly when the alignment is a power of two. */
  lemma AlignUpRoundsIffPowerOfTwo(a: nat)
    requires 1 <= a < WORD
    ensures (forall v: nat :: v + a - 1 < WORD ==> AlignUp(v, a) % a == 0) <==> IsPow2(a)
  {
    if IsPow2(a) {
      forall v: nat | v + a - 1 < WORD ensures AlignUp(v, a) % a == 0 {
        AlignUpLeastMultiple(v, a);
      }
    } else {
      AlignUpMissesMultiple(a);
    }
  }

  // Rounding to twice a value, for requests above that value.

  lemma {:induction false} TripleKeepsDouble(p: nat)
    requires And(3 * p, 2 * p) == p
    ensures p == 0
  {
    hide And;
    if p > 0 {
      AndEven(3 * p, p);
      var q := And(3 * p / 2, p);
      assert p == 2 * q && 3 * p / 2 == 3 * q;
      TripleKeepsDouble(q);
    }
  }

  lemma {:induction false} DoubleInTriple(c: nat)
    requires c > 0 && And(3 * c, 2 * c - 1) == c
    ensures IsPow2(c)
    decreases c
  {
    hide And, IsPow2, Pow2;
    var n := c / 2;
    if c == 2 * n {
      AndDoubled(3 * n, 2 * n - 1);
      DoubleInTriple(n);
      DoubleIsPow2(n);
    } else {
      assert c == 2 * n + 1;
      AndDoubled(3 * n + 1, 2 * n);
      OddDoubleInTriple(n);
      OneIsPow2();
    }
  }

  lemma OneIsPow2()
    ensures IsPow2(1)
  {
    assert Pow2(0) == 1;
  }

  lemma OddDoubleInTriple(n: nat)
    requires And(3 * n + 1, 2 * n) == n
    ensures n == 0
  {
    hide And;
    AndEven(3 * n + 1, n);
    var q := And((3 * n + 1) / 2, n);
    assert n == 2 * q && (3 * n + 1) / 2 == 3 * q;
    TripleKeepsDouble(q);
  }

  /** Unless c is a power of two, already c + 1 is not rounded to a multiple of 2c. */
  lemma NextMissesDouble(c: nat)
    requires 0 < c && 3 * c < WORD && !IsPow2(c)
    ensures AlignUp(c + 1, 2 * c) % (2 * c) != 0
  {
    hide And, Pow2, AlignUp, IsPow2;
    AlignUpIsSubtraction(c + 1, 2 * c);
    AlignUpBounds(c + 1, 2 * c);
    var r := AlignUp(c + 1, 2 * c);
    if r != 2 * c {
      var q := if r < 2 * c then 0 else 1;
      RemainderIsUnique(r, 2 * c, q, r - q * (2 * c));
    } else {
      DoubleInTriple(c);
    }
  }

  /** All requests above c are rounded to multiples of 2c exactly when c is a power of two. */
  lemma RequestsRoundIffPowerOfTwo(c: nat)
    requires 0 < c && 3 * c < WORD
    ensures (forall v: nat :: c < v && v + 2 * c - 1 < WORD ==> AlignUp(v, 2 * c) % (2 * c) == 0) <==> IsPow2(c)
  {
    hide And, AlignUp;
    if IsPow2(c) {
      DoubleIsPow2(c);
      forall v: nat | c < v && v + 2 * c - 1 < WORD ensures AlignUp(v, 2 * c) % (2 * c) == 0 {
        AlignUpLeastMultiple(v, 2 * c);
      }
    } else {
      NextMissesDouble(c);
    }
  }

  lemma MultipleBelow(x: nat, d: nat)
    requires 0 < d <= x
    ensures x - x % d >= d
  {
    var q := x / d;
    assert x == d * q + x % d;
    if q > 1 {
      LessByAMultiple(d, 1, q);
    }
  }

  lemma ReachesDouble(c: nat, v: nat)
    requires 0 < c < v && v + 2 * c - 1 < WORD && Pow2Within(2 * c, 3 * c)
    ensures AlignUp(v, 2 * c) >= 2 * c
  {
    hide And, Pow2, AlignUp;
    var k: nat :| 2 * c <= Pow2(k) <= 3 * c;
    var w, p := v + 2 * c - 1, Pow2(k);
    AlignUpIsSubtraction(v, 2 * c);
    AndBelow(w, 2 * c - 1, k);
    MultipleBelow(w, p);
  }

  /** Otherwise already c + 1 is rounded to less than one and a half times c. */
  lemma FallsShort(c: nat)
    requires 0 < c && 3 * c < WORD && !Pow2Within(2 * c, 3 * c)
    ensures 2 * AlignUp(c + 1, 2 * c) < 3 * c
  {
    var k := Pow2Around(2 * c - 1);
    assert Pow2(k + 1) == 2 * Pow2(k);
    assert 2 * Pow2(k) > 3 * c;
    hide And, Pow2, AlignUp;
    AlignUpIsSubtraction(c + 1, 2 * c);
    AndTopBit(3 * c, 2 * c - 1, k);
  }

  lemma DoubleIsPow2(x: nat)
    requires IsPow2(x)
    ensures IsPow2(x * 2)
  {
    var k: nat :| x == Pow2(k);
    assert Pow2(k + 1) == x * 2;
  }
}
