/** Natural numbers read as bit strings: powers of two and bitwise conjunction. */
module Bits {

  function Pow2(k: nat): (r: nat)
    ensures r >= 1
  {
    if k == 0 then 1 else 2 * Pow2(k - 1)
  }

  lemma {:induction false} Pow2Sum(j: nat, k: nat)
    ensures Pow2(j + k) == Pow2(j) * Pow2(k)
  {
    if j > 0 {
      Pow2Sum(j - 1, k);
      assert Pow2(j + k) == 2 * Pow2(j + k - 1);
    }
  }

  ghost predicate IsPow2(x: nat) {
    exists k: nat :: x == Pow2(k)
  }

  /** Bitwise and of two naturals, one bit per step. */
  function And(x: nat, y: nat): (r: nat)
    ensures r <= x && r <= y
  {
    if x == 0 || y == 0 then 0
    else 2 * And(x / 2, y / 2) + (if x % 2 == 1 && y % 2 == 1 then 1 else 0)
  }

  lemma {:induction false} AndSelf(x: nat)
    ensures And(x, x) == x
  {
    if x > 0 {
      AndSelf(x / 2);
    }
  }

  /** Bit k of a number, the lowest one being bit 0. */
  predicate Bit(x: nat, k: nat) {
    x / Pow2(k) % 2 == 1
  }

  lemma {:induction false} HalvedBit(x: nat, k: nat)
    ensures Bit(x, k + 1) == Bit(x / 2, k)
  {
    var q, r := (x / 2) / Pow2(k), (x / 2) % Pow2(k);
    assert x / 2 == Pow2(k) * q + r;
    DoubledQuotient(x, Pow2(k), q, r);
    RemainderIsUnique(x, 2 * Pow2(k), q, 2 * r + x % 2);
  }

  lemma DoubledQuotient(x: nat, h: nat, q: nat, r: nat)
    requires x / 2 == h * q + r
    ensures x == (2 * h) * q + (2 * r + x % 2)
  {
    assert (2 * h) * q == 2 * (h * q);
  }

  /** Bit by bit, the result has what both have. */
  lemma {:induction false} AndBits(x: nat, y: nat, k: nat)
    ensures Bit(And(x, y), k) <==> Bit(x, k) && Bit(y, k)
    decreases k
  {
    AndSplit(x, y);
    if k > 0 {
      hide And;
      HalvedBit(And(x, y), k - 1);
      HalvedBit(x, k - 1);
      HalvedBit(y, k - 1);
      AndBits(x / 2, y / 2, k - 1);
      assert And(x, y) / 2 == And(x / 2, y / 2);
    }
  }

  /** The lowest bit, and all others. */
  lemma AndSplit(x: nat, y: nat)
    ensures And(x, y) == 2 * And(x / 2, y / 2) + (if x % 2 == 1 && y % 2 == 1 then 1 else 0)
  {
  }

  /** Conjunction with a low mask is the remainder. */
  lemma {:induction false} AndMask(x: nat, k: nat)
    ensures And(x, Pow2(k) - 1) == x % Pow2(k)
  {
    if k == 0 {
      AndNothing(x);
    } else {
      AndMask(x / 2, k - 1);
      AndMaskStep(x, Pow2(k - 1), Pow2(k));
    }
  }

  lemma AndNothing(x: nat)
    ensures And(x, 0) == 0
  {
  }

  lemma AndMaskStep(x: nat, h: nat, p: nat)
    requires h >= 1 && p == 2 * h && And(x / 2, h - 1) == x / 2 % h
    ensures And(x, p - 1) == x % p
  {
    hide And;
    HalvedRemainder(x, h);
    var m := p - 1;
    assert m / 2 == h - 1 && m % 2 == 1;
    AndSplit(x, m);
  }

  lemma HalvedRemainder(x: nat, h: nat)
    requires h >= 1
    ensures x % (2 * h) == 2 * ((x / 2) % h) + x % 2
  {
    var q, r := (x / 2) / h, (x / 2) % h;
    assert x == (2 * h) * q + (2 * r + x % 2) by {
      assert x / 2 == h * q + r;
    }
    RemainderIsUnique(x, 2 * h, q, 2 * r + x % 2);
  }

  lemma RemainderIsUnique(x: nat, d: nat, q: nat, r: nat)
    requires r < d && x == d * q + r
    ensures x % d == r && x / d == q
  {
    QuotientIsUnique(d, q, r, x / d, x % d);
  }

  lemma QuotientIsUnique(d: nat, q: nat, r: nat, q': nat, r': nat)
    requires r < d && r' < d && d * q + r == d * q' + r'
    ensures q == q' && r == r'
  {
    if q < q' {
      LessByAMultiple(d, q, q');
    } else if q' < q {
      LessByAMultiple(d, q', q);
    }
  }

  lemma LessByAMultiple(d: nat, q: nat, q': nat)
    requires q < q'
    ensures d * q + d <= d * q'
  {
    var n := q' - q - 1;
    assert d * q' == d * (q + 1 + n) == d * q + d + d * n;
  }

  /** Within a word, conjunction with a complement removes exactly the masked bits. */
  lemma {:induction false} AndComplement(x: nat, m: nat, w: nat)
    requires x < Pow2(w) && m < Pow2(w)
    ensures And(x, Pow2(w) - 1 - m) == x - And(x, m)
  {
    if w > 0 {
      var h := Pow2(w - 1);
      assert Pow2(w) == 2 * h;
      hide And, Pow2;
      assert x / 2 < h && m / 2 < h;
      AndComplement(x / 2, m / 2, w - 1);
      AndComplementStep(x, m, h);
    }
  }

  lemma AndComplementStep(x: nat, m: nat, h: nat)
    requires x < 2 * h && m < 2 * h
    requires And(x / 2, h - 1 - m / 2) == x / 2 - And(x / 2, m / 2)
    ensures And(x, 2 * h - 1 - m) == x - And(x, m)
  {
    hide And;
    var c := 2 * h - 1 - m;
    assert c / 2 == h - 1 - m / 2 && c % 2 == 1 - m % 2;
    AndSplit(x, c);
    AndSplit(x, m);
  }

  lemma AndDoubled(a: nat, b: nat)
    ensures And(2 * a, 2 * b + 1) == 2 * And(a, b) && And(2 * a + 1, 2 * b + 1) == 2 * And(a, b) + 1
  {
    hide And;
    AndSplit(2 * a, 2 * b + 1);
    AndSplit(2 * a + 1, 2 * b + 1);
    assert 2 * a / 2 == a && (2 * a + 1) / 2 == a && (2 * b + 1) / 2 == b;
  }

  lemma AndEven(x: nat, b: nat)
    ensures And(x, 2 * b) == 2 * And(x / 2, b)
  {
    hide And;
    AndSplit(x, 2 * b);
    assert 2 * b / 2 == b && 2 * b % 2 == 0;
  }

  lemma DoubledProduct(p: nat, h: nat, x: nat)
    requires p == 2 * h
    ensures p * x == 2 * (h * x)
  {
  }

  /** Below k bits that the mask has set anyway, conjunction is that of the upper bits. */
  lemma {:induction false} AndShifted(x: nat, y: nat, k: nat)
    ensures And(Pow2(k) * x, Pow2(k) * y + Pow2(k) - 1) == Pow2(k) * And(x, y)
  {
    if k > 0 {
      var p, h := Pow2(k), Pow2(k - 1);
      assert p == 2 * h;
      hide And, Pow2;
      AndShifted(x, y, k - 1);
      var a, b, r := h * x, h * y, h * And(x, y);
      DoubledProduct(p, h, x);
      DoubledProduct(p, h, y);
      DoubledProduct(p, h, And(x, y));
      AndDoubled(a, b + h - 1);
    }
  }

  /** Two numbers with the same highest bit share it. */
  lemma {:induction false} AndTopBit(x: nat, y: nat, k: nat)
    requires Pow2(k) <= x < 2 * Pow2(k) && Pow2(k) <= y < 2 * Pow2(k)
    ensures And(x, y) >= Pow2(k)
  {
    hide And;
    AndSplit(x, y);
    if k == 0 {
      assert x == 1 && y == 1;
    } else {
      AndTopBit(x / 2, y / 2, k - 1);
    }
  }

  /** Conjunction with a number below 2^k keeps at most the remainder. */
  lemma {:induction false} AndBelow(x: nat, y: nat, k: nat)
    requires y < Pow2(k)
    ensures And(x, y) <= x % Pow2(k)
  {
    if k == 0 {
      assert y == 0;
    } else {
      var h := Pow2(k - 1);
      assert Pow2(k) == 2 * h;
      hide And, Pow2;
      AndBelow(x / 2, y / 2, k - 1);
      HalvedRemainder(x, h);
      AndSplit(x, y);
    }
  }

  lemma {:induction false} Pow2Around(x: nat) returns (k: nat)
    requires x >= 1
    ensures Pow2(k) <= x < Pow2(k + 1)
  {
    if x == 1 {
      k := 0;
    } else {
      var j := Pow2Around(x / 2);
      k := j + 1;
    }
  }

  ghost predicate Pow2Within(low: nat, high: nat) {
    exists k: nat :: low <= Pow2(k) <= high
  }

  /** A positive number has no bit in common with its predecessor exactly when it is a power of two. */
  lemma {:induction false} AndPredecessor(x: nat)
    requires x > 0
    ensures And(x, x - 1) == 0 <==> IsPow2(x)
  {
    if x == 1 {
      assert Pow2(0) == 1;
    } else if x % 2 == 1 {
      AndSelf(x / 2);
      assert (x - 1) / 2 == x / 2;
      forall k: nat ensures Pow2(k) != x {
        assert k > 0 ==> Pow2(k) == 2 * Pow2(k - 1);
      }
    } else {
      var q := x / 2;
      AndPredecessor(q);
      assert (x - 1) / 2 == q - 1;
      if IsPow2(q) {
        var k: nat :| q == Pow2(k);
        assert Pow2(k + 1) == x;
      }
      if IsPow2(x) {
        var k: nat :| x == Pow2(k);
        assert k > 0 && Pow2(k - 1) == q;
      }
    }
  }

  /** Every power of two from 2^j on is a multiple of 2^j. */
  lemma {:induction false} Pow2Divides(j: nat, k: nat)
    requires j <= k
    ensures Pow2(k) % Pow2(j) == 0
  {
    if j == k {
      RemainderIsUnique(Pow2(k), Pow2(j), 1, 0);
    } else {
      Pow2Divides(j, k - 1);
      var q := Pow2(k - 1) / Pow2(j);
      assert Pow2(k) == Pow2(j) * (2 * q);
      RemainderIsUnique(Pow2(k), Pow2(j), 2 * q, 0);
    }
  }

  lemma MultipleOf(x: nat, y: nat, a: nat)
    requires a >= 1 && x % a == 0
    ensures (y * x) % a == 0
  {
    var q := x / a;
    assert y * x == a * (y * q);
    RemainderIsUnique(y * x, a, y * q, 0);
  }

  lemma SumOfMultiples(x: nat, y: nat, a: nat)
    requires a >= 1 && x % a == 0 && y % a == 0
    ensures (x + y) % a == 0
  {
    var p, q := x / a, y / a;
    assert x + y == a * (p + q);
    RemainderIsUnique(x + y, a, p + q, 0);
  }

  lemma MultipleOfMultiple(x: nat, page: nat, d: nat)
    requires d >= 1 && page >= 1 && page % d == 0 && x % page == 0
    ensures x % d == 0
  {
    var m, n := x / page, page / d;
    assert x == page * m == d * n * m == d * (n * m);
    RemainderIsUnique(x, d, n * m, 0);
  }

  lemma {:induction false} Pow2Grows(j: nat, k: nat)
    requires j <= k
    ensures Pow2(j) <= Pow2(k)
  {
    if j < k {
      Pow2Grows(j, k - 1);
    }
  }

  /** Divisibility by repeated subtraction, which keeps multiplication out of invariants. */
  ghost predicate Multiple(x: nat, d: nat)
    decreases x
  {
    x == 0 || (0 < d <= x && Multiple(x - d, d))
  }

  lemma {:induction false} MultipleIsRemainderFree(x: nat, d: nat)
    requires d >= 1
    ensures Multiple(x, d) <==> x % d == 0
    decreases x
  {
    if x >= d {
      MultipleIsRemainderFree(x - d, d);
      LessByOne(x, d);
    }
  }

  lemma {:induction false} MultipleSum(x: nat, y: nat, d: nat)
    requires d >= 1 && Multiple(x, d) && Multiple(y, d)
    ensures Multiple(x + y, d)
    decreases x
  {
    if x > 0 {
      MultipleSum(x - d, y, d);
    }
  }

  lemma LessByOne(x: nat, d: nat)
    requires 1 <= d <= x
    ensures (x - d) % d == x % d
  {
    var q, r := x / d, x % d;
    assert x - d == d * (q - 1) + r;
    RemainderIsUnique(x - d, d, q - 1, r);
  }

  /** Multiplication by repeated addition. */
  function Times(n: nat, d: nat): nat {
    if n == 0 then 0 else d + Times(n - 1, d)
  }

  lemma {:induction false} TimesIsProduct(n: nat, d: nat)
    ensures Times(n, d) == n * d
  {
    if n > 0 {
      TimesIsProduct(n - 1, d);
      assert n * d == d + (n - 1) * d;
    }
  }

  lemma {:induction false} TimesGrows(i: nat, j: nat, d: nat)
    requires i < j
    ensures Times(i, d) + d <= Times(j, d)
  {
    if i < j - 1 {
      TimesGrows(i, j - 1, d);
    }
  }

  /** Dividing undoes multiplying. */
  lemma TimesDivides(n: nat, d: nat)
    requires d >= 1
    ensures Times(n, d) % d == 0 && Times(n, d) / d == n
  {
    TimesIsProduct(n, d);
    RemainderIsUnique(Times(n, d), d, n, 0);
  }

  /** A multiple below the n-th one is one of the first n. */
  lemma TimesBelow(x: nat, n: nat, d: nat)
    requires d >= 1 && x % d == 0 && x < Times(n, d)
    ensures x / d < n && x == Times(x / d, d)
  {
    TimesIsProduct(x / d, d);
    if n < x / d {
      TimesGrows(n, x / d, d);
    }
  }

  lemma {:induction false} TimesIsLarge(n: nat, d: nat)
    requires d >= 1
    ensures Times(n, d) >= n
  {
    if n > 0 {
      TimesIsLarge(n - 1, d);
    }
  }
}
