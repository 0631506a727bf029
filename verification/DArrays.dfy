/** The growable array: overwriting and extending at an index, with a capacity that doubles. */
module DArrays {
  import opened Bits

  /** The first capacity in the doubling sequence that holds `needed` elements. */
  function Doubled(capacity: nat, needed: nat): (c: nat)
    requires capacity > 0
    ensures c >= needed && c >= capacity
    ensures c == capacity || c < 2 * needed
    ensures c == capacity <==> needed <= capacity
    decreases needed - capacity
  {
    if needed > capacity then Doubled(capacity * 2, needed) else capacity
  }

  /** `capacity` is the initial one doubled some number of times. */
  ghost predicate IsDoubling(initial: nat, capacity: nat) {
    exists k: nat :: capacity == initial * Pow2(k)
  }

  lemma ZeroDoublings(initial: nat)
    ensures IsDoubling(initial, initial)
  {
    assert initial == initial * Pow2(0);
  }

  lemma DoubleOnce(initial: nat, capacity: nat)
    requires IsDoubling(initial, capacity)
    ensures IsDoubling(initial, 2 * capacity)
  {
    var k: nat :| capacity == initial * Pow2(k);
    assert initial * Pow2(k + 1) == 2 * (initial * Pow2(k));
  }

  lemma {:induction false} DoubledIsDoubling(initial: nat, capacity: nat, needed: nat)
    requires capacity > 0 && IsDoubling(initial, capacity)
    ensures IsDoubling(initial, Doubled(capacity, needed))
    ensures needed > capacity ==> Doubled(capacity, needed) >= 2 * capacity
    decreases needed - capacity
  {
    hide IsDoubling;
    if needed > capacity {
      DoubleOnce(initial, capacity);
      DoubledIsDoubling(initial, capacity * 2, needed);
    }
  }

  /** `source` laid over `s` from index i on, past its end if need be. */
  function Overwrite<T>(s: seq<T>, i: nat, source: seq<T>): (r: seq<T>)
    requires i <= |s|
    ensures |r| == if i + |source| > |s| then i + |source| else |s|
    ensures forall k | 0 <= k < |r| ::
              r[k] == if i <= k < i + |source| then source[k - i] else s[k]
  {
    s[..i] + source + if i + |source| <= |s| then s[i + |source|..] else []
  }

  // Runs, with the cost of reallocation.

  /** `moved` counts the elements that reallocations have copied, the old capacity each time. */
  datatype Vector<T> = Vector(contents: seq<T>, capacity: nat, moved: nat)

  function Empty<T>(capacity: nat): Vector<T> {
    Vector([], capacity, 0)
  }

  datatype Write<T> = Write(at: nat, source: seq<T>)

  function Apply<T>(v: Vector<T>, w: Write<T>): Vector<T>
    requires v.capacity > 0 && w.at <= |v.contents|
  {
    var needed := w.at + |w.source|;
    Vector(
      Overwrite(v.contents, w.at, w.source),
      Doubled(v.capacity, needed),
      if needed > v.capacity then v.moved + v.capacity else v.moved)
  }

  /** The capacity is the initial one doubled some number of times, at most as often as needed, and all
      reallocations together moved fewer elements than the capacity has grown by. */
  ghost predicate Amortized<T>(v: Vector<T>, initial: nat) {
    && initial > 0 && |v.contents| <= v.capacity
    && IsDoubling(initial, v.capacity)
    && (v.capacity == initial || v.capacity <= 2 * |v.contents| - 1)
    && v.moved + initial <= v.capacity
  }

  lemma ApplyAmortized<T>(v: Vector<T>, w: Write<T>, initial: nat)
    requires Amortized(v, initial) && w.at <= |v.contents|
    ensures v.capacity > 0 && Amortized(Apply(v, w), initial)
    ensures |v.contents| <= |Apply(v, w).contents|
  {
    hide IsDoubling;
    DoubledIsDoubling(initial, v.capacity, w.at + |w.source|);
  }

  /** A write that fits moves nothing, any other one the whole old capacity. */
  lemma ApplyMoves<T>(v: Vector<T>, w: Write<T>)
    requires v.capacity > 0 && w.at <= |v.contents|
    ensures Apply(v, w).capacity == v.capacity <==> w.at + |w.source| <= v.capacity
    ensures Apply(v, w).moved == v.moved + if Apply(v, w).capacity == v.capacity then 0 else v.capacity
  {
  }

  ghost predicate Legal<T>(v: Vector<T>, ws: seq<Write<T>>)
    decreases |ws|
  {
    ws == [] || (v.capacity > 0 && ws[0].at <= |v.contents| && Legal(Apply(v, ws[0]), ws[1..]))
  }

  function ApplyAll<T>(v: Vector<T>, ws: seq<Write<T>>): Vector<T>
    requires Legal(v, ws)
    decreases |ws|
  {
    if ws == [] then v else ApplyAll(Apply(v, ws[0]), ws[1..])
  }

  /** The elements that all reallocations of a run move: the capacity before each one. */
  function MovedBy<T>(v: Vector<T>, ws: seq<Write<T>>): nat
    requires Legal(v, ws)
    decreases |ws|
  {
    if ws == [] then 0
    else
      var next := Apply(v, ws[0]);
      (if next.capacity == v.capacity then 0 else v.capacity) + MovedBy(next, ws[1..])
  }

  /** Over every successful run from a fresh array of the given capacity. */
  lemma AmortizedRun<T>(ws: seq<Write<T>>, initial: nat)
    requires initial > 0 && Legal(Empty(initial), ws)
    ensures var v := ApplyAll(Empty(initial), ws);
            Amortized(v, initial) && MovedBy(Empty(initial), ws) <= 2 * |v.contents|
  {
    var empty: Vector<T> := Empty(initial);
    ZeroDoublings(initial);
    AmortizedFrom(empty, ws, initial);
  }

  lemma {:induction false} AmortizedFrom<T>(v: Vector<T>, ws: seq<Write<T>>, initial: nat)
    requires Amortized(v, initial) && Legal(v, ws)
    ensures Amortized(ApplyAll(v, ws), initial) && ApplyAll(v, ws).moved == v.moved + MovedBy(v, ws)
    decreases |ws|
  {
    if ws != [] {
      ApplyAmortized(v, ws[0], initial);
      ApplyMoves(v, ws[0]);
      AmortizedFrom(Apply(v, ws[0]), ws[1..], initial);
    }
  }

  // The array itself.

  class DArray<T(0)> {
    var capacity: nat
    var size: nat
    var dat: array<T>
    ghost var initial: nat
    ghost var moved: nat

    ghost predicate Valid()
      reads this, dat
    {
      dat.Length == capacity && size <= capacity && Amortized(Value(), initial)
    }

    ghost function Value(): Vector<T>
      requires size <= dat.Length
      reads this, dat
    {
      Vector(dat[..size], capacity, moved)
    }

    constructor Allocate(capacity: nat)
      requires capacity > 0
      ensures Valid() && fresh(dat) && Value() == Empty(capacity) && initial == capacity
    {
      this.capacity, size, initial, moved := capacity, 0, capacity, 0;
      dat := new T[capacity];
      new;
      ZeroDoublings(capacity);
    }

    /** `granted` is the outcome of both `malloc` calls; a zero capacity is refused. */
    static method Create(capacity: nat, granted: bool) returns (arr: DArray?<T>)
      ensures arr != null <==> capacity > 0 && granted
      ensures arr != null ==>
                && fresh(arr) && fresh(arr.dat) && arr.Valid() && arr.Value() == Empty(capacity)
                && arr.size == 0 && arr.capacity == arr.dat.Length == capacity
    {
      if capacity == 0 || !granted {
        return null;
      }
      arr := new DArray<T>.Allocate(capacity);
    }

    /** The element, or nothing past the end. */
    method At(i: nat) returns (found: bool, x: T)
      requires Valid()
      ensures found <==> i < |Value().contents|
      ensures found ==> x == Value().contents[i]
    {
      if i >= size {
        x := *;
        return false, x;
      }
      return true, dat[i];
    }

    /** Lays `source` over the contents from index i on; `granted` is the outcome of `realloc`. */
    method MemcpyAt(i: nat, source: seq<T>, granted: bool) returns (code: int)
      requires Valid()
      modifies this, dat
      ensures Valid() && initial == old(initial)
      ensures code ==
              if i > old(size) then -2
              else if i + |source| > old(capacity) && !granted then -1
              else 0
      ensures code != 0 ==> Value() == old(Value()) && dat == old(dat)
      ensures code == 0 ==> i <= |old(Value()).contents| && Value() == Apply(old(Value()), Write(i, source))
      ensures code == 0 ==> size == if i + |source| > old(size) then i + |source| else old(size)
      ensures code == 0 ==> size <= dat.Length && forall k | 0 <= k < size ::
                dat[k] == if i <= k < i + |source| then source[k - i] else old(dat[..size])[k]
      ensures code == 0 ==>
                if i + |source| <= old(capacity) then capacity == old(capacity) && dat == old(dat)
                else IsDoubling(old(capacity), capacity) && i + |source| <= capacity < 2 * (i + |source|)
      ensures dat == old(dat) || fresh(dat)
    {
      hide Amortized, IsDoubling, Doubled;
      ghost var before := Value();
      if i > size {
        return -2;
      }
      ApplyAmortized(before, Write(i, source), initial);
      var n := |source|;
      ZeroDoublings(capacity);
      DoubledIsDoubling(capacity, capacity, i + n);
      var newCap := CapacityFor(i + n);
      if newCap != capacity {
        if !granted {
          return -1;
        }
        Reallocate(newCap);
      }
      CopyIn(i, source);
      size := if i + n > size then i + n else size;
      assert dat[..size] == Overwrite(before.contents, i, source);
      return 0;
    }

    /** Doubles until the elements fit. */
    method CapacityFor(needed: nat) returns (newCap: nat)
      requires capacity > 0
      ensures newCap == Doubled(capacity, needed)
    {
      newCap := capacity;
      while needed > newCap
        invariant newCap > 0 && Doubled(newCap, needed) == Doubled(capacity, needed)
        decreases needed - newCap
      {
        newCap := newCap * 2;
      }
    }

    /** Moves the whole old storage to a larger one. */
    method Reallocate(newCap: nat)
      requires dat.Length == capacity < newCap
      modifies this
      ensures fresh(dat) && dat.Length == capacity == newCap && dat[..old(capacity)] == old(dat[..])
      ensures size == old(size) && initial == old(initial) && moved == old(moved) + old(capacity)
    {
      var larger := new T[newCap];
      forall k | 0 <= k < capacity {
        larger[k] := dat[k];
      }
      assert larger[..capacity] == dat[..];
      moved := moved + capacity;
      dat := larger;
      capacity := newCap;
    }

    method CopyIn(i: nat, source: seq<T>)
      requires i + |source| <= dat.Length
      modifies dat
      ensures forall k | 0 <= k < dat.Length ::
                dat[k] == if i <= k < i + |source| then source[k - i] else old(dat[k])
    {
      forall k | 0 <= k < |source| {
        dat[i + k] := source[k];
      }
    }

    method AppendN(source: seq<T>, granted: bool) returns (code: int)
      requires Valid()
      modifies this, dat
      ensures Valid() && initial == old(initial)
      ensures code == if old(size) + |source| > old(capacity) && !granted then -1 else 0
      ensures Value().contents == if code == 0 then old(Value()).contents + source else old(Value()).contents
    {
      code := MemcpyAt(size, source, granted);
    }

    method Append(x: T, granted: bool) returns (code: int)
      requires Valid()
      modifies this, dat
      ensures Valid() && initial == old(initial)
      ensures code == if old(size) == old(capacity) && !granted then -1 else 0
      ensures Value().contents == if code == 0 then old(Value()).contents + [x] else old(Value()).contents
    {
      code := AppendN([x], granted);
    }

    /** Despite its name this overwrites the element at i; only at the end does it add one. */
    method InsertAt(i: nat, x: T, granted: bool) returns (code: int)
      requires Valid()
      modifies this, dat
      ensures Valid() && initial == old(initial)
      ensures code == if i > old(size) then -2 else if i == old(capacity) && !granted then -1 else 0
      ensures code == 0 ==>
                Value().contents ==
                if i < old(size) then old(Value()).contents[i := x] else old(Value()).contents + [x]
      ensures code != 0 ==> Value().contents == old(Value()).contents
    {
      code := MemcpyAt(i, [x], granted);
    }
  }
}
