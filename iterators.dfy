/** The arithmetic of `ArrayLayout::View::Iterator`: a `size_t` index that
    wraps modulo 2^64, `ptrdiff_t` differences, and the post-increment and
    post-decrement operators.  The class `FrozenRange.Iterator` is proved
    against these functions. */
module Iterators {
  import opened Wrappers

  const WordModulus: int := 0x1_0000_0000_0000_0000
  const HalfWord: int := 0x8000_0000_0000_0000

  /** A value of `size_t`. */
  type SizeT = x: int | 0 <= x < WordModulus

  /** A value of `ptrdiff_t`. */
  predicate IsPtrdiff(d: int)
  {
    -HalfWord <= d < HalfWord
  }

  /** Unsigned 64-bit wrap-around. */
  function Wrap(x: int): (r: nat)
    ensures r < WordModulus
  {
    x % WordModulus
  }

  /** The wrap-around is the unique remainder: any decomposition of `x`
      into a multiple of 2^64 and a `size_t` names it. */
  lemma WrapUnique(x: int, k: int, r: int)
    requires x == k * WordModulus + r && 0 <= r < WordModulus
    ensures Wrap(x) == r
  {
  }

  /** Values that fit a `size_t` are left alone by the wrap-around. */
  lemma WrapFits(x: int)
    requires 0 <= x < WordModulus
    ensures Wrap(x) == x
  {
    WrapUnique(x, 0, x);
  }

  /** Adding multiples of 2^64 does not change the wrapped value. */
  lemma WrapShift(x: int, k: int)
    ensures Wrap(x + k * WordModulus) == Wrap(x)
  {
    var q := x / WordModulus;
    assert x == q * WordModulus + Wrap(x);
    WrapUnique(x + k * WordModulus, q + k, Wrap(x));
  }

  /** Wrapping an intermediate result does not change the final wrapped value. */
  lemma WrapAdd(x: int, y: int)
    ensures Wrap(Wrap(x) + y) == Wrap(x + y)
  {
    var q := x / WordModulus;
    assert Wrap(x) + y == (x + y) + (-q) * WordModulus;
    WrapShift(x + y, -q);
  }

  /** A 64-bit pattern read as a two's-complement `ptrdiff_t`. */
  function Signed(x: nat): (r: int)
    requires x < WordModulus
    ensures IsPtrdiff(r)
  {
    if x < HalfWord then x else x - WordModulus
  }

  /** Reading a pattern as signed and wrapping it back gives the pattern. */
  lemma SignedWrap(x: nat)
    requires x < WordModulus
    ensures Wrap(Signed(x)) == x
  {
    if x < HalfWord {
      WrapFits(x);
    } else {
      WrapShift(x - WordModulus, 1);
      WrapFits(x);
    }
  }

  /** Wrapping a `ptrdiff_t` and reading it back as signed gives it back. */
  lemma WrapSigned(d: int)
    requires IsPtrdiff(d)
    ensures Signed(Wrap(d)) == d
  {
    if d >= 0 {
      WrapFits(d);
    } else {
      WrapShift(d, 1);
      WrapFits(d + WordModulus);
    }
  }

  /** The part of an iterator that its arithmetic and comparisons see:
      `index_` and `data_` (the item layout is carried along unchanged). */
  datatype IterPos = IterPos(index: nat, data: Option<nat>)

  /** `it += delta`, `it + delta` (and, with `-delta`, `-=` and `-`):
      only the index moves, modulo 2^64. */
  function Offset(c: IterPos, delta: int): (r: IterPos)
    ensures r.data == c.data && r.index < WordModulus
  {
    c.(index := Wrap(c.index + delta))
  }

  /** An offset moves the index by `delta`, modulo 2^64. */
  lemma OffsetMoves(c: IterPos, delta: int)
    ensures Wrap(Offset(c, delta).index - c.index) == Wrap(delta)
  {
    WrapAdd(c.index + delta, -(c.index as int));
  }

  /** `a - b`: the index difference, computed in `size_t` and read as `ptrdiff_t`. */
  function Difference(a: IterPos, b: IterPos): (r: int)
    ensures IsPtrdiff(r)
  {
    Signed(Wrap(a.index - b.index))
  }

  /** Adding the difference to `b`'s index gives `a`'s index, modulo 2^64. */
  lemma DifferenceWraps(a: IterPos, b: IterPos)
    ensures Wrap(b.index + Difference(a, b)) == Wrap(a.index)
  {
    var w := Wrap(a.index - b.index);
    SignedWrap(w);
    WrapAdd(Signed(w), b.index);
    WrapAdd(a.index - b.index, b.index);
  }

  /** `(a + k) - a == k` for every `ptrdiff_t` k. */
  lemma OffsetDifference(c: IterPos, k: int)
    requires IsPtrdiff(k)
    ensures Difference(Offset(c, k), c) == k
  {
    OffsetMoves(c, k);
    WrapSigned(k);
  }

  /** `b + (a - b) == a` for iterators over the same data. */
  lemma DifferenceOffset(a: IterPos, b: IterPos)
    requires a.index < WordModulus && a.data == b.data
    ensures Offset(b, Difference(a, b)) == a
  {
    DifferenceWraps(a, b);
    WrapFits(a.index);
  }

  /** Two offsets compose into one. */
  lemma OffsetCompose(c: IterPos, a: int, b: int)
    ensures Offset(Offset(c, a), b) == Offset(c, a + b)
  {
    WrapAdd(c.index + a, b);
  }

  /** `++` followed by `--` (and `--` followed by `++`) is the identity. */
  lemma IncrementDecrement(c: IterPos)
    requires c.index < WordModulus
    ensures Offset(Offset(c, 1), -1) == c
    ensures Offset(Offset(c, -1), 1) == c
  {
    OffsetCompose(c, 1, -1);
    OffsetCompose(c, -1, 1);
    WrapFits(c.index);
  }

  /** The position after `k` applications of `++`. */
  function Increments(c: IterPos, k: nat): IterPos
  {
    if k == 0 then c else Offset(Increments(c, k - 1), 1)
  }

  /** `k` increments move the iterator as `it + k` does. */
  lemma {:induction false} IncrementsOffset(c: IterPos, k: nat)
    requires c.index < WordModulus
    ensures Increments(c, k) == Offset(c, k)
  {
    if k == 0 {
      WrapFits(c.index);
    } else {
      IncrementsOffset(c, k - 1);
      OffsetCompose(c, k - 1, 1);
    }
  }

  /** From `begin()` (index 0) the iterator equals `end()` (index count)
      after exactly `count` increments and no other number below 2^64, so a
      begin-to-end loop visits `count` positions. */
  lemma BeginReachesEnd(data: Option<nat>, count: nat, k: nat)
    requires count < WordModulus && k < WordModulus
    ensures Increments(IterPos(0, data), k) == IterPos(count, data) <==> k == count
    ensures Offset(IterPos(0, data), k) == IterPos(count, data) <==> k == count
  {
    IncrementsOffset(IterPos(0, data), k);
    WrapFits(k);
  }

  // ---------------------------------------------------------------------
  // Post-increment and post-decrement

  /** `it++` as written: a `const` operator that returns the advanced copy
      and leaves `it` where it was.  The pair is (returned, `it` afterwards). */
  function PostIncrementAsWritten(c: IterPos): (r: (IterPos, IterPos))
    ensures r.1 == c && Difference(r.0, c) == 1
  {
    OffsetDifference(c, 1);
    (Offset(c, 1), c)
  }

  /** `it++` as the iterator requirements define it: `it` advances and the
      old position is returned. */
  function PostIncrement(c: IterPos): (r: (IterPos, IterPos))
    ensures r.0 == c && Difference(r.1, c) == 1
  {
    OffsetDifference(c, 1);
    (c, Offset(c, 1))
  }

  /** `it--` as written, the mirror image of `PostIncrementAsWritten`. */
  function PostDecrementAsWritten(c: IterPos): (r: (IterPos, IterPos))
    ensures r.1 == c && Difference(r.0, c) == -1
  {
    OffsetDifference(c, -1);
    (Offset(c, -1), c)
  }

  /** `it--` as the iterator requirements define it. */
  function PostDecrement(c: IterPos): (r: (IterPos, IterPos))
    ensures r.0 == c && Difference(r.1, c) == -1
  {
    OffsetDifference(c, -1);
    (c, Offset(c, -1))
  }

  /** The written post-increment never moves the iterator and always
      disagrees with the intended one: `for (it = begin; it != end; it++)`
      over a non-empty view never reaches `end`. */
  lemma PostIncrementAsWrittenStalls(c: IterPos)
    ensures PostIncrementAsWritten(c).1 == c
    ensures PostIncrementAsWritten(c) != PostIncrement(c)
  {
    OffsetDifference(c, 1);
    WrapFits(0);
  }

  /** The same for post-decrement. */
  lemma PostDecrementAsWrittenStalls(c: IterPos)
    ensures PostDecrementAsWritten(c).1 == c
    ensures PostDecrementAsWritten(c) != PostDecrement(c)
  {
    OffsetDifference(c, -1);
    WrapFits(0);
  }
}
