/** Locations inside a buffer.  The layout, freeze and view phases each
    address a buffer by a byte offset plus a bit offset; a field's offset
    inside its parent and a per-item step have the same shape. */
module Positions {

  /** A byte offset and a bit offset (the bit offset may exceed 7 before
      normalisation, as item positions of bit-packed arrays do). */
  datatype Pos = Pos(byte: nat, bit: nat)

  /** Bits per byte. */
  const ByteBits: nat := 8

  /** The absolute bit address of a position. */
  function AbsBit(p: Pos): nat
  {
    ByteBits * p.byte + p.bit
  }

  /** The position `bit` bits after byte `byte`, with every whole byte of
      the bit offset carried into the byte offset. */
  function Carry(byte: nat, bit: nat): (r: Pos)
    ensures AbsBit(r) == 8 * byte + bit
    ensures r.bit < 8
  {
    Pos(byte + bit / ByteBits, bit % ByteBits)
  }

  /** `p(step)`: add the whole bytes and the bits of `step` to `p`,
      carrying bit overflow into the byte offset. */
  function Advance(p: Pos, step: Pos): (r: Pos)
    ensures AbsBit(r) == AbsBit(p) + AbsBit(step)
    ensures r.bit < 8
  {
    Carry(p.byte + step.byte, p.bit + step.bit)
  }

  /** The position with the same bit address and a bit offset below 8. */
  function Normalise(p: Pos): Pos
  {
    Carry(p.byte, p.bit)
  }

  /** Normalised positions are determined by their bit address. */
  lemma NormalUnique(p: Pos, q: Pos)
    requires p.bit < 8 && q.bit < 8
    requires AbsBit(p) == AbsBit(q)
    ensures p == q
  {
  }

  /** `n` successive advances of `p` by `step`, as a `write = write(step)` loop performs. */
  function AdvanceN(p: Pos, step: Pos, n: nat): Pos
  {
    if n == 0 then p else Advance(AdvanceN(p, step, n - 1), step)
  }

  /** The positions a `write = write(step)` loop of `n` rounds starts its
      rounds at: element `k` is `k` advances after `p`. */
  function Walk(p: Pos, step: Pos, n: nat): (r: seq<Pos>)
    ensures |r| == n
    ensures forall k :: 0 <= k < n ==> r[k] == AdvanceN(p, step, k)
  {
    if n == 0 then [] else Walk(p, step, n - 1) + [AdvanceN(p, step, n - 1)]
  }

  /** Repeated advances move the bit address by exactly `n` steps. */
  lemma {:induction false} AdvanceNAbs(p: Pos, step: Pos, n: nat)
    ensures AbsBit(AdvanceN(p, step, n)) == AbsBit(p) + n * AbsBit(step)
  {
    if n > 0 {
      AdvanceNAbs(p, step, n - 1);
      assert (n - 1) * AbsBit(step) + AbsBit(step) == n * AbsBit(step);
    }
  }

  /** Advancing by two steps in turn equals advancing once by their sum. */
  lemma AdvanceCompose(p: Pos, a: Pos, b: Pos)
    ensures Advance(Advance(p, a), b) == Advance(p, Pos(a.byte + b.byte, a.bit + b.bit))
  {
    NormalUnique(Advance(Advance(p, a), b), Advance(p, Pos(a.byte + b.byte, a.bit + b.bit)));
  }
}
