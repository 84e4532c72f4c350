/** Bit-level access to a byte buffer, and the leaf codec for fixed-width
    unsigned items.  Bit q of a buffer is bit q % 8 (least significant first)
    of byte q / 8, so a value stored at a byte-aligned position with a width
    of 8*k bits occupies k bytes in little-endian order. */
module Bits {

  /** 2^n. */
  function Pow2(n: nat): (r: nat)
    ensures r >= 1
  {
    if n == 0 then 1 else 2 * Pow2(n - 1)
  }

  lemma {:induction false} Pow2Monotone(a: nat, b: nat)
    requires a <= b
    ensures Pow2(a) <= Pow2(b)
  {
    if a < b {
      Pow2Monotone(a, b - 1);
    }
  }

  /** A buffer of `n` zero bytes, as appended by the arena. */
  function Zeros(n: nat): (r: seq<bv8>)
    ensures |r| == n
    ensures forall i :: 0 <= i < n ==> r[i] == 0
  {
    seq(n, _ => 0)
  }

  /** The single-bit mask for bit `k` of a byte. */
  function Mask(k: nat): bv8
    requires k < 8
  {
    if k == 0 then 1 else if k == 1 then 2 else if k == 2 then 4 else if k == 3 then 8
    else if k == 4 then 16 else if k == 5 then 32 else if k == 6 then 64 else 128
  }

  predicate ByteBit(y: bv8, k: nat)
    requires k < 8
  {
    y & Mask(k) != 0
  }

  function SetByteBit(y: bv8, k: nat, x: bool): bv8
    requires k < 8
  {
    if x then y | Mask(k) else y & !Mask(k)
  }

  lemma ByteSetBit(y: bv8, k: nat, j: nat, x: bool)
    requires k < 8 && j < 8
    ensures ByteBit(SetByteBit(y, k, x), j) == if j == k then x else ByteBit(y, j)
  {
  }

  /** Bit `q` of the buffer. */
  predicate GetBit(mem: seq<bv8>, q: nat)
    requires q < 8 * |mem|
  {
    ByteBit(mem[q / 8], q % 8)
  }

  /** The buffer with bit `q` set to `x`. */
  function SetBit(mem: seq<bv8>, q: nat, x: bool): (r: seq<bv8>)
    requires q < 8 * |mem|
    ensures |r| == |mem|
  {
    mem[q / 8 := SetByteBit(mem[q / 8], q % 8, x)]
  }

  /** Setting bit `q` changes bit `q` to `x` and no other bit. */
  lemma GetSetBit(mem: seq<bv8>, q: nat, x: bool, p: nat)
    requires q < 8 * |mem| && p < 8 * |mem|
    ensures GetBit(SetBit(mem, q, x), p) == if p == q then x else GetBit(mem, p)
  {
    if p / 8 == q / 8 {
      ByteSetBit(mem[q / 8], q % 8, p % 8, x);
    }
  }

  /** The unsigned value of the `w` bits starting at bit `p`, least significant first. */
  function LoadBits(mem: seq<bv8>, p: nat, w: nat): nat
    requires p + w <= 8 * |mem|
    decreases 8 * |mem| - p
  {
    if w == 0 then 0
    else (if GetBit(mem, p) then 1 else 0) + 2 * LoadBits(mem, p + 1, w - 1)
  }

  /** The buffer with the low `w` bits of `v` stored from bit `p` on. */
  function StoreBits(mem: seq<bv8>, p: nat, w: nat, v: nat): (r: seq<bv8>)
    requires p + w <= 8 * |mem|
    ensures |r| == |mem|
    decreases 8 * |mem| - p
  {
    if w == 0 then mem
    else StoreBits(SetBit(mem, p, v % 2 == 1), p + 1, w - 1, v / 2)
  }

  /** A loaded value always fits its width. */
  lemma {:induction false} LoadBitsBound(mem: seq<bv8>, p: nat, w: nat)
    requires p + w <= 8 * |mem|
    ensures LoadBits(mem, p, w) < Pow2(w)
    decreases w
  {
    if w > 0 {
      LoadBitsBound(mem, p + 1, w - 1);
    }
  }

  /** Storing touches only the bits in [p, p + w). */
  lemma {:induction false} StoreBitsFrame(mem: seq<bv8>, p: nat, w: nat, v: nat, q: nat)
    requires p + w <= 8 * |mem|
    requires q < 8 * |mem| && (q < p || p + w <= q)
    ensures GetBit(StoreBits(mem, p, w, v), q) == GetBit(mem, q)
    decreases w
  {
    if w > 0 {
      StoreBitsFrame(SetBit(mem, p, v % 2 == 1), p + 1, w - 1, v / 2, q);
      GetSetBit(mem, p, v % 2 == 1, q);
    }
  }

  /** A load sees only the bits in [p, p + w). */
  lemma {:induction false} LoadBitsCongruent(m1: seq<bv8>, m2: seq<bv8>, p: nat, w: nat)
    requires p + w <= 8 * |m1| && p + w <= 8 * |m2|
    requires forall q :: p <= q < p + w ==> GetBit(m1, q) == GetBit(m2, q)
    ensures LoadBits(m1, p, w) == LoadBits(m2, p, w)
    decreases w
  {
    if w > 0 {
      LoadBitsCongruent(m1, m2, p + 1, w - 1);
    }
  }

  /** Loading what was stored gives the value back when it fits the width. */
  lemma {:induction false} LoadStoreBits(mem: seq<bv8>, p: nat, w: nat, v: nat)
    requires p + w <= 8 * |mem|
    requires v < Pow2(w)
    ensures LoadBits(StoreBits(mem, p, w, v), p, w) == v
    decreases w
  {
    if w > 0 {
      var m1 := SetBit(mem, p, v % 2 == 1);
      var r := StoreBits(m1, p + 1, w - 1, v / 2);
      assert r == StoreBits(mem, p, w, v);
      LoadStoreBits(m1, p + 1, w - 1, v / 2);
      StoreBitsFrame(m1, p + 1, w - 1, v / 2, p);
      GetSetBit(mem, p, v % 2 == 1, p);
    }
  }

  /** Storing bits and reading them back outside the stored range: the
      load is unaffected when the two ranges are disjoint. */
  lemma LoadAfterDisjointStore(mem: seq<bv8>, p: nat, w: nat, v: nat, q: nat, u: nat)
    requires p + w <= 8 * |mem| && q + u <= 8 * |mem|
    requires p + w <= q || q + u <= p
    ensures LoadBits(StoreBits(mem, p, w, v), q, u) == LoadBits(mem, q, u)
  {
    var r := StoreBits(mem, p, w, v);
    forall x | q <= x < q + u
      ensures GetBit(r, x) == GetBit(mem, x)
    {
      StoreBitsFrame(mem, p, w, v, x);
    }
    LoadBitsCongruent(r, mem, q, u);
  }
}
