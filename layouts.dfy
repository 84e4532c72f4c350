/** What the array layout needs to know about the layouts it holds: the
    footprint of a layout (`LayoutBase::size` and `bits`) and a field slot
    (`Field<T>`: ordinal, nested layout, position inside the parent). */
module Layouts {
  import opened Bits
  import opened Positions

  /** The footprint of a layout: `size` whole bytes, or, when `size` is 0,
      `bits` bits packed inside the parent. */
  datatype LayoutInfo = LayoutInfo(size: nat, bits: nat)

  /** One member slot of a composite layout. */
  datatype Field = Field(ordinal: nat, layout: LayoutInfo, pos: Pos)

  /** The number of bits a value of layout `l` occupies. */
  function Width(l: LayoutInfo): nat
  {
    if l.size > 0 then 8 * l.size else l.bits
  }

  /** The step between consecutive items, `FieldPosition(itemBytes, itemBits)`
      with `itemBits` forced to 0 whenever `itemBytes` is not. */
  function Step(l: LayoutInfo): (r: Pos)
    ensures r.byte == 0 || r.bit == 0
    ensures AbsBit(r) == Width(l)
  {
    var itemBytes := l.size;
    var itemBits := if itemBytes != 0 then 0 else l.bits;
    Pos(itemBytes, itemBits)
  }

  /** The byte length of the item block of `n` items: the least number of
      whole bytes that holds `n` items of `Width(l)` bits. */
  function BlockBytes(n: nat, l: LayoutInfo): (r: nat)
    ensures 8 * r >= n * Width(l)
    ensures 8 * r < n * Width(l) + 8
  {
    var itemBytes := l.size;
    var itemBits := if itemBytes != 0 then 0 else l.bits;
    if itemBits != 0 then (n * itemBits + 7) / 8 else n * itemBytes
  }

  /** The bit address of `self(field.pos)`, where a field of a parent at
      `self` starts: advancing by the field's offset adds its bits to the
      parent's address (the carry only regroups them into whole bytes). */
  function FieldBit(self: Pos, f: Field): nat
  {
    AbsBit(self) + AbsBit(f.pos)
  }

  /** The position after a field of layout `l` that starts at `pos`
      (what `layoutField` returns). */
  function FieldEnd(pos: Pos, l: LayoutInfo): Pos
  {
    Advance(pos, Step(l))
  }

  /** The field lies inside the buffer. */
  predicate FieldFits(mem: seq<bv8>, self: Pos, f: Field)
  {
    FieldBit(self, f) + Width(f.layout) <= 8 * |mem|
  }

  /** `thawField`: the value stored in a field of a parent at `self`. */
  function ReadField(mem: seq<bv8>, self: Pos, f: Field): (r: nat)
    requires FieldFits(mem, self, f)
    ensures r < Pow2(Width(f.layout))
  {
    LoadBitsBound(mem, FieldBit(self, f), Width(f.layout));
    LoadBits(mem, FieldBit(self, f), Width(f.layout))
  }

  /** `freezeField`: the buffer with `v` stored in a field of a parent at `self`. */
  function WriteField(mem: seq<bv8>, self: Pos, f: Field, v: nat): (r: seq<bv8>)
    requires FieldFits(mem, self, f)
    ensures |r| == |mem|
  {
    StoreBits(mem, FieldBit(self, f), Width(f.layout), v)
  }

  /** A field read back after it was written gives the written value when it fits. */
  lemma ReadWrittenField(mem: seq<bv8>, self: Pos, f: Field, v: nat)
    requires FieldFits(mem, self, f)
    requires v < Pow2(Width(f.layout))
    ensures ReadField(WriteField(mem, self, f, v), self, f) == v
  {
    LoadStoreBits(mem, FieldBit(self, f), Width(f.layout), v);
  }

  /** `Field::clear`: the layout and position are reset, the ordinal kept. */
  function ClearedField(f: Field): (r: Field)
    ensures r.ordinal == f.ordinal
    ensures Width(r.layout) == 0 && AbsBit(r.pos) == 0
  {
    f.(layout := LayoutInfo(0, 0), pos := Pos(0, 0))
  }
}
