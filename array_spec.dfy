/** The frozen array as values: where item i lives, what `freeze` leaves in
    the buffer, what `thaw` reads back, and the round trip between them.
    The classes in module FrozenRange are proved against these functions. */
module ArraySpec {
  import opened Wrappers
  import opened Bits
  import opened Positions
  import opened Layouts
  import opened Iterators

  /** The number of bits `n` items of `w` bits occupy, written as repeated
      addition so that the proofs about item ranges stay linear. */
  function Span(n: nat, w: nat): nat
  {
    if n == 0 then 0 else Span(n - 1, w) + w
  }

  lemma {:induction false} SpanIsProduct(n: nat, w: nat)
    ensures Span(n, w) == n * w
  {
    if n > 0 {
      SpanIsProduct(n - 1, w);
    }
  }

  lemma {:induction false} SpanMonotone(m: nat, n: nat, w: nat)
    requires m <= n
    ensures Span(m, w) <= Span(n, w)
  {
    if m < n {
      SpanMonotone(m, n - 1, w);
    }
  }

  // ---------------------------------------------------------------------
  // Item addressing

  /** `View::indexPosition`: with no item layout every index maps to the
      block start; byte-aligned item i is `i * size` bytes in; bit-packed
      item i is `i * bits` bits in, with the byte offset left at the start. */
  function IndexPosition(start: nat, i: nat, itemLayout: Option<LayoutInfo>): (r: Pos)
    ensures itemLayout.None? ==> r == Pos(start, 0)
    ensures itemLayout.Some? ==> AbsBit(r) == 8 * start + i * Width(itemLayout.value)
  {
    match itemLayout
    case None => Pos(start, 0)
    case Some(l) =>
      if l.size != 0 then
        assert 8 * (l.size * i) == i * (8 * l.size);
        Pos(start + l.size * i, 0)
      else Pos(start, l.bits * i)
  }

  /** Item i of a block at `start` begins `i` item widths after the block. */
  lemma IndexPositionAbs(start: nat, i: nat, l: LayoutInfo)
    ensures AbsBit(IndexPosition(start, i, Some(l))) == 8 * start + Span(i, Width(l))
  {
    SpanIsProduct(i, Width(l));
  }

  /** The freeze loop starts at `(start, 0)` and advances by `Step(l)` once
      per item; after `i` items it stands at the normalised form of
      `IndexPosition(start, i)`, so the writer and the reader agree. */
  lemma WalkReachesIndex(start: nat, l: LayoutInfo, i: nat)
    ensures AdvanceN(Pos(start, 0), Step(l), i) == Normalise(IndexPosition(start, i, Some(l)))
  {
    AdvanceNAbs(Pos(start, 0), Step(l), i);
    SpanIsProduct(i, Width(l));
    IndexPositionAbs(start, i, l);
    NormalUnique(AdvanceN(Pos(start, 0), Step(l), i), Normalise(IndexPosition(start, i, Some(l))));
  }

  // ---------------------------------------------------------------------
  // Read side

  /** `n` items of layout `l` starting at byte `data` lie inside the buffer. */
  predicate ItemsFit(mem: seq<bv8>, data: nat, l: LayoutInfo, n: nat)
  {
    8 * data + Span(n, Width(l)) <= 8 * |mem|
  }

  /** The value of item i (`Layout<Item>::thaw` at `indexPosition(data, i)`). */
  function ReadItem(mem: seq<bv8>, data: nat, l: LayoutInfo, i: nat): (r: nat)
    requires ItemsFit(mem, data, l, i + 1)
    ensures r < Pow2(Width(l))
  {
    IndexPositionAbs(data, i, l);
    LoadBitsBound(mem, AbsBit(IndexPosition(data, i, Some(l))), Width(l));
    LoadBits(mem, AbsBit(IndexPosition(data, i, Some(l))), Width(l))
  }

  /** Items 0 .. n-1 read in index order. */
  function ItemsRead(mem: seq<bv8>, data: nat, l: LayoutInfo, n: nat): (r: seq<nat>)
    requires ItemsFit(mem, data, l, n)
    ensures |r| == n
  {
    if n == 0 then []
    else ItemsRead(mem, data, l, n - 1) + [ReadItem(mem, data, l, n - 1)]
  }

  /** Element i of the items read is item i. */
  lemma {:induction false} ItemsReadAt(mem: seq<bv8>, data: nat, l: LayoutInfo, n: nat, i: nat)
    requires ItemsFit(mem, data, l, n) && i < n
    ensures ItemsFit(mem, data, l, i + 1)
    ensures ItemsRead(mem, data, l, n)[i] == ReadItem(mem, data, l, i)
  {
    if i < n - 1 {
      ItemsReadAt(mem, data, l, n - 1, i);
    }
  }

  /** Reading one more item of a block of `n` extends the items read by it. */
  lemma ItemsReadStep(mem: seq<bv8>, data: nat, l: LayoutInfo, n: nat, k: nat)
    requires ItemsFit(mem, data, l, n) && k < n
    ensures ItemsFit(mem, data, l, k) && ItemsFit(mem, data, l, k + 1)
    ensures ItemsRead(mem, data, l, k + 1) == ItemsRead(mem, data, l, k) + [ReadItem(mem, data, l, k)]
  {
    SpanMonotone(k + 1, n, Width(l));
  }

  /** What a view needs of the buffer: the count field, and, for a
      non-empty array only, the distance field and the item block. */
  predicate Readable(mem: seq<bv8>, self: Pos, distance: Field, count: Field, itemLayout: LayoutInfo)
  {
    FieldFits(mem, self, count) &&
    (ReadField(mem, self, count) > 0 ==>
      FieldFits(mem, self, distance) &&
      ItemsFit(mem, self.byte + ReadField(mem, self, distance), itemLayout, ReadField(mem, self, count)))
  }

  /** The sequence `thaw` rebuilds: empty when the count is 0, otherwise the
      count items of the block `distance` bytes after the array's start. */
  function Thawed(mem: seq<bv8>, self: Pos, distance: Field, count: Field, itemLayout: LayoutInfo): (r: seq<nat>)
    requires Readable(mem, self, distance, count, itemLayout)
    ensures |r| == ReadField(mem, self, count)
  {
    var n := ReadField(mem, self, count);
    if n == 0 then [] else ItemsRead(mem, self.byte + ReadField(mem, self, distance), itemLayout, n)
  }

  // ---------------------------------------------------------------------
  // Write side

  /** The buffer after the first `n` items of `coll` were stored one after
      the other, `w` bits each, from bit `base` on. */
  function ItemsWritten(mem: seq<bv8>, base: nat, w: nat, coll: seq<nat>, n: nat): (r: seq<bv8>)
    requires n <= |coll| && base + Span(n, w) <= 8 * |mem|
    ensures |r| == |mem|
  {
    if n == 0 then mem
    else StoreBits(ItemsWritten(mem, base, w, coll, n - 1), base + Span(n - 1, w), w, coll[n - 1])
  }

  /** `buf` is `mem` with the first `i` items of `coll` stored. */
  predicate ItemsStored(buf: seq<bv8>, mem: seq<bv8>, base: nat, w: nat, coll: seq<nat>, i: nat)
  {
    i <= |coll| && base + Span(i, w) <= 8 * |mem| && buf == ItemsWritten(mem, base, w, coll, i)
  }

  /** One step of `freezeItems`: writing item `i` into the item field of
      the slot at `w` extends the items stored so far, and the next slot
      starts one item width further on. */
  lemma FreezeItemStep(mem: seq<bv8>, cur: seq<bv8>, w: Pos, f: Field, base: nat, coll: seq<nat>, i: nat)
    requires i < |coll| && base + Span(|coll|, Width(f.layout)) <= 8 * |mem|
    requires FieldBit(w, f) == base + Span(i, Width(f.layout))
    requires ItemsStored(cur, mem, base, Width(f.layout), coll, i)
    ensures FieldFits(cur, w, f)
    ensures ItemsStored(WriteField(cur, w, f, coll[i]), mem, base, Width(f.layout), coll, i + 1)
    ensures FieldBit(Advance(w, Step(f.layout)), f) == base + Span(i + 1, Width(f.layout))
  {
    SpanMonotone(i + 1, |coll|, Width(f.layout));
    var next := Advance(w, Step(f.layout));
    assert AbsBit(next) == AbsBit(w) + Width(f.layout);
  }

  /** Storing the items leaves every load outside the item range unchanged. */
  lemma {:induction false} ItemsWrittenFrame(mem: seq<bv8>, base: nat, w: nat, coll: seq<nat>, n: nat, q: nat, u: nat)
    requires n <= |coll| && base + Span(n, w) <= 8 * |mem|
    requires q + u <= base || base + Span(n, w) <= q
    requires q + u <= 8 * |mem|
    ensures LoadBits(ItemsWritten(mem, base, w, coll, n), q, u) == LoadBits(mem, q, u)
  {
    if n > 0 {
      var prev := ItemsWritten(mem, base, w, coll, n - 1);
      ItemsWrittenFrame(mem, base, w, coll, n - 1, q, u);
      LoadAfterDisjointStore(prev, base + Span(n - 1, w), w, coll[n - 1], q, u);
    }
  }

  /** The last item stored reads back as written. */
  lemma ItemsWrittenLast(mem: seq<bv8>, base: nat, w: nat, coll: seq<nat>, n: nat)
    requires 0 < n <= |coll| && base + Span(n, w) <= 8 * |mem|
    requires coll[n - 1] < Pow2(w)
    ensures LoadBits(ItemsWritten(mem, base, w, coll, n), base + Span(n - 1, w), w) == coll[n - 1]
  {
    LoadStoreBits(ItemsWritten(mem, base, w, coll, n - 1), base + Span(n - 1, w), w, coll[n - 1]);
  }

  /** Storing the last item leaves the earlier ones as they were. */
  lemma ItemsWrittenEarlier(mem: seq<bv8>, base: nat, w: nat, coll: seq<nat>, n: nat, i: nat)
    requires n <= |coll| && base + Span(n, w) <= 8 * |mem|
    requires i + 1 < n
    ensures Span(i, w) + w <= Span(n - 1, w)
    ensures LoadBits(ItemsWritten(mem, base, w, coll, n), base + Span(i, w), w)
         == LoadBits(ItemsWritten(mem, base, w, coll, n - 1), base + Span(i, w), w)
  {
    SpanMonotone(i + 1, n - 1, w);
    var prev := ItemsWritten(mem, base, w, coll, n - 1);
    LoadAfterDisjointStore(prev, base + Span(n - 1, w), w, coll[n - 1], base + Span(i, w), w);
  }

  /** Every stored item reads back as written when the items fit the width. */
  lemma {:induction false} ItemsWrittenRead(mem: seq<bv8>, base: nat, w: nat, coll: seq<nat>, n: nat, i: nat)
    requires n <= |coll| && base + Span(n, w) <= 8 * |mem|
    requires i < n && coll[i] < Pow2(w)
    ensures base + Span(i, w) + w <= 8 * |mem|
    ensures LoadBits(ItemsWritten(mem, base, w, coll, n), base + Span(i, w), w) == coll[i]
  {
    SpanMonotone(i + 1, n, w);
    if i == n - 1 {
      ItemsWrittenLast(mem, base, w, coll, n);
    } else {
      ItemsWrittenEarlier(mem, base, w, coll, n, i);
      ItemsWrittenRead(mem, base, w, coll, n - 1, i);
    }
  }

  /** What `freeze` needs of the buffer: the array's own header lies in it. */
  predicate FreezeFits(mem: seq<bv8>, self: Pos, distance: Field, count: Field)
  {
    self.byte <= |mem| && FieldFits(mem, self, distance) && FieldFits(mem, self, count)
  }

  /** The header as the layout phase places it: `distance` at the array's
      start, `count` right after it. */
  predicate HeaderLaidOut(distance: Field, count: Field)
    ensures HeaderLaidOut(distance, count) ==>
      AbsBit(distance.pos) == 0 && AbsBit(count.pos) == Width(distance.layout)
  {
    distance.pos == Pos(0, 0) && count.pos == FieldEnd(Pos(0, 0), distance.layout)
  }

  /** The buffer after `freeze` appended the item block for `n` items and
      stored the distance to that block and the count in the header. */
  function HeaderWritten(mem: seq<bv8>, self: Pos, distance: Field, count: Field, itemLayout: LayoutInfo, n: nat): (r: seq<bv8>)
    requires FreezeFits(mem, self, distance, count)
    ensures |r| == |mem| + BlockBytes(n, itemLayout)
  {
    var m1 := mem + Zeros(BlockBytes(n, itemLayout));
    var m2 := WriteField(m1, self, distance, |mem| - self.byte);
    WriteField(m2, self, count, n)
  }

  /** As laid out, `distance` starts at the array's own position and
      `count` follows it directly, so the two fields do not overlap. */
  lemma HeaderOffsets(self: Pos, distance: Field, count: Field)
    requires HeaderLaidOut(distance, count)
    ensures FieldBit(self, distance) == AbsBit(self)
    ensures FieldBit(self, count) == AbsBit(self) + Width(distance.layout)
  {
    var s := Step(distance.layout);
    assert AbsBit(count.pos) == AbsBit(s);
  }

  /** Writing the distance and then the count into a header as laid out:
      both fields read back as written, since they do not overlap. */
  lemma HeaderFieldsRead(m1: seq<bv8>, self: Pos, distance: Field, count: Field, d: nat, n: nat)
    requires HeaderLaidOut(distance, count)
    requires FieldFits(m1, self, distance) && FieldFits(m1, self, count)
    requires d < Pow2(Width(distance.layout)) && n < Pow2(Width(count.layout))
    ensures var h := WriteField(WriteField(m1, self, distance, d), self, count, n);
      FieldFits(h, self, count) && FieldFits(h, self, distance) &&
      ReadField(h, self, count) == n && ReadField(h, self, distance) == d
  {
    var m2 := WriteField(m1, self, distance, d);
    HeaderOffsets(self, distance, count);
    ReadWrittenField(m2, self, count, n);
    ReadWrittenField(m1, self, distance, d);
    LoadAfterDisjointStore(m2, FieldBit(self, count), Width(count.layout), n,
                           FieldBit(self, distance), Width(distance.layout));
  }

  /** The two header fields read back as written. */
  lemma HeaderWrittenRead(mem: seq<bv8>, self: Pos, distance: Field, count: Field, itemLayout: LayoutInfo, n: nat)
    requires FreezeFits(mem, self, distance, count) && HeaderLaidOut(distance, count)
    requires |mem| - self.byte < Pow2(Width(distance.layout))
    requires n < Pow2(Width(count.layout))
    ensures var h := HeaderWritten(mem, self, distance, count, itemLayout, n);
      FieldFits(h, self, count) && FieldFits(h, self, distance) &&
      ReadField(h, self, count) == n && ReadField(h, self, distance) == |mem| - self.byte
  {
    var m1 := mem + Zeros(BlockBytes(n, itemLayout));
    HeaderFieldsRead(m1, self, distance, count, |mem| - self.byte, n);
  }

  /** The buffer `freeze` leaves: the header written as above, then the
      items stored in order from the first bit of the appended block. */
  function Frozen(mem: seq<bv8>, self: Pos, distance: Field, count: Field, itemLayout: LayoutInfo, coll: seq<nat>): (r: seq<bv8>)
    requires FreezeFits(mem, self, distance, count)
    ensures |r| == |mem| + BlockBytes(|coll|, itemLayout)
  {
    SpanIsProduct(|coll|, Width(itemLayout));
    ItemsWritten(HeaderWritten(mem, self, distance, count, itemLayout, |coll|), 8 * |mem|, Width(itemLayout), coll, |coll|)
  }

  /** After `freeze` the header holds the count and the distance from the
      array's start to the block it appended. */
  lemma FrozenHeader(mem: seq<bv8>, self: Pos, distance: Field, count: Field, itemLayout: LayoutInfo, coll: seq<nat>)
    requires FreezeFits(mem, self, distance, count) && HeaderLaidOut(distance, count)
    requires |mem| - self.byte < Pow2(Width(distance.layout))
    requires |coll| < Pow2(Width(count.layout))
    ensures var r := Frozen(mem, self, distance, count, itemLayout, coll);
      FieldFits(r, self, count) && FieldFits(r, self, distance) &&
      ReadField(r, self, count) == |coll| && self.byte + ReadField(r, self, distance) == |mem|
  {
    var h := HeaderWritten(mem, self, distance, count, itemLayout, |coll|);
    SpanIsProduct(|coll|, Width(itemLayout));
    HeaderWrittenRead(mem, self, distance, count, itemLayout, |coll|);
    ItemsWrittenFrame(h, 8 * |mem|, Width(itemLayout), coll, |coll|, FieldBit(self, count), Width(count.layout));
    ItemsWrittenFrame(h, 8 * |mem|, Width(itemLayout), coll, |coll|, FieldBit(self, distance), Width(distance.layout));
  }

  /** Items stored one after the other from byte `data` are where the
      reader looks for them: item i of the block reads back as `coll[i]`. */
  lemma ItemsBlockRead(h: seq<bv8>, data: nat, l: LayoutInfo, coll: seq<nat>, i: nat)
    requires 8 * data + Span(|coll|, Width(l)) <= 8 * |h|
    requires i < |coll| && coll[i] < Pow2(Width(l))
    ensures var r := ItemsWritten(h, 8 * data, Width(l), coll, |coll|);
      ItemsFit(r, data, l, |coll|) && ItemsFit(r, data, l, i + 1) &&
      ReadItem(r, data, l, i) == coll[i]
  {
    var w := Width(l);
    SpanMonotone(i + 1, |coll|, w);
    ItemsWrittenRead(h, 8 * data, w, coll, |coll|, i);
    IndexPositionAbs(data, i, l);
  }

  /** After `freeze` item i of the block reads back as `coll[i]`. */
  lemma FrozenItem(mem: seq<bv8>, self: Pos, distance: Field, count: Field, itemLayout: LayoutInfo, coll: seq<nat>, i: nat)
    requires FreezeFits(mem, self, distance, count)
    requires forall j :: 0 <= j < |coll| ==> coll[j] < Pow2(Width(itemLayout))
    requires i < |coll|
    ensures var r := Frozen(mem, self, distance, count, itemLayout, coll);
      ItemsFit(r, |mem|, itemLayout, |coll|) && ItemsFit(r, |mem|, itemLayout, i + 1) &&
      ReadItem(r, |mem|, itemLayout, i) == coll[i]
  {
    var h := HeaderWritten(mem, self, distance, count, itemLayout, |coll|);
    SpanIsProduct(|coll|, Width(itemLayout));
    ItemsBlockRead(h, |mem|, itemLayout, coll, i);
  }

  /** After `freeze` the items read in index order from the appended block
      are the frozen sequence. */
  lemma FrozenItemsRead(mem: seq<bv8>, self: Pos, distance: Field, count: Field, itemLayout: LayoutInfo, coll: seq<nat>)
    requires FreezeFits(mem, self, distance, count)
    requires forall j :: 0 <= j < |coll| ==> coll[j] < Pow2(Width(itemLayout))
    ensures var r := Frozen(mem, self, distance, count, itemLayout, coll);
      ItemsFit(r, |mem|, itemLayout, |coll|) && ItemsRead(r, |mem|, itemLayout, |coll|) == coll
  {
    var r := Frozen(mem, self, distance, count, itemLayout, coll);
    var n := |coll|;
    SpanIsProduct(n, Width(itemLayout));
    var t := ItemsRead(r, |mem|, itemLayout, n);
    forall i | 0 <= i < n
      ensures t[i] == coll[i]
    {
      FrozenItem(mem, self, distance, count, itemLayout, coll, i);
      ItemsReadAt(r, |mem|, itemLayout, n, i);
    }
  }

  /** The round trip: after `freeze`, the header holds the count and (for a
      non-empty array) the distance to the block, and `thaw` gives back the
      frozen sequence element by element, provided each value fits the
      width its field layout was sized to. */
  lemma FreezeThawRoundTrip(mem: seq<bv8>, self: Pos, distance: Field, count: Field, itemLayout: LayoutInfo, coll: seq<nat>)
    requires FreezeFits(mem, self, distance, count) && HeaderLaidOut(distance, count)
    requires |mem| - self.byte < Pow2(Width(distance.layout))
    requires |coll| < Pow2(Width(count.layout))
    requires forall j :: 0 <= j < |coll| ==> coll[j] < Pow2(Width(itemLayout))
    ensures var r := Frozen(mem, self, distance, count, itemLayout, coll);
      Readable(r, self, distance, count, itemLayout) &&
      ReadField(r, self, count) == |coll| &&
      (|coll| > 0 ==> self.byte + ReadField(r, self, distance) == |mem|) &&
      Thawed(r, self, distance, count, itemLayout) == coll
  {
    var r := Frozen(mem, self, distance, count, itemLayout, coll);
    FrozenHeader(mem, self, distance, count, itemLayout, coll);
    FrozenItemsRead(mem, self, distance, count, itemLayout, coll);
  }

  // ---------------------------------------------------------------------
  // Field widths and `size_t`

  lemma Pow2Add(a: nat, b: nat)
    ensures Pow2(a + b) == Pow2(a) * Pow2(b)
    decreases a
  {
    if a > 0 {
      Pow2Add(a - 1, b);
    }
  }

  /** A field of at most 64 bits holds a `size_t`. */
  lemma Pow2Word()
    ensures Pow2(64) == WordModulus
  {
    assert Pow2(2) == 4;
    Pow2Add(2, 2);
    assert Pow2(4) == 0x10;
    Pow2Add(4, 4);
    assert Pow2(8) == 0x100;
    Pow2Add(8, 8);
    assert Pow2(16) == 0x1_0000;
    Pow2Add(16, 16);
    assert Pow2(32) == 0x1_0000_0000;
    Pow2Add(32, 32);
  }
}
