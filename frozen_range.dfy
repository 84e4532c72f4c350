/** `ArrayLayout<T, Item>`: the layout of a frozen array, its `View` and the
    view's random-access `Iterator`.  The buffer, the roots and the item
    codec are the ones of modules Bits, Layouts and Roots; every operation is
    proved against the value-level functions of module ArraySpec. */
module FrozenRange {
  import opened Wrappers
  import opened Bits
  import opened Positions
  import opened Layouts
  import opened Roots
  import opened ArraySpec
  import opened Iterators

  /** The layout of an array: its own footprint (`LayoutBase::size` and
      `bits`) and its three field slots. */
  class ArrayLayout {
    var size: nat
    var bits: nat
    var distance: Field
    var count: Field
    var item: Field

    /** The ordinals are fixed, the two header fields hold `size_t`
        values, so neither is wider than 64 bits, and the item field sits
        at the start of its slot. */
    predicate Valid()
      reads this
    {
      distance.ordinal == 1 && count.ordinal == 2 && item.ordinal == 3 &&
      Width(distance.layout) <= 64 && Width(count.layout) <= 64 &&
      AbsBit(item.pos) == 0
    }

    /** `ArrayLayout()`: fields 1, 2 and 3, all still empty. */
    constructor ()
      ensures Valid()
      ensures size == 0 && bits == 0
      ensures distance == Field(1, LayoutInfo(0, 0), Pos(0, 0))
      ensures count == Field(2, LayoutInfo(0, 0), Pos(0, 0))
      ensures item == Field(3, LayoutInfo(0, 0), Pos(0, 0))
    {
      size, bits := 0, 0;
      distance := Field(1, LayoutInfo(0, 0), Pos(0, 0));
      count := Field(2, LayoutInfo(0, 0), Pos(0, 0));
      item := Field(3, LayoutInfo(0, 0), Pos(0, 0));
    }

    /** The field layouts as the layout root's sizing passes leave them
        (those passes are not part of this model). */
    method SetFieldLayouts(distanceLayout: LayoutInfo, countLayout: LayoutInfo, itemLayout: LayoutInfo)
      requires distance.ordinal == 1 && count.ordinal == 2 && item.ordinal == 3
      requires AbsBit(item.pos) == 0
      requires Width(distanceLayout) <= 64 && Width(countLayout) <= 64
      modifies this
      ensures Valid()
      ensures size == old(size) && bits == old(bits)
      ensures distance == old(distance).(layout := distanceLayout)
      ensures count == old(count).(layout := countLayout)
      ensures item == old(item).(layout := itemLayout)
    {
      distance := distance.(layout := distanceLayout);
      count := count.(layout := countLayout);
      item := item.(layout := itemLayout);
    }

    /** `layout`: reserves the item block (its size by `BlockBytes`), places
        `distance` at the array's start and `count` right after it, and
        places every item; returns the position after the two header fields.
        `placed[i]` is where item i was placed: the normalised
        `IndexPosition` of i in the reserved block, where a view looks. */
    method Layout(root: LayoutRoot, coll: seq<nat>, self: Pos) returns (pos: Pos, ghost placed: seq<Pos>)
      requires Valid()
      requires self.byte <= root.cursor
      modifies this, root
      ensures Valid()
      ensures root.cursor == old(root.cursor) + BlockBytes(|coll|, item.layout)
      ensures HeaderLaidOut(distance, count)
      ensures pos == FieldEnd(count.pos, count.layout)
      ensures AbsBit(pos) == Width(distance.layout) + Width(count.layout)
      ensures distance.layout == old(distance.layout) && count.layout == old(count.layout)
      ensures item == old(item).(pos := if coll == [] then old(item.pos) else Pos(0, 0))
      ensures distance.ordinal == old(distance.ordinal) && count.ordinal == old(count.ordinal)
      ensures size == old(size) && bits == old(bits)
      ensures |placed| == |coll|
      ensures forall i :: 0 <= i < |coll| ==>
        placed[i] == Normalise(IndexPosition(old(root.cursor), i, Some(item.layout)))
    {
      var n := |coll|;
      var dist := root.LayoutBytesDistance(self.byte, BlockBytes(n, item.layout));
      var start := Pos(0, 0);
      distance := distance.(pos := start);
      pos := FieldEnd(start, distance.layout);
      count := count.(pos := pos);
      pos := FieldEnd(pos, count.layout);
      HeaderOffsets(self, distance, count);
      var write := Pos(self.byte + dist, 0);
      var writeStep := Step(item.layout);
      var ret;
      ret, placed := LayoutItems(root, coll, self, pos, write, writeStep);
      pos := ret;
      forall i | 0 <= i < n
        ensures placed[i] == Normalise(IndexPosition(old(root.cursor), i, Some(item.layout)))
      {
        WalkReachesIndex(old(root.cursor), item.layout, i);
      }
    }

    /** `layoutItems`: places the item field at the start of each item
        slot, advancing the write position by `writeStep` per item;
        returns `pos` unchanged. */
    method LayoutItems(root: LayoutRoot, coll: seq<nat>, self: Pos, pos: Pos, write: Pos, writeStep: Pos)
      returns (ret: Pos, ghost placed: seq<Pos>)
      modifies this`item
      ensures ret == pos
      ensures item == old(item).(pos := if coll == [] then old(item.pos) else Pos(0, 0))
      ensures distance == old(distance) && count == old(count)
      ensures size == old(size) && bits == old(bits)
      ensures placed == Walk(write, writeStep, |coll|)
    {
      var noField := Pos(0, 0);
      var w := write;
      placed := [];
      for i := 0 to |coll|
        invariant w == AdvanceN(write, writeStep, i)
        invariant placed == Walk(write, writeStep, i)
        invariant item == old(item).(pos := if i == 0 then old(item.pos) else Pos(0, 0))
      {
        item := item.(pos := noField);
        placed := placed + [w];
        w := Advance(w, writeStep);
      }
      ret := pos;
    }

    /** `freeze`: appends the item block, stores the distance to it and
        the count in the header, then stores the items. */
    method Freeze(root: FreezeRoot, coll: seq<nat>, self: Pos)
      requires Valid()
      requires FreezeFits(root.buf, self, distance, count)
      modifies root
      ensures root.buf == Frozen(old(root.buf), self, distance, count, item.layout, coll)
    {
      ghost var mem := root.buf;
      var n := |coll|;
      var block, dist := root.AppendBytes(self.byte, BlockBytes(n, item.layout));
      root.FreezeField(self, distance, dist);
      root.FreezeField(self, count, n);
      assert root.buf == HeaderWritten(mem, self, distance, count, item.layout, n);
      SpanIsProduct(n, Width(item.layout));
      var write := Pos(self.byte + dist, 0);
      var writeStep := Step(item.layout);
      assert FieldBit(write, item) == 8 * |mem|;
      FreezeItems(root, coll, self, write, writeStep);
    }

    /** `freezeItems`: stores item i in the item field of the slot `i`
        steps of `writeStep` after `write`. */
    method FreezeItems(root: FreezeRoot, coll: seq<nat>, self: Pos, write: Pos, writeStep: Pos)
      requires writeStep == Step(item.layout)
      requires FieldBit(write, item) + Span(|coll|, Width(item.layout)) <= 8 * |root.buf|
      modifies root
      ensures root.buf == ItemsWritten(old(root.buf), FieldBit(write, item), Width(item.layout), coll, |coll|)
    {
      var base := FieldBit(write, item);
      var width := Width(item.layout);
      var w := write;
      for i := 0 to |coll|
        invariant FieldBit(w, item) == base + Span(i, width)
        invariant ItemsStored(root.buf, old(root.buf), base, width, coll, i)
      {
        FreezeItemStep(old(root.buf), root.buf, w, item, base, coll, i);
        root.FreezeField(w, item, coll[i]);
        w := Advance(w, writeStep);
      }
    }

    /** `thaw`: the output, cleared, receives the items from `begin()` to
        `end()` of a view of the array, in order. */
    method Thaw(mem: seq<bv8>, self: Pos) returns (out: seq<nat>)
      requires Valid()
      requires Readable(mem, self, distance, count, item.layout)
      ensures out == Thawed(mem, self, distance, count, item.layout)
    {
      var v := new View(this, mem, self);
      out := ThawView(v);
    }

    /** The loop of `thaw`: the items of the view from `begin()` up to `end()`. */
    method ThawView(v: View) returns (out: seq<nat>)
      requires v.Valid()
      ensures v.count == 0 ==> out == []
      ensures v.count > 0 ==> out == ItemsRead(v.mem, v.data.value, v.itemLayout.value, v.count)
    {
      out := [];
      var it := v.Begin();
      var e := v.End();
      ghost var l := v.itemLayout.value;
      while it.Ne(e)
        invariant fresh(it) && it != e
        invariant it.data == v.data && it.itemLayout == Some(l) && it.mem == v.mem
        invariant e.index == v.count && e.data == v.data
        invariant it.index <= v.count
        invariant v.count > 0 ==> ItemsFit(v.mem, v.data.value, l, it.index)
        invariant v.count > 0 ==> out == ItemsRead(v.mem, v.data.value, l, it.index)
        invariant v.count == 0 ==> out == []
        decreases v.count - it.index
      {
        var k := it.index;
        ItemsReadStep(v.mem, v.data.value, l, v.count, k);
        var x := it.Thaw();
        out := out + [x];
        WrapFits(k + 1);
        it.Increment();
      }
    }

    /** `clear`: the footprint is reset, and so is every field but its ordinal. */
    method Clear()
      requires Valid()
      modifies this
      ensures Valid()
      ensures size == 0 && bits == 0
      ensures distance == ClearedField(old(distance))
      ensures count == ClearedField(old(count))
      ensures item == ClearedField(old(item))
    {
      size, bits := 0, 0;
      distance := ClearedField(distance);
      count := ClearedField(count);
      item := ClearedField(item);
    }
  }

  /** `ArrayLayout::View`: the array read in place.  `data` is `data_`
      (None for a null pointer), `count` is `count_`, `itemLayout` is
      `itemLayout_` (None for a null pointer); `mem` is the buffer. */
  class View {
    const data: Option<nat>
    const count: nat
    const itemLayout: Option<LayoutInfo>
    const mem: seq<bv8>

    /** The items a non-empty view covers lie in its buffer. */
    predicate Valid()
      reads this
    {
      count < WordModulus && itemLayout.Some? &&
      (count > 0 ==> data.Some? && ItemsFit(mem, data.value, itemLayout.value, count))
    }

    /** `View()`: null data, no items, no item layout. */
    constructor Empty()
      ensures data == None && count == 0 && itemLayout == None && mem == []
    {
      data, count, itemLayout, mem := None, 0, None, [];
    }

    /** `View(layout, self)`: reads `count` always and `distance` only when
        `count` is not 0; `data` is then `distance` bytes after `self`. */
    constructor (layout: ArrayLayout, mem: seq<bv8>, self: Pos)
      requires layout.Valid()
      requires FieldFits(mem, self, layout.count)
      requires ReadField(mem, self, layout.count) > 0 ==> FieldFits(mem, self, layout.distance)
      ensures count == ReadField(mem, self, layout.count)
      ensures count < WordModulus
      ensures data == if count > 0 then Some(self.byte + ReadField(mem, self, layout.distance)) else None
      ensures itemLayout == Some(layout.item.layout) && this.mem == mem
      ensures Readable(mem, self, layout.distance, layout.count, layout.item.layout) ==> Valid()
    {
      Pow2Monotone(Width(layout.count.layout), 64);
      Pow2Word();
      var n := ReadField(mem, self, layout.count);
      this.mem := mem;
      itemLayout := Some(layout.item.layout);
      count := n;
      if n > 0 {
        var dist := ReadField(mem, self, layout.distance);
        data := Some(self.byte + dist);
      } else {
        data := None;
      }
    }

    /** `size()`. */
    function Size(): (r: nat)
      reads this
      ensures r == count
    {
      count
    }

    /** `empty()`: no items exactly when the count is 0. */
    function IsEmpty(): (r: bool)
      reads this
      ensures r <==> Size() == 0
    {
      count == 0
    }

    /** `operator[]`: the value of item `index`. */
    method Get(index: int) returns (r: nat)
      requires Valid() && 0 <= index < count
      ensures ItemsFit(mem, data.value, itemLayout.value, index + 1)
      ensures r == ReadItem(mem, data.value, itemLayout.value, index)
      ensures r < Pow2(Width(itemLayout.value))
    {
      var l := itemLayout.value;
      SpanMonotone(index + 1, count, Width(l));
      IndexPositionAbs(data.value, index, l);
      var p := IndexPosition(data.value, index, itemLayout);
      r := LoadBits(mem, AbsBit(p), Width(l));
    }

    /** `begin()`: index 0 over `data`. */
    method Begin() returns (it: Iterator)
      requires count < WordModulus
      ensures fresh(it)
      ensures it.index == 0 && it.data == data && it.itemLayout == itemLayout && it.mem == mem
    {
      it := new Iterator(data, 0, itemLayout, mem);
    }

    /** `end()`: index `count` over `data`. */
    method End() returns (it: Iterator)
      requires count < WordModulus
      ensures fresh(it)
      ensures it.index == count && it.data == data && it.itemLayout == itemLayout && it.mem == mem
    {
      it := new Iterator(data, count, itemLayout, mem);
    }
  }

  /** `View::Iterator`: an index into the items of a view.  Its arithmetic
      and comparisons see only `index` (a `size_t`) and `data`. */
  class Iterator {
    var index: SizeT
    const data: Option<nat>
    const itemLayout: Option<LayoutInfo>
    const mem: seq<bv8>

    constructor (data: Option<nat>, index: SizeT, itemLayout: Option<LayoutInfo>, mem: seq<bv8>)
      ensures this.index == index && this.data == data
      ensures this.itemLayout == itemLayout && this.mem == mem
    {
      this.index := index;
      this.data := data;
      this.itemLayout := itemLayout;
      this.mem := mem;
    }

    /** The part of the iterator its arithmetic works on. */
    function At(): IterPos
      reads this
    {
      IterPos(index, data)
    }

    /** `position()`: item `index` of the block at `data`; a null `data`
        has no position in the buffer. */
    function Position(): (r: Option<Pos>)
      reads this
      ensures r.Some? <==> data.Some?
      ensures r.Some? && itemLayout.Some? ==>
        AbsBit(r.value) == 8 * data.value + Span(index, Width(itemLayout.value))
    {
      match data
      case None => None
      case Some(start) =>
        if itemLayout.Some? then
          IndexPositionAbs(start, index, itemLayout.value);
          Some(IndexPosition(start, index, itemLayout))
        else
          Some(IndexPosition(start, index, itemLayout))
    }

    /** `thaw()`: the value of the item the iterator is at. */
    method Thaw() returns (r: nat)
      requires data.Some? && itemLayout.Some?
      requires ItemsFit(mem, data.value, itemLayout.value, index + 1)
      ensures r == ReadItem(mem, data.value, itemLayout.value, index)
    {
      var p := Position();
      r := LoadBits(mem, AbsBit(p.value), Width(itemLayout.value));
    }

    /** `a - b`: the signed index distance. */
    function Diff(other: Iterator): (r: int)
      reads this, other
      ensures IsPtrdiff(r)
      ensures r == Difference(At(), other.At())
    {
      Signed(Wrap(index - other.index))
    }

    /** `++it`. */
    method Increment()
      modifies this
      ensures At() == Offset(old(At()), 1)
    {
      index := Wrap(index + 1);
    }

    /** `--it`. */
    method Decrement()
      modifies this
      ensures At() == Offset(old(At()), -1)
    {
      index := Wrap(index - 1);
    }

    /** `it += delta`. */
    method AddAssign(delta: int)
      requires IsPtrdiff(delta)
      modifies this
      ensures At() == Offset(old(At()), delta)
    {
      index := Wrap(index + delta);
    }

    /** `it -= delta`. */
    method SubAssign(delta: int)
      requires IsPtrdiff(delta)
      modifies this
      ensures At() == Offset(old(At()), -delta)
    {
      index := Wrap(index - delta);
    }

    /** `it + delta`: a moved copy. */
    method Plus(delta: int) returns (ret: Iterator)
      requires IsPtrdiff(delta)
      ensures fresh(ret)
      ensures ret.At() == Offset(At(), delta)
      ensures ret.itemLayout == itemLayout && ret.mem == mem
    {
      ret := new Iterator(data, index, itemLayout, mem);
      ret.AddAssign(delta);
    }

    /** `it - delta`: a moved copy. */
    method Minus(delta: int) returns (ret: Iterator)
      requires IsPtrdiff(delta)
      ensures fresh(ret)
      ensures ret.At() == Offset(At(), -delta)
      ensures ret.itemLayout == itemLayout && ret.mem == mem
    {
      ret := new Iterator(data, index, itemLayout, mem);
      ret.SubAssign(delta);
    }

    /** `it++` as written: `const`, so `it` stays put, and the copy it
        returns is the advanced one. */
    method PostIncrementAsWritten() returns (ret: Iterator)
      ensures fresh(ret)
      ensures (ret.At(), At()) == Iterators.PostIncrementAsWritten(At())
    {
      ret := new Iterator(data, index, itemLayout, mem);
      ret.Increment();
    }

    /** `it++` as a random-access iterator must behave: `it` advances and
        the old position is returned. */
    method PostIncrement() returns (ret: Iterator)
      modifies this
      ensures fresh(ret)
      ensures (ret.At(), At()) == Iterators.PostIncrement(old(At()))
    {
      ret := new Iterator(data, index, itemLayout, mem);
      Increment();
    }

    /** `it--` as written: the mirror image of `PostIncrementAsWritten`. */
    method PostDecrementAsWritten() returns (ret: Iterator)
      ensures fresh(ret)
      ensures (ret.At(), At()) == Iterators.PostDecrementAsWritten(At())
    {
      ret := new Iterator(data, index, itemLayout, mem);
      ret.Decrement();
    }

    /** `it--` as a random-access iterator must behave. */
    method PostDecrement() returns (ret: Iterator)
      modifies this
      ensures fresh(ret)
      ensures (ret.At(), At()) == Iterators.PostDecrement(old(At()))
    {
      ret := new Iterator(data, index, itemLayout, mem);
      Decrement();
    }

    /** `==`: same index over the same data (the item layout is not compared). */
    function Eq(other: Iterator): (r: bool)
      reads this, other
      ensures r <==> At() == other.At()
    {
      index == other.index && data == other.data
    }

    /** `!=`: the negation of `==`. */
    function Ne(other: Iterator): (r: bool)
      reads this, other
      ensures r <==> !Eq(other)
    {
      !(this.Eq(other))
    }
  }

  /** A whole life cycle of one array: a fresh layout is sized, laid out
      over a buffer `mem` that ends where the layout cursor stands, frozen
      into that buffer and thawed back, and gives back the sequence it was
      given, provided the header fields and the items fit their widths.
      The two phases agree: `freeze` grows the buffer to where `layout`
      moved the cursor, and each item was placed at the bit address where
      a view of the frozen buffer looks for it. */
  method FreezeThenThaw(coll: seq<nat>, mem: seq<bv8>, self: Pos,
                        distanceLayout: LayoutInfo, countLayout: LayoutInfo, itemLayout: LayoutInfo)
    returns (out: seq<nat>, ghost frozenSize: nat, ghost reserved: nat, ghost placed: seq<Pos>)
    requires Width(distanceLayout) <= 64 && Width(countLayout) <= 64
    requires AbsBit(self) + Width(distanceLayout) + Width(countLayout) <= 8 * |mem|
    requires |mem| - self.byte < Pow2(Width(distanceLayout))
    requires |coll| < Pow2(Width(countLayout))
    requires forall j :: 0 <= j < |coll| ==> coll[j] < Pow2(Width(itemLayout))
    ensures out == coll
    ensures frozenSize == reserved
    ensures |placed| == |coll|
    ensures forall i :: 0 <= i < |coll| ==>
      AbsBit(placed[i]) == AbsBit(IndexPosition(|mem|, i, Some(itemLayout)))
  {
    var a := new ArrayLayout();
    a.SetFieldLayouts(distanceLayout, countLayout, itemLayout);
    var layoutRoot := new LayoutRoot(|mem|);
    var pos;
    pos, placed := a.Layout(layoutRoot, coll, self);
    reserved := layoutRoot.cursor;
    var freezeRoot := new FreezeRoot(mem);
    a.Freeze(freezeRoot, coll, self);
    frozenSize := |freezeRoot.buf|;
    FreezeThawRoundTrip(mem, self, a.distance, a.count, itemLayout, coll);
    out := a.Thaw(freezeRoot.buf, self);
  }
}
