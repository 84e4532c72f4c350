# Frozen arrays: `ArrayLayout<T, Item>` in Dafny

Thrift's frozen format stores a sequence in a flat byte buffer that readers
use in place. The array layout gives the buffer a fixed header of two
`size_t` fields, `distance` (ordinal 1) and `count` (ordinal 2). The items
sit in a block `distance` bytes after the array's own start. Each item is
either byte-aligned, `size` bytes wide, or bit-packed, `bits` bits wide.

Writing takes two phases:
- `layout` is a dry run: it reserves the item block and places the header
  fields and the items;
- `freeze` appends the block, writes `distance` and `count`, then writes the
  items one step apart.

Reading takes place in a `View`:
- the view reads `count` always, and `distance` only for a non-empty array;
- `indexPosition` finds item `i`;
- a random-access `Iterator` walks an index from `begin()` to `end()`;
- `thaw` rebuilds the sequence.

The project is organised as follows:
- `Bits` models the buffer as `seq<bv8>` and defines bit access with the
  least significant bit first. A field or an item of `w` bits is an
  unsigned value stored in `w` consecutive bits. A byte-aligned value of
  `8k` bits is therefore `k` little-endian bytes.
- `Positions` holds buffer positions: a byte offset plus a bit offset,
  advanced with carry.
- `Layouts` holds the footprint of a layout, the field slot, and the item
  step.
- `Roots` holds the layout-phase cursor and the freeze-phase append-only
  arena.
- `ArraySpec` states, as values, where item `i` lives, what `freeze` leaves
  in the buffer and what `thaw` reads back. It also proves the round trip.
- `Iterators` holds the iterator's `size_t` index arithmetic modulo 2^64 and
  its `ptrdiff_t` differences.
- `FrozenRange` holds the classes `ArrayLayout`, `View` and `Iterator`.
  Their methods are proved against the `ArraySpec` and `Iterators`
  functions.

## Model

| member | source | states |
|---|---|---|
| `Layouts.Step` | thrift/lib/cpp2/frozen/FrozenRange-inl.h:38-47 | the write step is never both byte- and bit-sized (`itemBits` is 0 whenever `itemBytes` is not), and it spans exactly one item width |
| `Layouts.BlockBytes` | thrift/lib/cpp2/frozen/FrozenRange-inl.h:36-40 | the reserved item block is the least whole number of bytes that holds `n` items: at least `n` item widths and less than one byte more |
| `Layouts.ReadWrittenField` | thrift/lib/cpp2/frozen/FrozenRange-inl.h:77-78 | a field written by `freezeField` reads back (`thawField`) as the value written when it fits the field's width |
| `Layouts.ClearedField` | thrift/lib/cpp2/frozen/FrozenRange-inl.h:113-118 | clearing a field keeps its ordinal and leaves it zero bits wide at position zero |
| `Positions.Advance` | thrift/lib/cpp2/frozen/FrozenRange-inl.h:58-61 | `write(writeStep)` moves the bit address by exactly the step's bits, and carry leaves a bit offset below 8 (the loop body at lines 60 and 92) |
| `Positions.AdvanceNAbs` | thrift/lib/cpp2/frozen/FrozenRange-inl.h:58-61 | `n` rounds of `write = write(writeStep)` move the bit address by exactly `n` steps |
| `Positions.Walk` | thrift/lib/cpp2/frozen/FrozenRange-inl.h:58-61 | the positions a `write = write(writeStep)` loop visits: one per round, round `k` starting `k` steps after the first |
| `Positions.AdvanceCompose` | thrift/lib/cpp2/frozen/FrozenRange-inl.h:90-93 | advancing by two steps in turn equals advancing once by their sum (carry makes advance associative) |
| `Roots.LayoutRoot.LayoutBytesDistance` | thrift/lib/cpp2/frozen/FrozenRange-inl.h:39-40 | the reserved bytes start at the old cursor, at the returned distance from the array's start, and the cursor moves past them |
| `Roots.FreezeRoot.AppendBytes` | thrift/lib/cpp2/frozen/FrozenRange-inl.h:72-75 | the buffer grows by `n` zero bytes; the block is the old end of the buffer, at the returned distance from the array's start |
| `Roots.FreezeRoot.FreezeField` | thrift/lib/cpp2/frozen/FrozenRange-inl.h:77-78 | the buffer becomes the old buffer with the value stored in the field's bits |
| `ArraySpec.IndexPosition` | thrift/lib/cpp2/frozen/FrozenRange-inl.h:143-153 | with no item layout every index maps to the block start; otherwise item `i` begins `i` item widths (`8 * size` or `bits` bits each) after the block |
| `ArraySpec.IndexPositionAbs` | thrift/lib/cpp2/frozen/FrozenRange-inl.h:143-153 | item `i` of a block starts `i` item widths after the block, in both the byte-aligned and the bit-packed representation |
| `ArraySpec.WalkReachesIndex` | thrift/lib/cpp2/frozen/FrozenRange-inl.h:79-93 | after `i` steps from `(start, 0)` the write position equals the normalised `indexPosition(start, i)`, so writer and reader address the same item |
| `ArraySpec.ReadItem` | thrift/lib/cpp2/frozen/FrozenRange-inl.h:213-217 | the value thawed from an item always fits the item's width |
| `ArraySpec.ItemsRead` | thrift/lib/cpp2/frozen/FrozenRange-inl.h:96-103 | reading `n` items yields exactly `n` values |
| `ArraySpec.ItemsReadAt` | thrift/lib/cpp2/frozen/FrozenRange-inl.h:175-177 | element `i` of the items read in order is the item at index `i` (what `operator[]` reads) |
| `ArraySpec.ItemsReadStep` | thrift/lib/cpp2/frozen/FrozenRange-inl.h:100-102 | one more pass of the thaw loop appends exactly the item at the current index |
| `ArraySpec.Thawed` | thrift/lib/cpp2/frozen/FrozenRange-inl.h:96-103 | the thawed sequence has exactly `count` elements, the value in the header's count field |
| `ArraySpec.FreezeItemStep` | thrift/lib/cpp2/frozen/FrozenRange-inl.h:90-93 | one pass of `freezeItems` stays inside the buffer, extends the items stored by item `i`, and moves the next slot one item width further on |
| `ArraySpec.ItemsWritten` | thrift/lib/cpp2/frozen/FrozenRange-inl.h:85-94 | the buffer the `freezeItems` loop leaves after storing the items: storing items never changes the buffer's length |
| `ArraySpec.ItemsWrittenFrame` | thrift/lib/cpp2/frozen/FrozenRange-inl.h:85-94 | storing the items leaves every bit range outside the item block unchanged |
| `ArraySpec.ItemsWrittenLast` | thrift/lib/cpp2/frozen/FrozenRange-inl.h:90-93 | the item stored last reads back as written |
| `ArraySpec.ItemsWrittenEarlier` | thrift/lib/cpp2/frozen/FrozenRange-inl.h:90-93 | item `i` ends before the last item starts, so storing the last item does not change an earlier one |
| `ArraySpec.ItemsWrittenRead` | thrift/lib/cpp2/frozen/FrozenRange-inl.h:85-94 | after all items are stored, item `i` reads back as `coll[i]` when it fits the item width |
| `ArraySpec.ItemsBlockRead` | thrift/lib/cpp2/frozen/FrozenRange-inl.h:143-153 | items stored one step apart from a block are found by `indexPosition` and read back as stored |
| `ArraySpec.HeaderLaidOut` | thrift/lib/cpp2/frozen/FrozenRange-inl.h:42-44 | the header as `layout` places it: `distance` at bit 0 of the array and `count` exactly one `distance` width after it |
| `ArraySpec.HeaderOffsets` | thrift/lib/cpp2/frozen/FrozenRange-inl.h:42-44 | as laid out, `distance` starts at the array's start and `count` directly after it, so the two header fields do not overlap |
| `ArraySpec.HeaderFieldsRead` | thrift/lib/cpp2/frozen/FrozenRange-inl.h:77-78 | writing `distance` and then `count` leaves both fields reading back as written |
| `ArraySpec.HeaderWritten` | thrift/lib/cpp2/frozen/FrozenRange-inl.h:72-78 | the header writes add no bytes: the buffer grows by exactly the item block |
| `ArraySpec.HeaderWrittenRead` | thrift/lib/cpp2/frozen/FrozenRange-inl.h:66-78 | after `freeze` writes the header, `count` reads `n` and `distance` reads the distance from the array's start to the appended block |
| `ArraySpec.Frozen` | thrift/lib/cpp2/frozen/FrozenRange-inl.h:66-83 | `freeze` grows the buffer by exactly the item-block size for `n` items |
| `ArraySpec.FrozenHeader` | thrift/lib/cpp2/frozen/FrozenRange-inl.h:66-83 | after the items are stored too, the header still holds the count and the distance to the block |
| `ArraySpec.FrozenItem` | thrift/lib/cpp2/frozen/FrozenRange-inl.h:85-94 | after `freeze` item `i` of the appended block reads back as `coll[i]` |
| `ArraySpec.FrozenItemsRead` | thrift/lib/cpp2/frozen/FrozenRange-inl.h:85-94 | after `freeze` the items read in index order from the appended block are the frozen sequence |
| `ArraySpec.FreezeThawRoundTrip` | thrift/lib/cpp2/frozen/FrozenRange-inl.h:66-103 | `thaw(view(freeze(coll))) == coll` whenever every value fits the width its field was sized to; `count` holds the length and, for a non-empty array, `distance` points at the block |
| `ArraySpec.Pow2Word` | thrift/lib/cpp2/frozen/FrozenRange-inl.h:29-30 | a header field of 64 bits holds exactly the values of `size_t` |
| `Iterators.Offset` | thrift/lib/cpp2/frozen/FrozenRange-inl.h:227-238 | `+=`, `-=`, `+`, `-` change only `index_` (never `data_`), and the index stays a `size_t` |
| `Iterators.OffsetMoves` | thrift/lib/cpp2/frozen/FrozenRange-inl.h:227-230 | moving by `delta` changes the index by `delta` modulo 2^64 |
| `Iterators.Difference` | thrift/lib/cpp2/frozen/FrozenRange-inl.h:219-221 | the difference of two iterators is a `ptrdiff_t` |
| `Iterators.DifferenceWraps` | thrift/lib/cpp2/frozen/FrozenRange-inl.h:219-221 | adding `a - b` to `b`'s index gives `a`'s index modulo 2^64 |
| `Iterators.OffsetDifference` | thrift/lib/cpp2/frozen/FrozenRange-inl.h:249-253 | `(a + k) - a == k` for every `ptrdiff_t` `k` |
| `Iterators.DifferenceOffset` | thrift/lib/cpp2/frozen/FrozenRange-inl.h:249-253 | `b + (a - b) == a` for iterators over the same data |
| `Iterators.OffsetCompose` | thrift/lib/cpp2/frozen/FrozenRange-inl.h:227-238 | two moves compose into one move by the sum |
| `Iterators.IncrementDecrement` | thrift/lib/cpp2/frozen/FrozenRange-inl.h:223-234 | `++` followed by `--`, and `--` followed by `++`, give back the same iterator |
| `Iterators.IncrementsOffset` | thrift/lib/cpp2/frozen/FrozenRange-inl.h:223-230 | `k` applications of `++` move the iterator exactly as `it += k` does |
| `Iterators.BeginReachesEnd` | thrift/lib/cpp2/frozen/FrozenRange-inl.h:179-185 | for `k` and `count` below 2^64, `k` applications of `++` from `begin()` (and equally `begin() + k`) reach `end()` exactly when `k == count`, so a begin-to-end loop visits `count` positions |
| `Iterators.PostIncrement` | thrift/lib/cpp2/frozen/FrozenRange-inl.h:239-243 | the intended post-increment returns the old position and leaves the iterator one step further on |
| `Iterators.PostDecrement` | thrift/lib/cpp2/frozen/FrozenRange-inl.h:244-248 | the intended post-decrement returns the old position and leaves the iterator one step back |
| `Iterators.PostIncrementAsWritten` | thrift/lib/cpp2/frozen/FrozenRange-inl.h:239-243 | the operator as written returns a copy one step further on (difference 1) and leaves the iterator where it was |
| `Iterators.PostDecrementAsWritten` | thrift/lib/cpp2/frozen/FrozenRange-inl.h:244-248 | the operator as written returns a copy one step back (difference -1) and leaves the iterator where it was |
| `Iterators.PostIncrementAsWrittenStalls` | thrift/lib/cpp2/frozen/FrozenRange-inl.h:239-243 | the post-increment as written never moves the iterator and always differs from the intended one |
| `Iterators.PostDecrementAsWrittenStalls` | thrift/lib/cpp2/frozen/FrozenRange-inl.h:244-248 | the same for the post-decrement as written |
| `FrozenRange.ArrayLayout.constructor` | thrift/lib/cpp2/frozen/FrozenRange-inl.h:33 | a new layout has fields with ordinals 1, 2 and 3, all still empty |
| `FrozenRange.ArrayLayout.Layout` | thrift/lib/cpp2/frozen/FrozenRange-inl.h:35-49 | keeps the layout valid; reserves exactly `BlockBytes(n)` bytes; places `distance` at the start and `count` right after it; returns the position after the two header fields; places item `i` where `indexPosition` will look |
| `FrozenRange.ArrayLayout.LayoutItems` | thrift/lib/cpp2/frozen/FrozenRange-inl.h:51-64 | places the item field in each slot, one `writeStep` apart from `write` (the slots visited are `Walk`), changes nothing but the item field, and returns `pos` unchanged |
| `FrozenRange.ArrayLayout.Freeze` | thrift/lib/cpp2/frozen/FrozenRange-inl.h:66-83 | leaves the buffer `Frozen` describes: the block appended, the header written, the items stored |
| `FrozenRange.ArrayLayout.FreezeItems` | thrift/lib/cpp2/frozen/FrozenRange-inl.h:85-94 | stores the items in order, one step apart, from the item field of the first slot |
| `FrozenRange.ArrayLayout.Thaw` | thrift/lib/cpp2/frozen/FrozenRange-inl.h:96-103 | the output is exactly the thawed sequence: cleared first, then the `count` items in index order |
| `FrozenRange.ArrayLayout.ThawView` | thrift/lib/cpp2/frozen/FrozenRange-inl.h:98-102 | the loop from `begin()` to `end()` collects the items of the view in index order, and nothing for an empty view |
| `FrozenRange.ArrayLayout.Clear` | thrift/lib/cpp2/frozen/FrozenRange-inl.h:113-118 | the footprint is reset, and every field is cleared but keeps its ordinal, so the layout stays valid |
| `FrozenRange.View.Empty` | thrift/lib/cpp2/frozen/FrozenRange-inl.h:161 | the default view has null data, no items and no item layout |
| `FrozenRange.View.constructor` | thrift/lib/cpp2/frozen/FrozenRange-inl.h:162-173 | `count` is read from the header always; `data` is `self + distance` when `count > 0` and null otherwise; the view is valid on a readable buffer |
| `FrozenRange.View.Get` | thrift/lib/cpp2/frozen/FrozenRange-inl.h:175-177 | `v[i]` is item `i` of the block, and it fits the item width |
| `FrozenRange.View.Begin` | thrift/lib/cpp2/frozen/FrozenRange-inl.h:179-181 | `begin()` is index 0 over the view's data |
| `FrozenRange.View.End` | thrift/lib/cpp2/frozen/FrozenRange-inl.h:183-185 | `end()` is index `count` over the view's data |
| `FrozenRange.View.Size` | thrift/lib/cpp2/frozen/FrozenRange-inl.h:188 | `size()` is the count read from the header |
| `FrozenRange.View.IsEmpty` | thrift/lib/cpp2/frozen/FrozenRange-inl.h:187 | `empty()` holds exactly when `size() == 0` |
| `FrozenRange.Iterator.constructor` | thrift/lib/cpp2/frozen/FrozenRange-inl.h:201-204 | an iterator holds the given index, data and item layout |
| `FrozenRange.Iterator.Position` | thrift/lib/cpp2/frozen/FrozenRange-inl.h:206-208 | `position()` exists exactly for non-null data, and it is `index` item widths after the block |
| `FrozenRange.Iterator.Thaw` | thrift/lib/cpp2/frozen/FrozenRange-inl.h:213-217 | `it.thaw()` is the item at the iterator's index |
| `FrozenRange.Iterator.Diff` | thrift/lib/cpp2/frozen/FrozenRange-inl.h:219-221 | `a - b` is the `ptrdiff_t` index difference |
| `FrozenRange.Iterator.Increment` | thrift/lib/cpp2/frozen/FrozenRange-inl.h:223-226 | `++it` moves the index by one, modulo 2^64 |
| `FrozenRange.Iterator.AddAssign` | thrift/lib/cpp2/frozen/FrozenRange-inl.h:227-230 | `it += delta` moves the index by `delta`, modulo 2^64 |
| `FrozenRange.Iterator.Decrement` | thrift/lib/cpp2/frozen/FrozenRange-inl.h:231-234 | `--it` moves the index back by one, modulo 2^64 |
| `FrozenRange.Iterator.SubAssign` | thrift/lib/cpp2/frozen/FrozenRange-inl.h:235-238 | `it -= delta` moves the index back by `delta`, modulo 2^64 |
| `FrozenRange.Iterator.PostIncrementAsWritten` | thrift/lib/cpp2/frozen/FrozenRange-inl.h:239-243 | the `const` operator as written returns the advanced copy and leaves `it` where it was |
| `FrozenRange.Iterator.PostIncrement` | thrift/lib/cpp2/frozen/FrozenRange-inl.h:239-243 | the corrected `it++` advances `it` and returns the old position |
| `FrozenRange.Iterator.PostDecrementAsWritten` | thrift/lib/cpp2/frozen/FrozenRange-inl.h:244-248 | the `const` operator as written returns the moved-back copy and leaves `it` where it was |
| `FrozenRange.Iterator.PostDecrement` | thrift/lib/cpp2/frozen/FrozenRange-inl.h:244-248 | the corrected `it--` moves `it` back and returns the old position |
| `FrozenRange.Iterator.Plus` | thrift/lib/cpp2/frozen/FrozenRange-inl.h:249-253 | `it + delta` is a new iterator moved by `delta`; `it` is unchanged |
| `FrozenRange.Iterator.Minus` | thrift/lib/cpp2/frozen/FrozenRange-inl.h:254-258 | `it - delta` is a new iterator moved back by `delta`; `it` is unchanged |
| `FrozenRange.Iterator.Eq` | thrift/lib/cpp2/frozen/FrozenRange-inl.h:260-262 | `==` holds exactly for equal index and equal data; the item layout is not compared |
| `FrozenRange.Iterator.Ne` | thrift/lib/cpp2/frozen/FrozenRange-inl.h:264 | `!=` is the negation of `==` |
| `FrozenRange.FreezeThenThaw` | thrift/lib/cpp2/frozen/FrozenRange-inl.h:33-103 | a new layout, once its field layouts are set, laid out, frozen into a buffer and thawed, gives back the sequence it was given, provided the header values and the items fit their widths; the phases agree: `freeze` grows the buffer to exactly where `layout` moved the cursor, and item `i` was placed at the bit address of `indexPosition(i)` in that block |

## Left out

- `print` is not modelled: it is debug output.
- `save`/`load` are not modelled: they are schema persistence, and the schema record format is not part of this model. They visit the fields in the order distance, count, item.
- Virtual dispatch, `typeid` and the `std::vector` specialisation are not modelled. There is one concrete layout, and `T` is a sequence of unsigned fixed-width items.
- `Item` and `Layout<Item>` are reduced to an unsigned value and its footprint (`size` bytes or `bits` bits). Nested item layouts are not modelled.
- Item views are not modelled: every result that is an `ItemView` in the source is modelled as the item's value, as `View.Get` (`operator[]`) and `Iterator.Thaw` return it. `operator*` and `operator->` are left out because they would equal `View.Get` at the iterator's index; `Iterator.Position` gives the position they view.
- Pointers are byte offsets into the buffer, and a null `data_` or `itemLayout_` is `None`.
- The sizing passes of `LayoutRoot::layoutField` are not part of this model. They choose the field layouts wide enough for `dist`, `n` and each item, and `ArrayLayout.SetFieldLayouts` stands in for their result. `layoutField` is modelled only as placing the field.
- `FreezeField` stores the low `Width` bits of a value, as a fixed-width store does. The round trip therefore requires every value to fit its field's width, which the sizing passes ensure.
- The `LayoutBase` footprint of the array itself (`size`, `bits`) is computed by the parent's layout pass. `ArrayLayout.Layout` leaves it unchanged.
- `FrozenRange.View.Get` requires `0 <= index < count`. The source does no bounds check, and an index outside the block reads outside the array.
- Concurrent readers of a published buffer, and allocation failure, are not modelled.
- The position types (`FieldPosition`, `LayoutPosition`, `FreezePosition`, `ViewPosition`) are not shown in the source files of this model. `Positions.Advance` carries `bit / 8` whole bytes of the bit offset into the byte offset and keeps `bit % 8` as the bit offset.
- FrozenRange.Iterator.Eq: compares `data` as a byte offset into the one buffer of the model, while line 261 compares the `data_` addresses. Iterators over two different buffers with the same offset and index are equal in the model but not in the source.
- Layouts.BlockBytes: computes the block size in unbounded integers, while lines 40 and 73 compute `n * itemBits + 7` and `n * itemBytes` in `size_t`, which wraps modulo 2^64. An array too large for that product is not modelled.
- FrozenRange.View.constructor: copies the item layout into the view, while line 166 keeps a pointer to `layout->item.layout`. A `clear()` or a new layout pass during the view's life changes the item layout a source view sees but not the model's view.

## Findings

| source | as written | input that shows it | evidently intended | confidence | as-written member | corrected member |
|---|---|---|---|---|---|---|
| thrift/lib/cpp2/frozen/FrozenRange-inl.h:239-243 | `Iterator operator++(int) const` copies `*this`, advances the copy and returns it; `*this` never moves | any iterator, e.g. `begin()` of a one-item view: after `it++`, `it == begin()` still, so `for (...; it != end; it++)` never ends | a random-access iterator's `it++` advances `it` and returns its old value | not executed | `Iterators.PostIncrementAsWrittenStalls` | `Iterators.PostIncrement` |
| thrift/lib/cpp2/frozen/FrozenRange-inl.h:244-248 | `Iterator operator--(int) const` returns the moved-back copy and leaves `*this` unchanged | any iterator, e.g. `end()` of a one-item view: after `it--`, `it == end()` still | `it--` moves `it` back and returns its old value | not executed | `Iterators.PostDecrementAsWrittenStalls` | `Iterators.PostDecrement` |
