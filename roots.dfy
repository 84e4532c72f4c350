/** The two coordinators the array layout calls into: the layout-phase
    root, which only tracks where the next out-of-line block would go, and
    the freeze-phase root, an append-only byte arena. */
module Roots {
  import opened Bits
  import opened Positions
  import opened Layouts

  /** `LayoutRoot`, reduced to the cursor that `layoutBytesDistance` moves. */
  class LayoutRoot {
    /** Byte offset where the next out-of-line block starts. */
    var cursor: nat

    constructor (cursor: nat)
      ensures this.cursor == cursor
    {
      this.cursor := cursor;
    }

    /** Reserves `n` bytes at the cursor and returns their distance from `origin`. */
    method LayoutBytesDistance(origin: nat, n: nat) returns (dist: nat)
      requires origin <= cursor
      modifies this
      ensures origin + dist == old(cursor)
      ensures cursor == old(cursor) + n
    {
      dist := cursor - origin;
      cursor := cursor + n;
    }
  }

  /** `FreezeRoot`, reduced to an append-only buffer. */
  class FreezeRoot {
    var buf: seq<bv8>

    constructor (buf: seq<bv8>)
      ensures this.buf == buf
    {
      this.buf := buf;
    }

    /** `appendBytes`: appends `n` zero bytes; `block` is the first of them,
        `dist` its distance from `origin`. */
    method AppendBytes(origin: nat, n: nat) returns (block: nat, dist: nat)
      requires origin <= |buf|
      modifies this
      ensures block == |old(buf)| && origin + dist == block
      ensures buf == old(buf) + Zeros(n)
    {
      block := |buf|;
      dist := block - origin;
      buf := buf + Zeros(n);
    }

    /** `freezeField`: stores `v` in field `f` of the parent at `self`. */
    method FreezeField(self: Pos, f: Field, v: nat)
      requires FieldFits(buf, self, f)
      modifies this
      ensures buf == WriteField(old(buf), self, f, v)
    {
      buf := WriteField(buf, self, f, v);
    }
  }
}
