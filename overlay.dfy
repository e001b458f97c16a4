/** The overlay section of an MCSharp map (MapMCSharp.ReadCustomBlocks):
    after the marker byte, one flag byte per 16 x 16 x 16 chunk of the map,
    the chunks taken with z outermost, then y, then x; a flag of exactly 1 is
    followed by the chunk's 4096 extended block ids, which replace the cells
    of that chunk that still hold the sentinel id 163.

    The specification (PassFrom) walks the chunk origins in loop order and
    takes one step per chunk (Visit); the step for a present chunk is itself
    a walk (ApplyFrom) over the chunk's 4096 cells. The flag
    `clip` selects between the code as written (false: a cell's index is the
    origin's index plus the local cell's index, with no bounds check, so an
    index past the array ends the load with an exception) and the corrected
    pass (true: cells that fall outside the map are skipped). */
module MCSharpOverlay {
  import opened Bytes
  import opened Grid
  import opened BlockMapping

  datatype Option<T> = None | Some(value: T)

  /** The flag byte that announces a chunk's 4096 bytes. */
  const ChunkPresent: byte := 1

  /** The decoder's state between chunks: the block array, the read position
      in the decompressed stream, and the 4096-byte chunk buffer, which is
      reused from chunk to chunk. */
  datatype Cursor = Cursor(blocks: seq<byte>, pos: nat, chunk: seq<byte>)

  predicate ValidCursor(s: seq<byte>, c: Cursor) {
    c.pos <= |s| && |c.chunk| == ChunkCells
  }

  /** The chunk buffer as allocated: all zero. */
  function Zeros(): (z: seq<byte>)
    ensures |z| == ChunkCells && forall k :: 0 <= k < |z| ==> z[k] == 0
  {
    seq(ChunkCells, _ => 0)
  }

  /** `after` differs from `before` only in cells where `before` held the
      sentinel. */
  predicate OnlySentinelsChanged(before: seq<byte>, after: seq<byte>) {
    |before| == |after| &&
    forall j :: 0 <= j < |before| && after[j] != before[j] ==> before[j] == Sentinel
  }

  lemma OnlySentinelsChangedTransitive(a: seq<byte>, b: seq<byte>, c: seq<byte>)
    requires OnlySentinelsChanged(a, b) && OnlySentinelsChanged(b, c)
    ensures OnlySentinelsChanged(a, c)
  {
  }

  // ---------------------------------------------------------------------
  // Chunk origins, in the order of the three nested loops
  // ---------------------------------------------------------------------

  datatype Origin = Origin(x: nat, y: nat, z: nat)

  // ---------------------------------------------------------------------
  // The pass, as a specification
  // ---------------------------------------------------------------------

  /** Cell i of the chunk at `o` written over `b`, as one iteration of the
      innermost loop does; None is the IndexOutOfRangeException the code as
      written raises for an index past the array. */
  function WriteCell(d: Dims, clip: bool, o: Origin, chunk: seq<byte>, b: seq<byte>, i: nat): (r: Option<seq<byte>>)
    requires |chunk| == ChunkCells && i < ChunkCells
    ensures r.Some? ==> |r.value| == |b|
  {
    var l := Local(i);
    if clip && !d.InBounds(o.x + l.x, o.y + l.y, o.z + l.z) then Some(b)
    else
      var index := d.Index(o.x, o.y, o.z) + d.Index(l.x, l.y, l.z);
      IndexNonNegative(d, o.x, o.y, o.z);
      IndexNonNegative(d, l.x, l.y, l.z);
      if index >= |b| then None
      else Some(FillSentinel(b, index, chunk[i]))
  }

  /** Cells i, i+1, ..., 4095 of the chunk at `o` written over `b`, as the
      innermost loop does. */
  function ApplyFrom(d: Dims, clip: bool, o: Origin, chunk: seq<byte>, b: seq<byte>, i: nat): (r: Option<seq<byte>>)
    requires |chunk| == ChunkCells && i <= ChunkCells
    ensures r.Some? ==> |r.value| == |b|
    decreases ChunkCells - i
  {
    if i == ChunkCells then Some(b)
    else
      match WriteCell(d, clip, o, chunk, b, i)
      case None => None
      case Some(b') => ApplyFrom(d, clip, o, chunk, b', i + 1)
  }

  /** The write of one overlay cell: `v` goes into cell `index` only if that
      cell still holds the sentinel. */
  function FillSentinel(b: seq<byte>, index: nat, v: byte): (r: seq<byte>)
    requires index < |b|
    ensures |r| == |b|
  {
    if b[index] == Sentinel then b[index := v] else b
  }

  /** One step of ApplyFrom for a cell that is written (or, where the code
      as written has no check, indexed). */
  lemma ApplyFromWrite(d: Dims, clip: bool, o: Origin, chunk: seq<byte>, b: seq<byte>, i: nat, index: int)
    requires |chunk| == ChunkCells && i < ChunkCells
    requires !(clip && !d.InBounds(o.x + Local(i).x, o.y + Local(i).y, o.z + Local(i).z))
    requires index == d.Index(o.x, o.y, o.z) + d.Index(Local(i).x, Local(i).y, Local(i).z) && 0 <= index < |b|
    ensures ApplyFrom(d, clip, o, chunk, b, i) == ApplyFrom(d, clip, o, chunk, FillSentinel(b, index, chunk[i]), i + 1)
  {
  }

  /** One step of ApplyFrom for a cell the corrected pass skips. */
  lemma ApplyFromSkip(d: Dims, clip: bool, o: Origin, chunk: seq<byte>, b: seq<byte>, i: nat)
    requires |chunk| == ChunkCells && i < ChunkCells
    requires clip && !d.InBounds(o.x + Local(i).x, o.y + Local(i).y, o.z + Local(i).z)
    ensures ApplyFrom(d, clip, o, chunk, b, i) == ApplyFrom(d, clip, o, chunk, b, i + 1)
  {
  }

  /** One step of ApplyFrom for an index past the array. */
  lemma ApplyFromOut(d: Dims, clip: bool, o: Origin, chunk: seq<byte>, b: seq<byte>, i: nat, index: int)
    requires |chunk| == ChunkCells && i < ChunkCells
    requires !(clip && !d.InBounds(o.x + Local(i).x, o.y + Local(i).y, o.z + Local(i).z))
    requires index == d.Index(o.x, o.y, o.z) + d.Index(Local(i).x, Local(i).y, Local(i).z) && index >= |b|
    ensures ApplyFrom(d, clip, o, chunk, b, i) == None
  {
  }

  /** How many bytes Stream.Read(chunk, 0, 4096) delivers from position
      `pos`: all that remain, up to 4096. */
  function ReadCount(s: seq<byte>, pos: nat): (n: nat)
    requires pos <= |s|
    ensures n <= ChunkCells && pos + n <= |s|
    ensures n == ChunkCells || pos + n == |s|
  {
    Min(ChunkCells, |s| - pos)
  }

  /** The chunk buffer after Stream.Read(chunk, 0, 4096) from position
      `pos`: the bytes read at the front, the previous contents behind. */
  function Refill(s: seq<byte>, pos: nat, chunk: seq<byte>): (r: seq<byte>)
    requires pos <= |s| && |chunk| == ChunkCells
    ensures |r| == ChunkCells
  {
    var n := ReadCount(s, pos);
    s[pos..pos + n] + chunk[n..]
  }

  /** What Stream.Read(chunk, 0, 4096) leaves in the buffer: the first n
      bytes are the next n bytes of the stream, n being all that remain up
      to 4096; the bytes behind them keep the previous chunk's contents. */
  lemma RefillContents(s: seq<byte>, pos: nat, chunk: seq<byte>)
    requires pos <= |s| && |chunk| == ChunkCells
    ensures var n := ReadCount(s, pos);
      var r := Refill(s, pos, chunk);
      (n == ChunkCells || pos + n == |s|) &&
      (forall k :: 0 <= k < n ==> r[k] == s[pos + k]) &&
      (forall k :: n <= k < ChunkCells ==> r[k] == chunk[k])
  {
  }

  /** One iteration of the three loops, for the chunk at `o`: read the flag
      byte (nothing at the end of the stream); unless it is 1, go on; else
      read up to 4096 bytes into the chunk buffer (a short read fills only
      the front, the rest keeps the previous chunk's bytes) and apply it. */
  function Visit(s: seq<byte>, d: Dims, clip: bool, c: Cursor, o: Origin): (r: Option<Cursor>)
    requires ValidCursor(s, c)
    ensures r.Some? ==> ValidCursor(s, r.value) && c.pos <= r.value.pos && |r.value.blocks| == |c.blocks|
    ensures c.pos == |s| ==> r == Some(c)
    ensures c.pos < |s| && s[c.pos] != ChunkPresent ==> r == Some(c.(pos := c.pos + 1))
  {
    if c.pos == |s| then Some(c)
    else if s[c.pos] != ChunkPresent then Some(c.(pos := c.pos + 1))
    else Present(s, d, clip, c, o)
  }

  /** The rest of Visit for a chunk whose flag byte, at c.pos, is 1: read
      up to 4096 bytes into the chunk buffer (a short read fills only the
      front, the rest keeps the previous chunk's bytes) and apply them. */
  function Present(s: seq<byte>, d: Dims, clip: bool, c: Cursor, o: Origin): (r: Option<Cursor>)
    requires ValidCursor(s, c) && c.pos < |s|
    ensures r.Some? ==> ValidCursor(s, r.value) && c.pos < r.value.pos && |r.value.blocks| == |c.blocks|
    ensures r.Some? ==> r.value.pos == c.pos + 1 + ReadCount(s, c.pos + 1)
  {
    var start := c.pos + 1;
    var chunk := Refill(s, start, c.chunk);
    match ApplyFrom(d, clip, o, chunk, c.blocks, 0)
    case None => None
    case Some(b) => Some(Cursor(b, start + ReadCount(s, start), chunk))
  }

  /** After a present chunk the buffer holds the bytes just read at its
      front and the previous chunk's bytes behind them. */
  lemma PresentReads(s: seq<byte>, d: Dims, clip: bool, c: Cursor, o: Origin)
    requires ValidCursor(s, c) && c.pos < |s|
    ensures var r := Present(s, d, clip, c, o);
      var n := ReadCount(s, c.pos + 1);
      r.Some? ==> r.value.chunk[..n] == s[c.pos + 1..c.pos + 1 + n] && r.value.chunk[n..] == c.chunk[n..]
  {
    var n := ReadCount(s, c.pos + 1);
    var chunk := Refill(s, c.pos + 1, c.chunk);
    assert chunk[..n] == s[c.pos + 1..c.pos + 1 + n];
    assert chunk[n..] == c.chunk[n..];
  }

  /** The three loops from the chunk at (x, y, z) on: the rest of row
      (y, z), then the rest of layer z, then the layers above; None once a
      chunk fails. */
  function PassFrom(s: seq<byte>, d: Dims, clip: bool, c: Cursor, x: nat, y: nat, z: nat): (r: Option<Cursor>)
    requires ValidCursor(s, c)
    ensures r.Some? ==> ValidCursor(s, r.value) && c.pos <= r.value.pos && |r.value.blocks| == |c.blocks|
    decreases d.height - z, d.length - y, d.width - x
  {
    if z >= d.height then Some(c)
    else if y >= d.length then PassFrom(s, d, clip, c, 0, 0, z + ChunkSide)
    else if x >= d.width then PassFrom(s, d, clip, c, 0, y + ChunkSide, z)
    else
      match Visit(s, d, clip, c, Origin(x, y, z))
      case None => None
      case Some(c') => PassFrom(s, d, clip, c', x + ChunkSide, y, z)
  }

  /** The whole overlay pass over `blocks`, reading from position `start`. */
  function Overlay(s: seq<byte>, d: Dims, clip: bool, blocks: seq<byte>, start: nat): (r: Option<Cursor>)
    requires start <= |s|
    ensures r.Some? ==> start <= r.value.pos <= |s| && |r.value.blocks| == |blocks|
  {
    PassFrom(s, d, clip, Cursor(blocks, start, Zeros()), 0, 0, 0)
  }

  // ---------------------------------------------------------------------
  // The pass, as the source runs it: three nested loops over the array
  // ---------------------------------------------------------------------

  /** The innermost loop of ReadCustomBlocks: the 4096 cells of the chunk
      at `o`, each written over its cell of `blocks` if that cell still holds
      the sentinel. `ok` is false where the code as written indexes past the
      array. */
  method ApplyChunk(d: Dims, clip: bool, o: Origin, chunk: array<byte>, blocks: array<byte>) returns (ok: bool)
    requires chunk.Length == ChunkCells && chunk != blocks
    modifies blocks
    ensures var spec := ApplyFrom(d, clip, o, chunk[..], old(blocks[..]), 0);
      ok == spec.Some? && (ok ==> blocks[..] == spec.value)
  {
    var baseIndex := d.Index(o.x, o.y, o.z);
    IndexNonNegative(d, o.x, o.y, o.z);
    ghost var cs := chunk[..];
    ghost var total := ApplyFrom(d, clip, o, cs, blocks[..], 0);
    var i := 0;
    while i < ChunkCells
      invariant 0 <= i <= ChunkCells && chunk[..] == cs
      invariant ApplyFrom(d, clip, o, cs, blocks[..], i) == total
    {
      ok := ApplyCell(d, clip, o, baseIndex, chunk, blocks, i);
      if !ok {
        return;
      }
      i := i + 1;
    }
    return true;
  }

  /** The body of the innermost loop, for cell `i` of the chunk. */
  method ApplyCell(d: Dims, clip: bool, o: Origin, baseIndex: nat, chunk: array<byte>, blocks: array<byte>, i: nat)
    returns (ok: bool)
    requires chunk.Length == ChunkCells && chunk != blocks && i < ChunkCells
    requires baseIndex == d.Index(o.x, o.y, o.z)
    modifies blocks
    ensures var spec := ApplyFrom(d, clip, o, chunk[..], old(blocks[..]), i);
      if ok then spec == ApplyFrom(d, clip, o, chunk[..], blocks[..], i + 1) else spec.None?
  {
    ghost var b := blocks[..];
    var xx, yy, zz := i % 16, (i / 16) % 16, (i / 256) % 16;
    assert Local(i) == Cell(xx, yy, zz);
    if clip && !d.InBounds(o.x + xx, o.y + yy, o.z + zz) {
      ApplyFromSkip(d, clip, o, chunk[..], b, i);
      return true;
    }
    var index := baseIndex + d.Index(xx, yy, zz);
    IndexNonNegative(d, xx, yy, zz);
    if index >= blocks.Length {
      ApplyFromOut(d, clip, o, chunk[..], b, i, index);
      return false;
    }
    ApplyFromWrite(d, clip, o, chunk[..], b, i, index);
    if blocks[index] == Sentinel {
      blocks[index] := chunk[i];
    }
    assert blocks[..] == FillSentinel(b, index, chunk[i]);
    return true;
  }

  /** Stream.Read(chunk, 0, chunk.Length) on the stream positioned at
      `start`: copies as many bytes as remain, up to the buffer's length,
      to the front of `chunk`, and returns how many it copied. */
  method ReadChunk(s: seq<byte>, start: nat, chunk: array<byte>) returns (n: nat)
    requires start <= |s| && chunk.Length == ChunkCells
    modifies chunk
    ensures n == ReadCount(s, start)
    ensures chunk[..] == Refill(s, start, old(chunk[..]))
  {
    n := Min(chunk.Length, |s| - start);
    forall k | 0 <= k < n {
      chunk[k] := s[start + k];
    }
  }

  /** Present, in terms of what the read left in the buffer and how many
      bytes it delivered. */
  lemma PresentIs(s: seq<byte>, d: Dims, clip: bool, c: Cursor, o: Origin, read: seq<byte>, n: nat, r: Option<seq<byte>>)
    requires ValidCursor(s, c) && c.pos < |s|
    requires read == Refill(s, c.pos + 1, c.chunk) && n == ReadCount(s, c.pos + 1)
    requires r == ApplyFrom(d, clip, o, read, c.blocks, 0)
    ensures Present(s, d, clip, c, o) == if r.None? then None else Some(Cursor(r.value, c.pos + 1 + n, read))
  {
  }

  /** A present chunk: read its bytes, which follow the flag byte at `pos`,
      into the reused buffer `chunk` and apply them to `blocks`. */
  method LoadChunk(s: seq<byte>, pos: nat, d: Dims, clip: bool, o: Origin, chunk: array<byte>, blocks: array<byte>)
    returns (next: Option<nat>)
    requires pos < |s| && chunk.Length == ChunkCells && chunk != blocks
    modifies chunk, blocks
    ensures var spec := Present(s, d, clip, Cursor(old(blocks[..]), pos, old(chunk[..])), o);
      next.Some? == spec.Some? && (next.Some? ==> spec.value == Cursor(blocks[..], next.value, chunk[..]))
  {
    ghost var c := Cursor(blocks[..], pos, chunk[..]);
    var n := ReadChunk(s, pos + 1, chunk);
    PresentIs(s, d, clip, c, o, chunk[..], n, ApplyFrom(d, clip, o, chunk[..], c.blocks, 0));
    var ok := ApplyChunk(d, clip, o, chunk, blocks);
    next := if ok then Some(pos + 1 + n) else None;
  }

  /** The body of the three loops of ReadCustomBlocks, for the chunk at `o`:
      read the flag byte at `pos` and, when it is 1, the chunk's bytes into
      the reused buffer `chunk`, then apply them. Returns the next read
      position, or None where the code as written indexes past the array. */
  method VisitChunk(s: seq<byte>, pos: nat, d: Dims, clip: bool, o: Origin, chunk: array<byte>, blocks: array<byte>)
    returns (next: Option<nat>)
    requires pos <= |s| && chunk.Length == ChunkCells && chunk != blocks
    modifies chunk, blocks
    ensures var spec := Visit(s, d, clip, Cursor(old(blocks[..]), pos, old(chunk[..])), o);
      next.Some? == spec.Some? && (next.Some? ==> spec.value == Cursor(blocks[..], next.value, chunk[..]))
  {
    if pos == |s| {
      // s.Read(data, 0, 1) returned 0: nothing to read for this chunk
      return Some(pos);
    }
    var flag := s[pos];
    if flag != ChunkPresent {
      return Some(pos + 1);
    }
    next := LoadChunk(s, pos, d, clip, o, chunk, blocks);
  }

  /** The innermost of the three loops of ReadCustomBlocks: the chunks of
      row (y, z), from x = 0 on. Returns the read position after the row, or
      None where the code as written indexes past the array; either way the
      pass from the row's first chunk on is the pass from the next row on. */
  method ReadRow(s: seq<byte>, pos: nat, d: Dims, clip: bool, y: nat, z: nat, chunk: array<byte>, blocks: array<byte>)
    returns (next: Option<nat>)
    requires pos <= |s| && y < d.length && z < d.height && chunk.Length == ChunkCells && chunk != blocks
    modifies chunk, blocks
    ensures var spec := PassFrom(s, d, clip, Cursor(old(blocks[..]), pos, old(chunk[..])), 0, y, z);
      match next
      case None => spec.None?
      case Some(p) => p <= |s| && spec == PassFrom(s, d, clip, Cursor(blocks[..], p, chunk[..]), 0, y + ChunkSide, z)
  {
    ghost var total := PassFrom(s, d, clip, Cursor(blocks[..], pos, chunk[..]), 0, y, z);
    var cur: nat := pos;
    var x: nat := 0;
    while x < d.width
      invariant cur <= |s|
      invariant PassFrom(s, d, clip, Cursor(blocks[..], cur, chunk[..]), x, y, z) == total
    {
      next := VisitChunk(s, cur, d, clip, Origin(x, y, z), chunk, blocks);
      if next.None? {
        return;
      }
      cur := next.value;
      x := x + ChunkSide;
    }
    assert PassFrom(s, d, clip, Cursor(blocks[..], cur, chunk[..]), x, y, z) == total;
    return Some(cur);
  }

  /** ReadCustomBlocks: overwrite, in place, the sentinel cells of `blocks`
      from the overlay chunks in `s` starting at `start`. Returns the read
      position after the pass, or None when the code as written would index
      past the array. The loop over x is ReadRow. */
  method ReadCustomBlocks(s: seq<byte>, start: nat, d: Dims, clip: bool, blocks: array<byte>) returns (r: Option<nat>)
    requires start <= |s| && blocks.Length == d.Volume()
    modifies blocks
    ensures var spec := Overlay(s, d, clip, old(blocks[..]), start);
      (r.Some? <==> spec.Some?) &&
      (r.Some? ==> blocks[..] == spec.value.blocks && r.value == spec.value.pos)
  {
    var chunk := new byte[ChunkCells](_ => 0);
    assert chunk[..] == Zeros();
    ghost var total := Overlay(s, d, clip, blocks[..], start);
    var pos: nat := start;
    var z: nat := 0;
    while z < d.height
      invariant pos <= |s|
      invariant PassFrom(s, d, clip, Cursor(blocks[..], pos, chunk[..]), 0, 0, z) == total
    {
      var y: nat := 0;
      while y < d.length
        invariant pos <= |s|
        invariant PassFrom(s, d, clip, Cursor(blocks[..], pos, chunk[..]), 0, y, z) == total
      {
        r := ReadRow(s, pos, d, clip, y, z, chunk, blocks);
        if r.None? {
          return;
        }
        pos := r.value;
        y := y + ChunkSide;
      }
      assert PassFrom(s, d, clip, Cursor(blocks[..], pos, chunk[..]), 0, y, z) == total;
      z := z + ChunkSide;
    }
    r := Some(pos);
  }
}
