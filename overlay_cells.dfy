/** What the corrected pass does to the map, cell by cell: applying the
    chunk at origin `o` gives every sentinel cell of the map that lies in
    that chunk the chunk byte at the cell's local offset, and leaves every
    other cell as it was. */
module OverlayCells {
  import opened Bytes
  import opened Grid
  import opened BlockMapping
  import opened MCSharpOverlay
  import opened OverlayProperties

  /** Block `j` of the map lies in the chunk at `o`. */
  predicate InChunk(d: Dims, o: Origin, j: nat)
    requires j < d.Volume()
  {
    var c := d.CellOf(j);
    o.x <= c.x < o.x + ChunkSide && o.y <= c.y < o.y + ChunkSide && o.z <= c.z < o.z + ChunkSide
  }

  /** The local offset, within the chunk at `o`, of block `j`. */
  function LocalOf(d: Dims, o: Origin, j: nat): (i: nat)
    requires j < d.Volume() && InChunk(d, o, j)
    ensures i < ChunkCells
  {
    var c := d.CellOf(j);
    LocalEncodeInverse(Cell(c.x - o.x, c.y - o.y, c.z - o.z));
    LocalOffset(c.x - o.x, c.y - o.y, c.z - o.z)
  }

  /** The map after the cells i, i+1, ..., 4095 of the chunk at `o` have
      been applied by the corrected pass, stated cell by cell. */
  function ChunkApplied(d: Dims, o: Origin, chunk: seq<byte>, b: seq<byte>, i: nat): (r: seq<byte>)
    requires |chunk| == ChunkCells && |b| == d.Volume()
    ensures |r| == |b|
  {
    seq(|b|, j requires 0 <= j < |b| =>
      if InChunk(d, o, j) && LocalOf(d, o, j) >= i && b[j] == Sentinel then chunk[LocalOf(d, o, j)] else b[j])
  }

  /** A block whose cell is `o` plus a local cell `l` lies in the chunk at
      `o`, at the local offset of `l`. */
  lemma LocalOfCell(d: Dims, o: Origin, j: nat, l: Cell)
    requires j < d.Volume()
    requires 0 <= l.x < ChunkSide && 0 <= l.y < ChunkSide && 0 <= l.z < ChunkSide
    requires d.CellOf(j) == Cell(o.x + l.x, o.y + l.y, o.z + l.z)
    ensures InChunk(d, o, j) && LocalOf(d, o, j) == LocalOffset(l.x, l.y, l.z)
  {
    assert Cell(d.CellOf(j).x - o.x, d.CellOf(j).y - o.y, d.CellOf(j).z - o.z) == l;
  }

  /** The block that local cell `i` of the chunk at `o` names, when it lies
      inside the map, is in that chunk at local offset `i`. */
  lemma LocalCellInChunk(d: Dims, o: Origin, i: nat, j: int)
    requires i < ChunkCells
    requires d.InBounds(o.x + Local(i).x, o.y + Local(i).y, o.z + Local(i).z)
    requires j == d.Index(o.x + Local(i).x, o.y + Local(i).y, o.z + Local(i).z)
    ensures 0 <= j < d.Volume() && InChunk(d, o, j) && LocalOf(d, o, j) == i
  {
    var l := Local(i);
    CellOfIndex(d, o.x + l.x, o.y + l.y, o.z + l.z);
    LocalOfCell(d, o, j, l);
    LocalDecodeInverse(i);
  }

  /** Conversely, a block in the chunk at `o` with local offset `i` is the
      block that local cell `i` names, and it lies inside the map. */
  lemma ChunkCellIsLocal(d: Dims, o: Origin, j: nat)
    requires j < d.Volume() && InChunk(d, o, j)
    ensures var l := Local(LocalOf(d, o, j));
      d.InBounds(o.x + l.x, o.y + l.y, o.z + l.z) && j == d.Index(o.x + l.x, o.y + l.y, o.z + l.z)
  {
    var c := d.CellOf(j);
    var l := Cell(c.x - o.x, c.y - o.y, c.z - o.z);
    LocalEncodeInverse(l);
    assert Local(LocalOf(d, o, j)) == l;
    IndexOfCell(d, j);
    assert c == Cell(o.x + l.x, o.y + l.y, o.z + l.z);
  }

  /** A skipped cell (outside the map) is no block's local offset. */
  lemma SkipStep(d: Dims, o: Origin, chunk: seq<byte>, b: seq<byte>, i: nat)
    requires |chunk| == ChunkCells && |b| == d.Volume() && i < ChunkCells
    requires !d.InBounds(o.x + Local(i).x, o.y + Local(i).y, o.z + Local(i).z)
    ensures ChunkApplied(d, o, chunk, b, i + 1) == ChunkApplied(d, o, chunk, b, i)
  {
    forall j | 0 <= j < |b| && InChunk(d, o, j)
      ensures LocalOf(d, o, j) != i
    {
      ChunkCellIsLocal(d, o, j);
    }
  }

  /** Writing local cell `i` and applying the cells after it is applying
      the cells from `i` on. */
  lemma WriteStep(d: Dims, o: Origin, chunk: seq<byte>, b: seq<byte>, i: nat)
    requires |chunk| == ChunkCells && |b| == d.Volume() && i < ChunkCells
    requires d.InBounds(o.x + Local(i).x, o.y + Local(i).y, o.z + Local(i).z)
    ensures var l := Local(i);
      var index := d.Index(o.x + l.x, o.y + l.y, o.z + l.z);
      0 <= index < |b| &&
      ChunkApplied(d, o, chunk, FillSentinel(b, index, chunk[i]), i + 1) == ChunkApplied(d, o, chunk, b, i)
  {
    var l := Local(i);
    var index := d.Index(o.x + l.x, o.y + l.y, o.z + l.z);
    LocalCellInChunk(d, o, i, index);
    var b' := FillSentinel(b, index, chunk[i]);
    FillSentinelContents(b, index, chunk[i]);
    forall j | 0 <= j < |b| && j != index && InChunk(d, o, j)
      ensures LocalOf(d, o, j) != i
    {
      ChunkCellIsLocal(d, o, j);
    }
    assert forall j :: 0 <= j < |b| ==> ChunkApplied(d, o, chunk, b', i + 1)[j] == ChunkApplied(d, o, chunk, b, i)[j];
  }

  /** The corrected pass applies the chunk at `o` cell by cell: from local
      cell `i` on it succeeds and yields ChunkApplied. */
  lemma {:induction false} ApplyFromClipped(d: Dims, o: Origin, chunk: seq<byte>, b: seq<byte>, i: nat)
    requires |chunk| == ChunkCells && |b| == d.Volume() && i <= ChunkCells
    ensures ApplyFrom(d, true, o, chunk, b, i) == Some(ChunkApplied(d, o, chunk, b, i))
    decreases ChunkCells - i
  {
    if i == ChunkCells {
      assert ChunkApplied(d, o, chunk, b, i) == b;
    } else {
      var l := Local(i);
      if d.InBounds(o.x + l.x, o.y + l.y, o.z + l.z) {
        CellIndexInMap(d, o, i);
        var index := d.Index(o.x + l.x, o.y + l.y, o.z + l.z);
        WriteStep(d, o, chunk, b, i);
        var b' := FillSentinel(b, index, chunk[i]);
        assert WriteCell(d, true, o, chunk, b, i) == Some(b');
        ApplyFromClipped(d, o, chunk, b', i + 1);
      } else {
        SkipStep(d, o, chunk, b, i);
        ApplyFromClipped(d, o, chunk, b, i + 1);
      }
    }
  }

  /** A present chunk, in the corrected pass: every sentinel block of the
      map inside the chunk at `o` takes the chunk byte at its local offset;
      every other block keeps its value. */
  lemma ChunkOverlayCells(d: Dims, o: Origin, chunk: seq<byte>, b: seq<byte>)
    requires |chunk| == ChunkCells && |b| == d.Volume()
    ensures var r := ApplyFrom(d, true, o, chunk, b, 0);
      r.Some? && |r.value| == |b| &&
      forall j :: 0 <= j < |b| ==>
        r.value[j] == if InChunk(d, o, j) && b[j] == Sentinel then chunk[LocalOf(d, o, j)] else b[j]
  {
    ApplyFromClipped(d, o, chunk, b, 0);
  }
}
