/** ReadCustomBlocks as written has no bounds check: a cell's index is the
    chunk origin's index plus the local cell's index. When a dimension of
    the map is not a multiple of 16, the last chunks stick out of the map,
    and their cells either alias blocks of other rows or index past the
    array, which throws and makes Load fail. The smallest case is a map of
    16 x 16 x h blocks with 0 < h < 16 whose first chunk is present: its
    cell 256 * h lies on layer h, just past the array. The corrected pass
    (`clip`) skips cells outside the map and never fails. */
module OverlayFinding {
  import opened Bytes
  import opened Grid
  import opened MCSharpOverlay
  import opened OverlayProperties

  /** The as-written walk over the cells of a chunk fails at cell `k` when
      every cell before `k` indexes inside the map and cell `k` past it. */
  lemma {:induction false} ApplyFromFailsAt(d: Dims, o: Origin, chunk: seq<byte>, b: seq<byte>, i: nat, k: nat)
    requires |chunk| == ChunkCells && i <= k < ChunkCells
    requires forall m :: i <= m < k ==> d.Index(o.x, o.y, o.z) + d.Index(Local(m).x, Local(m).y, Local(m).z) < |b|
    requires d.Index(o.x, o.y, o.z) + d.Index(Local(k).x, Local(k).y, Local(k).z) >= |b|
    ensures ApplyFrom(d, false, o, chunk, b, i) == None
    decreases k - i
  {
    var index := d.Index(o.x, o.y, o.z) + d.Index(Local(i).x, Local(i).y, Local(i).z);
    IndexNonNegative(d, o.x, o.y, o.z);
    IndexNonNegative(d, Local(i).x, Local(i).y, Local(i).z);
    if i == k {
      ApplyFromOut(d, false, o, chunk, b, i, index);
    } else {
      ApplyFromWrite(d, false, o, chunk, b, i, index);
      ApplyFromFailsAt(d, o, chunk, FillSentinel(b, index, chunk[i]), i + 1, k);
    }
  }

  /** In a map 16 blocks wide and 16 long, the chunk at the origin numbers
      its cells exactly as the map does. */
  lemma OriginChunkIndex(d: Dims, m: nat)
    requires d.width == ChunkSide && d.length == ChunkSide && m < ChunkCells
    ensures d.Index(0, 0, 0) + d.Index(Local(m).x, Local(m).y, Local(m).z) == m
  {
    LocalDecodeInverse(m);
  }

  /** The finding: a map of 16 x 16 x h blocks, 0 < h < 16, whose first
      overlay chunk is present. The code as written fails (the
      IndexOutOfRangeException at cell 256 * h, which ends Load); the
      corrected pass succeeds. */
  lemma EdgeChunkFails(s: seq<byte>, d: Dims, blocks: seq<byte>, start: nat)
    requires d.width == ChunkSide && d.length == ChunkSide && 0 < d.height < ChunkSide
    requires |blocks| == d.Volume() && start < |s| && s[start] == ChunkPresent
    ensures Overlay(s, d, false, blocks, start) == None
    ensures Overlay(s, d, true, blocks, start).Some?
  {
    var c := Cursor(blocks, start, Zeros());
    var o := Origin(0, 0, 0);
    var chunk := Refill(s, start + 1, c.chunk);
    var k := 256 * d.height;
    forall m | 0 <= m < k
      ensures d.Index(o.x, o.y, o.z) + d.Index(Local(m).x, Local(m).y, Local(m).z) < |blocks|
    {
      OriginChunkIndex(d, m);
    }
    OriginChunkIndex(d, k);
    ApplyFromFailsAt(d, o, chunk, blocks, 0, k);
    assert Present(s, d, false, c, o) == None;
    assert Visit(s, d, false, c, o) == None;
    assert PassFrom(s, d, false, c, 0, 0, 0) == None;
    OverlayClippedSucceeds(s, d, blocks, start);
  }

  /** The smallest instance: a 16 x 16 x 1 map, the marker followed by a
      present first chunk of 4096 zero bytes. */
  lemma SmallestEdgeChunk(blocks: seq<byte>)
    requires |blocks| == 256
    ensures Overlay([ChunkPresent] + Zeros(), Dims(16, 16, 1), false, blocks, 0) == None
    ensures Overlay([ChunkPresent] + Zeros(), Dims(16, 16, 1), true, blocks, 0).Some?
  {
    EdgeChunkFails([ChunkPresent] + Zeros(), Dims(16, 16, 1), blocks, 0);
  }
}
