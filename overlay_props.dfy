/** What the overlay pass guarantees: it only ever replaces sentinel cells;
    the corrected pass never fails on a block array of the map's volume and
    writes exactly the chunk bytes that land on sentinel cells inside the
    map; on a map whose sides are multiples of 16 the code as written and
    the corrected pass agree; and a stream that ends early leaves the rest
    of the map alone. */
module OverlayProperties {
  import opened Bytes
  import opened Grid
  import opened BlockMapping
  import opened MCSharpOverlay

  // ---------------------------------------------------------------------
  // Only sentinel cells change
  // ---------------------------------------------------------------------

  /** One cell write replaces the named cell only if it held the sentinel,
      and leaves every other cell alone. */
  lemma FillSentinelContents(b: seq<byte>, index: nat, v: byte)
    requires index < |b|
    ensures FillSentinel(b, index, v)[index] == if b[index] == Sentinel then v else b[index]
    ensures forall j :: 0 <= j < |b| && j != index ==> FillSentinel(b, index, v)[j] == b[j]
  {
  }

  lemma FillSentinelOnlySentinels(b: seq<byte>, index: nat, v: byte)
    requires index < |b|
    ensures OnlySentinelsChanged(b, FillSentinel(b, index, v))
  {
    FillSentinelContents(b, index, v);
  }

  lemma WriteCellOnlySentinels(d: Dims, clip: bool, o: Origin, chunk: seq<byte>, b: seq<byte>, i: nat)
    requires |chunk| == ChunkCells && i < ChunkCells
    ensures var r := WriteCell(d, clip, o, chunk, b, i);
      r.Some? ==> OnlySentinelsChanged(b, r.value)
  {
    var l := Local(i);
    if !(clip && !d.InBounds(o.x + l.x, o.y + l.y, o.z + l.z)) {
      var index := d.Index(o.x, o.y, o.z) + d.Index(l.x, l.y, l.z);
      IndexNonNegative(d, o.x, o.y, o.z);
      IndexNonNegative(d, l.x, l.y, l.z);
      if index < |b| {
        assert WriteCell(d, clip, o, chunk, b, i) == Some(FillSentinel(b, index, chunk[i]));
        FillSentinelOnlySentinels(b, index, chunk[i]);
      }
    }
  }

  /** Applying a chunk only replaces cells that held the sentinel. */
  lemma {:induction false} ApplyFromOnlySentinels(d: Dims, clip: bool, o: Origin, chunk: seq<byte>, b: seq<byte>, i: nat)
    requires |chunk| == ChunkCells && i <= ChunkCells
    ensures var r := ApplyFrom(d, clip, o, chunk, b, i);
      r.Some? ==> OnlySentinelsChanged(b, r.value)
    decreases ChunkCells - i
  {
    if i < ChunkCells {
      var w := WriteCell(d, clip, o, chunk, b, i);
      if w.Some? {
        WriteCellOnlySentinels(d, clip, o, chunk, b, i);
        ApplyFromOnlySentinels(d, clip, o, chunk, w.value, i + 1);
        var r := ApplyFrom(d, clip, o, chunk, b, i);
        if r.Some? {
          OnlySentinelsChangedTransitive(b, w.value, r.value);
        }
      }
    }
  }

  lemma VisitOnlySentinels(s: seq<byte>, d: Dims, clip: bool, c: Cursor, o: Origin)
    requires ValidCursor(s, c)
    ensures var r := Visit(s, d, clip, c, o);
      r.Some? ==> OnlySentinelsChanged(c.blocks, r.value.blocks)
  {
    if c.pos < |s| && s[c.pos] == ChunkPresent {
      PresentOnlySentinels(s, d, clip, c, o);
    }
  }

  lemma PresentOnlySentinels(s: seq<byte>, d: Dims, clip: bool, c: Cursor, o: Origin)
    requires ValidCursor(s, c) && c.pos < |s|
    ensures var r := Present(s, d, clip, c, o);
      r.Some? ==> OnlySentinelsChanged(c.blocks, r.value.blocks)
  {
    var chunk := Refill(s, c.pos + 1, c.chunk);
    ApplyFromOnlySentinels(d, clip, o, chunk, c.blocks, 0);
  }

  lemma {:induction false} PassFromOnlySentinels(s: seq<byte>, d: Dims, clip: bool, c: Cursor, x: nat, y: nat, z: nat)
    requires ValidCursor(s, c)
    ensures var r := PassFrom(s, d, clip, c, x, y, z);
      r.Some? ==> OnlySentinelsChanged(c.blocks, r.value.blocks)
    decreases d.height - z, d.length - y, d.width - x
  {
    if z >= d.height {
    } else if y >= d.length {
      PassFromOnlySentinels(s, d, clip, c, 0, 0, z + ChunkSide);
    } else if x >= d.width {
      PassFromOnlySentinels(s, d, clip, c, 0, y + ChunkSide, z);
    } else {
      var v := Visit(s, d, clip, c, Origin(x, y, z));
      if v.Some? {
        VisitOnlySentinels(s, d, clip, c, Origin(x, y, z));
        PassFromOnlySentinels(s, d, clip, v.value, x + ChunkSide, y, z);
        var r := PassFrom(s, d, clip, c, x, y, z);
        if r.Some? {
          OnlySentinelsChangedTransitive(c.blocks, v.value.blocks, r.value.blocks);
        }
      }
    }
  }

  /** The overlay pass, as written or corrected, changes no cell that did
      not hold the sentinel. */
  lemma OverlayOnlySentinels(s: seq<byte>, d: Dims, clip: bool, blocks: seq<byte>, start: nat)
    requires start <= |s|
    ensures var r := Overlay(s, d, clip, blocks, start);
      r.Some? ==> OnlySentinelsChanged(blocks, r.value.blocks)
  {
    PassFromOnlySentinels(s, d, clip, Cursor(blocks, start, Zeros()), 0, 0, 0);
  }

  // ---------------------------------------------------------------------
  // The corrected pass never fails
  // ---------------------------------------------------------------------

  /** A cell the corrected pass does not skip lies inside the map, so its
      index is inside the block array. */
  lemma CellIndexInMap(d: Dims, o: Origin, i: nat)
    requires i < ChunkCells
    requires d.InBounds(o.x + Local(i).x, o.y + Local(i).y, o.z + Local(i).z)
    ensures var l := Local(i);
      0 <= d.Index(o.x, o.y, o.z) + d.Index(l.x, l.y, l.z) < d.Volume()
    ensures var l := Local(i);
      d.Index(o.x, o.y, o.z) + d.Index(l.x, l.y, l.z) == d.Index(o.x + l.x, o.y + l.y, o.z + l.z)
  {
    var l := Local(i);
    IndexAdditive(d, o.x, o.y, o.z, l.x, l.y, l.z);
    IndexInRange(d, o.x + l.x, o.y + l.y, o.z + l.z);
  }

  lemma {:induction false} ApplyFromClippedSucceeds(d: Dims, o: Origin, chunk: seq<byte>, b: seq<byte>, i: nat)
    requires |chunk| == ChunkCells && i <= ChunkCells && |b| == d.Volume()
    ensures ApplyFrom(d, true, o, chunk, b, i).Some?
    decreases ChunkCells - i
  {
    if i < ChunkCells {
      var l := Local(i);
      if d.InBounds(o.x + l.x, o.y + l.y, o.z + l.z) {
        CellIndexInMap(d, o, i);
      }
      var w := WriteCell(d, true, o, chunk, b, i);
      assert w.Some?;
      ApplyFromClippedSucceeds(d, o, chunk, w.value, i + 1);
    }
  }

  lemma PresentClippedSucceeds(s: seq<byte>, d: Dims, c: Cursor, o: Origin)
    requires ValidCursor(s, c) && c.pos < |s| && |c.blocks| == d.Volume()
    ensures Present(s, d, true, c, o).Some?
  {
    var chunk := Refill(s, c.pos + 1, c.chunk);
    ApplyFromClippedSucceeds(d, o, chunk, c.blocks, 0);
  }

  lemma VisitClippedSucceeds(s: seq<byte>, d: Dims, c: Cursor, o: Origin)
    requires ValidCursor(s, c) && |c.blocks| == d.Volume()
    ensures Visit(s, d, true, c, o).Some?
  {
    if c.pos < |s| && s[c.pos] == ChunkPresent {
      PresentClippedSucceeds(s, d, c, o);
    }
  }

  lemma {:induction false} PassFromClippedSucceeds(s: seq<byte>, d: Dims, c: Cursor, x: nat, y: nat, z: nat)
    requires ValidCursor(s, c) && |c.blocks| == d.Volume()
    ensures PassFrom(s, d, true, c, x, y, z).Some?
    decreases d.height - z, d.length - y, d.width - x
  {
    if z >= d.height {
    } else if y >= d.length {
      PassFromClippedSucceeds(s, d, c, 0, 0, z + ChunkSide);
    } else if x >= d.width {
      PassFromClippedSucceeds(s, d, c, 0, y + ChunkSide, z);
    } else {
      VisitClippedSucceeds(s, d, c, Origin(x, y, z));
      var v := Visit(s, d, true, c, Origin(x, y, z));
      PassFromClippedSucceeds(s, d, v.value, x + ChunkSide, y, z);
    }
  }

  /** The corrected overlay pass always completes on a block array of the
      map's volume, whatever the stream holds. */
  lemma OverlayClippedSucceeds(s: seq<byte>, d: Dims, blocks: seq<byte>, start: nat)
    requires start <= |s| && |blocks| == d.Volume()
    ensures Overlay(s, d, true, blocks, start).Some?
  {
    PassFromClippedSucceeds(s, d, Cursor(blocks, start, Zeros()), 0, 0, 0);
  }

  // ---------------------------------------------------------------------
  // On a map made of whole chunks, as written == corrected
  // ---------------------------------------------------------------------

  /** A chunk origin on a map made of whole chunks has a whole chunk
      inside the map. */
  predicate ChunkInside(d: Dims, o: Origin) {
    o.x + ChunkSide <= d.width && o.y + ChunkSide <= d.length && o.z + ChunkSide <= d.height
  }

  lemma AlignedStep(a: nat, n: nat)
    requires a % ChunkSide == 0 && n % ChunkSide == 0 && a < n
    ensures a + ChunkSide <= n
  {
    var p, q := a / ChunkSide, n / ChunkSide;
    assert a == ChunkSide * p && n == ChunkSide * q;
    if p >= q {
      MulMonotone(q, p, ChunkSide);
      assert false;
    }
    MulMonotone(p + 1, q, ChunkSide);
  }

  /** On a map made of whole chunks, the chunk at a multiple-of-16 origin
      inside the map lies wholly inside it. */
  lemma AlignedOriginInside(d: Dims, x: nat, y: nat, z: nat)
    requires d.Aligned() && x % ChunkSide == 0 && y % ChunkSide == 0 && z % ChunkSide == 0
    requires x < d.width && y < d.length && z < d.height
    ensures ChunkInside(d, Origin(x, y, z))
    ensures (x + ChunkSide) % ChunkSide == 0 && (y + ChunkSide) % ChunkSide == 0 && (z + ChunkSide) % ChunkSide == 0
  {
    AlignedStep(x, d.width);
    AlignedStep(y, d.length);
    AlignedStep(z, d.height);
  }

  lemma {:induction false} ApplyFromInsideAgree(d: Dims, o: Origin, chunk: seq<byte>, b: seq<byte>, i: nat)
    requires |chunk| == ChunkCells && i <= ChunkCells && ChunkInside(d, o)
    ensures ApplyFrom(d, false, o, chunk, b, i) == ApplyFrom(d, true, o, chunk, b, i)
    decreases ChunkCells - i
  {
    if i < ChunkCells {
      var l := Local(i);
      assert d.InBounds(o.x + l.x, o.y + l.y, o.z + l.z);
      var w := WriteCell(d, false, o, chunk, b, i);
      assert w == WriteCell(d, true, o, chunk, b, i);
      if w.Some? {
        ApplyFromInsideAgree(d, o, chunk, w.value, i + 1);
      }
    }
  }

  lemma PresentInsideAgree(s: seq<byte>, d: Dims, c: Cursor, o: Origin)
    requires ValidCursor(s, c) && c.pos < |s| && ChunkInside(d, o)
    ensures Present(s, d, false, c, o) == Present(s, d, true, c, o)
  {
    var chunk := Refill(s, c.pos + 1, c.chunk);
    var n := ReadCount(s, c.pos + 1);
    ApplyFromInsideAgree(d, o, chunk, c.blocks, 0);
    PresentIs(s, d, false, c, o, chunk, n, ApplyFrom(d, false, o, chunk, c.blocks, 0));
    PresentIs(s, d, true, c, o, chunk, n, ApplyFrom(d, true, o, chunk, c.blocks, 0));
  }

  lemma VisitInsideAgree(s: seq<byte>, d: Dims, c: Cursor, o: Origin)
    requires ValidCursor(s, c) && ChunkInside(d, o)
    ensures Visit(s, d, false, c, o) == Visit(s, d, true, c, o)
  {
    if c.pos < |s| && s[c.pos] == ChunkPresent {
      PresentInsideAgree(s, d, c, o);
    }
  }

  lemma {:induction false} PassFromAlignedAgree(s: seq<byte>, d: Dims, c: Cursor, x: nat, y: nat, z: nat)
    requires ValidCursor(s, c) && d.Aligned()
    requires x % ChunkSide == 0 && y % ChunkSide == 0 && z % ChunkSide == 0
    ensures PassFrom(s, d, false, c, x, y, z) == PassFrom(s, d, true, c, x, y, z)
    decreases d.height - z, d.length - y, d.width - x
  {
    if z >= d.height {
    } else if y >= d.length {
      PassFromAlignedAgree(s, d, c, 0, 0, z + ChunkSide);
    } else if x >= d.width {
      PassFromAlignedAgree(s, d, c, 0, y + ChunkSide, z);
    } else {
      var o := Origin(x, y, z);
      AlignedOriginInside(d, x, y, z);
      VisitInsideAgree(s, d, c, o);
      var v := Visit(s, d, false, c, o);
      if v.Some? {
        PassFromAlignedAgree(s, d, v.value, x + ChunkSide, y, z);
      }
    }
  }

  /** On a map whose width, length and height are multiples of 16 every
      chunk lies wholly inside the map, and the code as written computes
      exactly what the corrected pass computes. */
  lemma OverlayAlignedAgree(s: seq<byte>, d: Dims, blocks: seq<byte>, start: nat)
    requires start <= |s| && d.Aligned()
    ensures Overlay(s, d, false, blocks, start) == Overlay(s, d, true, blocks, start)
  {
    PassFromAlignedAgree(s, d, Cursor(blocks, start, Zeros()), 0, 0, 0);
  }

  // ---------------------------------------------------------------------
  // A stream that ends early
  // ---------------------------------------------------------------------

  /** Once the stream is exhausted, the remaining chunks read nothing and
      change nothing. */
  lemma {:induction false} PassFromAtEnd(s: seq<byte>, d: Dims, clip: bool, c: Cursor, x: nat, y: nat, z: nat)
    requires ValidCursor(s, c) && c.pos == |s|
    ensures PassFrom(s, d, clip, c, x, y, z) == Some(c)
    decreases d.height - z, d.length - y, d.width - x
  {
    if z >= d.height {
    } else if y >= d.length {
      PassFromAtEnd(s, d, clip, c, 0, 0, z + ChunkSide);
    } else if x >= d.width {
      PassFromAtEnd(s, d, clip, c, 0, y + ChunkSide, z);
    } else {
      PassFromAtEnd(s, d, clip, c, x + ChunkSide, y, z);
    }
  }

  /** An overlay section with no bytes after the marker leaves the map as
      it is. */
  lemma OverlayEmpty(s: seq<byte>, d: Dims, clip: bool, blocks: seq<byte>)
    ensures Overlay(s, d, clip, blocks, |s|) == Some(Cursor(blocks, |s|, Zeros()))
  {
    PassFromAtEnd(s, d, clip, Cursor(blocks, |s|, Zeros()), 0, 0, 0);
  }
}
