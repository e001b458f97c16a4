/** The voxel grid's addressing: a map of `width` x `length` x `height`
    blocks stored as one flat array, x varying fastest, then y (along the
    length), then z (the height). Overlay chunks are 16 x 16 x 16 sub-cubes
    whose cells are numbered 0..4095 the same way. */
module Grid {

  /** Side of an overlay chunk, in blocks. */
  const ChunkSide := 16
  /** Number of cells in one overlay chunk. */
  const ChunkCells := 4096

  datatype Cell = Cell(x: int, y: int, z: int)

  datatype Dims = Dims(width: nat, length: nat, height: nat) {

    /** Map.Volume: the number of blocks. */
    function Volume(): nat {
      width * length * height
    }

    /** Map.Index: the flat position of block (x, y, z). */
    function Index(x: int, y: int, z: int): int {
      x + width * (y + length * z)
    }

    predicate InBounds(x: int, y: int, z: int) {
      0 <= x < width && 0 <= y < length && 0 <= z < height
    }

    /** Every dimension is a whole number of overlay chunks. */
    predicate Aligned() {
      width % ChunkSide == 0 && length % ChunkSide == 0 && height % ChunkSide == 0
    }

    /** The block stored at flat position `j`. */
    function CellOf(j: nat): (c: Cell)
      requires j < Volume()
    {
      assert width == 0 || length == 0 ==> Volume() == 0;
      Cell(j % width, (j / width) % length, (j / width) / length)
    }
  }

  /** The cell of a chunk that local offset `i` names: the low four bits
      give x, the next four y, the next four z. */
  function Local(i: int): (c: Cell)
    ensures 0 <= c.x < ChunkSide && 0 <= c.y < ChunkSide && 0 <= c.z < ChunkSide
  {
    Cell(i % 16, (i / 16) % 16, (i / 256) % 16)
  }

  /** The local offset of cell (xx, yy, zz) of a chunk. */
  function LocalOffset(xx: int, yy: int, zz: int): int {
    xx + 16 * yy + 256 * zz
  }

  /** Local decoding is injective on [0, 4096): LocalOffset undoes it. */
  lemma LocalDecodeInverse(i: int)
    requires 0 <= i < ChunkCells
    ensures LocalOffset(Local(i).x, Local(i).y, Local(i).z) == i
  {
    var a := i / 16;
    var b := a / 16;
    assert i == 16 * a + i % 16;
    assert a == 16 * b + a % 16;
    DivModUnique(i, 256, b, i % 16 + 16 * (a % 16));
  }

  /** Local decoding is onto [0, 16)^3: every cell of a chunk has a local
      offset in [0, 4096) that decodes back to it. */
  lemma LocalEncodeInverse(c: Cell)
    requires 0 <= c.x < ChunkSide && 0 <= c.y < ChunkSide && 0 <= c.z < ChunkSide
    ensures 0 <= LocalOffset(c.x, c.y, c.z) < ChunkCells
    ensures Local(LocalOffset(c.x, c.y, c.z)) == c
  {
    var n := LocalOffset(c.x, c.y, c.z);
    DivModUnique(n, 16, c.y + 16 * c.z, c.x);
    DivModUnique(c.y + 16 * c.z, 16, c.z, c.y);
    DivModUnique(n, 256, c.z, c.x + 16 * c.y);
  }

  /** Division and remainder are unique: if n = q*d + r with 0 <= r < d then
      q and r are n / d and n % d. */
  lemma DivModUnique(n: int, d: int, q: int, r: int)
    requires d > 0 && 0 <= r < d && n == q * d + r
    ensures n / d == q && n % d == r
  {
    var q', r' := n / d, n % d;
    assert n == q' * d + r';
    assert (q - q') * d == r' - r;
    if q > q' {
      MulAtLeast(q - q', d);
      assert false;
    } else if q < q' {
      MulAtLeast(q' - q, d);
      assert false;
    }
  }

  lemma MulAtLeast(k: int, d: int)
    requires k >= 1 && d >= 0
    ensures k * d >= d
  {
    assert k * d == d + (k - 1) * d;
  }

  lemma MulMonotone(a: int, b: int, d: int)
    requires a <= b && d >= 0
    ensures a * d <= b * d
  {
    assert b * d == a * d + (b - a) * d;
  }

  /** Blocks with non-negative coordinates have non-negative indices. */
  lemma IndexNonNegative(d: Dims, x: int, y: int, z: int)
    requires 0 <= x && 0 <= y && 0 <= z
    ensures 0 <= d.Index(x, y, z)
  {
    assert 0 <= d.length * z;
    assert 0 <= d.width * (y + d.length * z);
  }

  /** Index is linear: a chunk origin's index plus a local cell's index is
      the index of the sum. */
  lemma IndexAdditive(d: Dims, x: int, y: int, z: int, xx: int, yy: int, zz: int)
    ensures d.Index(x, y, z) + d.Index(xx, yy, zz) == d.Index(x + xx, y + yy, z + zz)
  {
    calc {
      d.Index(x, y, z) + d.Index(xx, yy, zz);
      x + d.width * (y + d.length * z) + xx + d.width * (yy + d.length * zz);
      (x + xx) + d.width * ((y + d.length * z) + (yy + d.length * zz));
      { assert d.length * z + d.length * zz == d.length * (z + zz); }
      (x + xx) + d.width * ((y + yy) + d.length * (z + zz));
    }
  }

  /** Blocks inside the map have indices inside the block array. */
  lemma IndexInRange(d: Dims, x: int, y: int, z: int)
    requires d.InBounds(x, y, z)
    ensures 0 <= d.Index(x, y, z) < d.Volume()
  {
    var row := y + d.length * z;
    MulMonotone(z, d.height - 1, d.length);
    assert d.length * z <= d.length * (d.height - 1);
    assert 0 <= row <= d.length * d.height - 1;
    MulMonotone(row, d.length * d.height - 1, d.width);
    assert d.width * row <= d.width * (d.length * d.height - 1);
    assert d.width * (d.length * d.height) == d.Volume();
  }

  /** Decoding the index of a block inside the map gives the block back. */
  lemma CellOfIndex(d: Dims, x: int, y: int, z: int)
    requires d.InBounds(x, y, z)
    ensures 0 <= d.Index(x, y, z) < d.Volume()
    ensures d.CellOf(d.Index(x, y, z)) == Cell(x, y, z)
  {
    IndexInRange(d, x, y, z);
    var j := d.Index(x, y, z);
    DivModUnique(j, d.width, y + d.length * z, x);
    DivModUnique(y + d.length * z, d.length, z, y);
  }

  /** A quotient is below m when the dividend is below d * m. */
  lemma DivBelow(n: int, d: int, m: int)
    requires d > 0 && 0 <= n < m * d
    ensures 0 <= n / d < m
  {
    var q := n / d;
    assert q * d <= n;
    if q >= m {
      MulMonotone(m, q, d);
      assert false;
    }
  }

  /** Every flat position is the index of exactly the block CellOf names,
      and that block lies inside the map. */
  lemma IndexOfCell(d: Dims, j: nat)
    requires j < d.Volume()
    ensures var c := d.CellOf(j); d.InBounds(c.x, c.y, c.z) && d.Index(c.x, c.y, c.z) == j
  {
    assert d.width == 0 || d.length == 0 ==> d.Volume() == 0;
    var c := d.CellOf(j);
    var q := j / d.width;
    assert j == q * d.width + c.x;
    assert q == c.z * d.length + c.y;
    assert d.Volume() == (d.length * d.height) * d.width;
    DivBelow(j, d.width, d.length * d.height);
    DivBelow(q, d.length, d.height);
  }
}
