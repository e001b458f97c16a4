/** The MCSharp .lvl map format (MapMCSharp), over the bytes of the file
    after gzip decompression: an 18-byte little-endian header, the block
    array (one legacy id per block, x fastest, then y, then z), and an
    optional overlay section introduced by the marker byte 0xBD. */
module MCSharpFormat {
  import opened Bytes
  import opened Grid
  import opened BlockMapping
  import opened MCSharpOverlay
  import opened OverlayProperties

  /** The u16 that opens every MCSharp map. */
  const Magic := 0x752
  /** Bytes the header occupies, permission bytes included. */
  const HeaderSize := 18
  /** The byte after the block array that announces the overlay section. */
  const OverlayMarker: byte := 0xBD

  /** A spawn point: coordinates in fixed point (32 units per block), then
      rotation and pitch. */
  datatype Position = Position(x: int, y: int, z: int, r: byte, l: byte)

  datatype Header = Header(width: nat, length: nat, height: nat, spawn: Position) {
    function Size(): Dims {
      Dims(width, length, height)
    }

    /** Every dimension fits the u16 field the header stores it in. */
    predicate Fits() {
      width < 0x1_0000 && length < 0x1_0000 && height < 0x1_0000
    }
  }

  /** Why a load fails: MapFormatException, EndOfStreamException (a
      BinaryReader or BufferUtil.ReadAll running out of bytes), or an
      IndexOutOfRangeException in the overlay pass. */
  datatype LoadError = FormatError | EndOfStream | IndexOutOfRange

  datatype Result<T> = Ok(value: T) | Err(error: LoadError)

  /** A parsed header and the position of the byte after it. */
  datatype Parsed = Parsed(header: Header, next: nat)

  /** A loaded map: its header and its (converted) block array. */
  datatype LevelMap = LevelMap(header: Header, blocks: seq<byte>)

  /** Claims: the first u16 of the stream is the magic number. Any
      exception, a stream shorter than two bytes among them, is a no. */
  predicate Claims(s: seq<byte>): (b: bool)
    ensures b <==> |s| >= 2 && s[0] == 0x52 && s[1] == 0x07
  {
    |s| >= 2 && U16(s[0], s[1]) == Magic
  }

  /** LoadHeaderInternal. The BinaryReader reads the magic, the three
      dimensions, the spawn's X, Z and Y (in that order) and R and L,
      throwing at the end of the stream; the two permission bytes are read
      with Stream.ReadByte, which returns -1 at the end instead of
      throwing. */
  function LoadHeaderInternal(s: seq<byte>): (r: Result<Parsed>)
    ensures r == Err(FormatError) <==> |s| >= 2 && !Claims(s)
    ensures r.Err? ==> r == Err(FormatError) || r == Err(EndOfStream)
    ensures r.Ok? <==> Claims(s) && |s| >= 16
    ensures r.Ok? ==> r.value.next == Min(HeaderSize, |s|) && r.value.header.Fits()
    ensures r.Ok? ==> var h := r.value.header;
      h.width == U16(s[2], s[3]) && h.length == U16(s[4], s[5]) && h.height == U16(s[6], s[7]) &&
      h.spawn.x == 32 * I16(s[8], s[9]) && h.spawn.z == 32 * I16(s[10], s[11]) &&
      h.spawn.y == 32 * I16(s[12], s[13]) && h.spawn.r == s[14] && h.spawn.l == s[15]
  {
    if |s| < 2 then Err(EndOfStream)
    else if U16(s[0], s[1]) != Magic then Err(FormatError)
    else if |s| < 16 then Err(EndOfStream)
    else
      var spawn := Position(I16(s[8], s[9]) * 32, I16(s[12], s[13]) * 32, I16(s[10], s[11]) * 32, s[14], s[15]);
      Ok(Parsed(Header(U16(s[2], s[3]), U16(s[4], s[5]), U16(s[6], s[7]), spawn), Min(HeaderSize, |s|)))
  }

  /** Claims says yes exactly when the header parses past its magic
      number, and on a stream holding a whole header exactly when the
      header parses. */
  lemma ClaimsIffMagic(s: seq<byte>)
    ensures Claims(s) <==> |s| >= 2 && LoadHeaderInternal(s) != Err(FormatError)
    ensures |s| >= HeaderSize ==> (Claims(s) <==> LoadHeaderInternal(s).Ok?)
  {
  }

  /** Position.BlockX and friends: the block coordinate, the fixed-point
      value divided by 32 with C#'s truncation toward zero. */
  function BlockOf(v: int): (b: int)
    ensures v >= 0 ==> 0 <= 32 * b <= v < 32 * b + 32
    ensures v < 0 ==> 32 * b - 32 < v <= 32 * b <= 0
  {
    if v >= 0 then v / 32 else -((-v) / 32)
  }

  /** SaveHeader: the magic, the dimensions, the spawn's block X, Z and Y
      (each cast to short), R, L and two zero permission bytes, all
      little-endian. */
  function SaveHeader(h: Header): (r: seq<byte>)
    ensures |r| == HeaderSize
    ensures U16(r[0], r[1]) == Magic && r[16] == 0 && r[17] == 0
  {
    LE16(Magic) + LE16(h.width) + LE16(h.length) + LE16(h.height) +
    LE16(BlockOf(h.spawn.x)) + LE16(BlockOf(h.spawn.z)) + LE16(BlockOf(h.spawn.y)) +
    [h.spawn.r, h.spawn.l, 0, 0]
  }

  /** The spawn a saved header gives back: each coordinate rounded toward
      zero to a whole block, truncated to 16 bits, and scaled by 32 again. */
  function SavedSpawn(p: Position): (q: Position)
    ensures q.r == p.r && q.l == p.l
    ensures q.x % 32 == 0 && q.y % 32 == 0 && q.z % 32 == 0
  {
    Position(32 * Wrap16(BlockOf(p.x)), 32 * Wrap16(BlockOf(p.y)), 32 * Wrap16(BlockOf(p.z)), p.r, p.l)
  }

  /** The header round trip: what SaveHeader writes parses back, whatever
      follows it, to the same dimensions and the saved spawn, and the
      block array starts right after the 18 header bytes. */
  lemma HeaderRoundTrip(h: Header, rest: seq<byte>)
    requires h.Fits()
    ensures LoadHeaderInternal(SaveHeader(h) + rest) ==
      Ok(Parsed(Header(h.width, h.length, h.height, SavedSpawn(h.spawn)), HeaderSize))
  {
    var s := SaveHeader(h) + rest;
    U16OfLE16(Magic);
    U16OfLE16(h.width);
    U16OfLE16(h.length);
    U16OfLE16(h.height);
    I16OfLE16(BlockOf(h.spawn.x));
    I16OfLE16(BlockOf(h.spawn.z));
    I16OfLE16(BlockOf(h.spawn.y));
    assert s[2..4] == LE16(h.width);
    assert s[4..6] == LE16(h.length);
    assert s[6..8] == LE16(h.height);
    assert s[8..10] == LE16(BlockOf(h.spawn.x));
    assert s[10..12] == LE16(BlockOf(h.spawn.z));
    assert s[12..14] == LE16(BlockOf(h.spawn.y));
  }

  /** A spawn on whole blocks whose block coordinates fit a short comes
      back from a save unchanged. */
  lemma BlockSpawnRoundTrip(p: Position)
    requires p.x % 32 == 0 && p.y % 32 == 0 && p.z % 32 == 0
    requires -0x8000 <= p.x / 32 < 0x8000 && -0x8000 <= p.y / 32 < 0x8000 && -0x8000 <= p.z / 32 < 0x8000
    ensures SavedSpawn(p) == p
  {
  }

  /** Save: the header, then the block array; the overlay section is never
      written. */
  function Save(h: Header, blocks: seq<byte>): (r: seq<byte>)
    ensures |r| == HeaderSize + |blocks| && r[HeaderSize..] == blocks
  {
    SaveHeader(h) + blocks
  }

  /** Load, after decompression: the header; the block array (exactly
      Volume bytes, or the load fails); the legacy ids converted through
      the table; then, when the next byte is the marker, the overlay pass
      over the rest of the stream. `clip` selects the overlay pass as
      written (false) or corrected (true). */
  function LoadSpec(s: seq<byte>, remap: byte -> bool, clip: bool): (r: Result<LevelMap>)
    ensures r.Ok? ==> LoadHeaderInternal(s).Ok? && r.value.header == LoadHeaderInternal(s).value.header
    ensures r.Ok? ==> |r.value.blocks| == r.value.header.Size().Volume()
  {
    match LoadHeaderInternal(s)
    case Err(e) => Err(e)
    case Ok(p) =>
      var d := p.header.Size();
      if |s| - p.next < d.Volume() then Err(EndOfStream)
      else
        var blocks := ConvertBlockTypes(s[p.next..p.next + d.Volume()], remap);
        var after := p.next + d.Volume();
        if after == |s| || s[after] != OverlayMarker then Ok(LevelMap(p.header, blocks))
        else
          match Overlay(s, d, clip, blocks, after + 1)
          case None => Err(IndexOutOfRange)
          case Some(c) => Ok(LevelMap(p.header, c.blocks))
  }

  /** The bytes Load converts: the Volume bytes after the header. */
  function StoredBlocks(s: seq<byte>, remap: byte -> bool): (r: seq<byte>)
    requires LoadHeaderInternal(s).Ok?
    requires LoadHeaderInternal(s).value.next + LoadHeaderInternal(s).value.header.Size().Volume() <= |s|
    ensures |r| == LoadHeaderInternal(s).value.header.Size().Volume()
  {
    var p := LoadHeaderInternal(s).value;
    ConvertBlockTypes(s[p.next..p.next + p.header.Size().Volume()], remap)
  }

  /** A loaded map differs from the converted stored blocks only in cells
      that held the sentinel; without the marker (or at the end of the
      stream) it is exactly the converted stored blocks. */
  lemma LoadOnlySentinels(s: seq<byte>, remap: byte -> bool, clip: bool)
    requires LoadSpec(s, remap, clip).Ok?
    ensures var p := LoadHeaderInternal(s).value;
      var after := p.next + p.header.Size().Volume();
      after <= |s| &&
      OnlySentinelsChanged(StoredBlocks(s, remap), LoadSpec(s, remap, clip).value.blocks) &&
      (after == |s| || s[after] != OverlayMarker ==> LoadSpec(s, remap, clip).value.blocks == StoredBlocks(s, remap))
  {
    var p := LoadHeaderInternal(s).value;
    var d := p.header.Size();
    var after := p.next + d.Volume();
    var blocks := StoredBlocks(s, remap);
    if after < |s| && s[after] == OverlayMarker {
      OverlayOnlySentinels(s, d, clip, blocks, after + 1);
    }
  }

  /** The corrected load fails only where the stream is not a map (wrong
      magic) or is cut short, never in the overlay pass; the load as
      written agrees with it whenever every dimension is a multiple of 16. */
  lemma LoadCorrected(s: seq<byte>, remap: byte -> bool)
    ensures LoadSpec(s, remap, true) != Err(IndexOutOfRange)
    ensures LoadHeaderInternal(s).Ok? && LoadHeaderInternal(s).value.header.Size().Aligned() ==>
      LoadSpec(s, remap, false) == LoadSpec(s, remap, true)
  {
    if LoadHeaderInternal(s).Ok? {
      var p := LoadHeaderInternal(s).value;
      var d := p.header.Size();
      var after := p.next + d.Volume();
      if after < |s| && s[after] == OverlayMarker {
        var blocks := ConvertBlockTypes(s[p.next..after], remap);
        OverlayClippedSucceeds(s, d, blocks, after + 1);
        if d.Aligned() {
          OverlayAlignedAgree(s, d, blocks, after + 1);
        }
      }
    }
  }

  /** The file round trip: loading what Save writes gives back the
      dimensions, the saved spawn and the blocks converted through the
      table, with no overlay (Save writes no marker). */
  lemma LoadSaveRoundTrip(h: Header, blocks: seq<byte>, remap: byte -> bool, clip: bool)
    requires h.Fits() && |blocks| == h.Size().Volume()
    ensures LoadSpec(Save(h, blocks), remap, clip) ==
      Ok(LevelMap(Header(h.width, h.length, h.height, SavedSpawn(h.spawn)), ConvertBlockTypes(blocks, remap)))
  {
    var s := Save(h, blocks);
    HeaderRoundTrip(h, blocks);
    assert s[HeaderSize..HeaderSize + |blocks|] == blocks;
  }

  /** Load as the source runs it: the block array is allocated, filled
      from the stream, converted in place, and handed to ReadCustomBlocks
      when the marker follows. */
  method Load(s: seq<byte>, remap: byte -> bool, clip: bool) returns (r: Result<LevelMap>)
    ensures r == LoadSpec(s, remap, clip)
  {
    var parsed := LoadHeaderInternal(s);
    if parsed.Err? {
      return Err(parsed.error);
    }
    var h := parsed.value.header;
    var next := parsed.value.next;
    var d := h.Size();
    var n := d.Volume();
    if |s| - next < n {
      return Err(EndOfStream);
    }
    // BufferUtil.ReadAll
    var blocks := new byte[n](k requires 0 <= k < n => s[next + k]);
    assert blocks[..] == s[next..next + n];
    // Map.ConvertBlockTypes
    forall k | 0 <= k < n {
      blocks[k] := if remap(blocks[k]) then Mapping(blocks[k]) else blocks[k];
    }
    assert blocks[..] == ConvertBlockTypes(s[next..next + n], remap);
    var after := next + n;
    if after == |s| || s[after] != OverlayMarker {
      return Ok(LevelMap(h, blocks[..]));
    }
    var pos := ReadCustomBlocks(s, after + 1, d, clip, blocks);
    if pos.None? {
      return Err(IndexOutOfRange);
    }
    return Ok(LevelMap(h, blocks[..]));
  }
}
