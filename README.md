# MCSharp maps and the map-chunk stream, in Dafny

This project models two pieces of the ProCraft server.

- **The MCSharp `.lvl` map format** (`MapMCSharp`). The model works on the bytes of the file after gzip decompression:
  - an 18-byte little-endian header (magic `0x752`, width, length, height, spawn X, Z and Y in blocks, rotation, pitch, two permission bytes);
  - the block array, one legacy id per block;
  - an optional overlay section, announced by the byte `0xBD`.

  Loading converts legacy ids through the fixed 256-entry table `Mapping`. Id 163 is a sentinel: "the real id is in the overlay". The overlay walks the map in 16 × 16 × 16 chunks (z outermost, then y, then x). Each chunk has one flag byte, and a flag of 1 is followed by 4096 ids. Those ids replace the cells of that chunk that still hold the sentinel.
- **`LevelChunkStream`**, the write-only stream a serialised map goes through on its way to a player. It gathers bytes in the payload area of a 1028-byte packet buffer:
  - opcode `MapChunk`;
  - a big-endian length;
  - 1024 payload bytes;
  - a progress byte.

  It sends the buffer whenever the payload area is full, and once more on `Close` for whatever is left.

Modules, one file each:

| file | module | contents |
|---|---|---|
| bytes.dfy | `Bytes` | bytes, 16-bit little- and big-endian fields, the C# `(short)` cast |
| grid.dfy | `Grid` | map dimensions, `Map.Index`, a chunk's local cells |
| mapping.dfy | `BlockMapping` | the legacy-id table and `Map.ConvertBlockTypes` |
| overlay.dfy | `MCSharpOverlay` | the overlay pass: a specification (`Overlay`), and `ReadCustomBlocks` as three nested loops over an array |
| overlay_props.dfy | `OverlayProperties` | the pass changes only sentinel cells; the corrected pass never fails; on aligned maps, as written and corrected agree |
| overlay_cells.dfy | `OverlayCells` | the corrected pass, cell by cell |
| overlay_finding.dfy | `OverlayFinding` | the out-of-range write of the pass as written |
| mcsharp.dfy | `MCSharpFormat` | `Claims`, the header, `Save`, `Load` |
| frames.dfy | `ChunkFrames` | the map-chunk packet, and the packets a byte stream makes |
| level_chunk_stream.dfy | `ChunkStream` | the class `LevelChunkStream` |

How the overlay pass is modelled:
- The overlay pass takes a flag `clip`. With `clip` false it is the code as written: no bounds check, and an index past the array is the `IndexOutOfRangeException` that ends the load. With `clip` true it is the corrected pass, which skips cells outside the map (see "Findings").
- `Load` and `ReadCustomBlocks` are methods over arrays. Each is proved equal to its specification function (`LoadSpec`, `Overlay`).

How `LevelChunkStream` is modelled:
- It is a class with the buffer `data` (an array), `index`, `position` and `length`.
- The player reference becomes a flag, `attached`.
- Sending is modelled by appending a snapshot of the buffer to the ghost log `packets`. The ghost log `written` records every byte written.
- Its invariant `Valid` says two things:
  - the buffer is well formed, with `0 <= index < 1024`;
  - the valid bytes of the packets sent, followed by the bytes gathered, are exactly the bytes written.

## Model

| member | source | states |
|---|---|---|
| Bytes.U16 | fCraft/MapConversion/MapMCSharp.cs:77-79 | a u16 read low byte first is below 65536, with the first byte as its low and the second as its high byte |
| Bytes.I16 | fCraft/MapConversion/MapMCSharp.cs:87-89 | an i16 read low byte first is the two's-complement reading: the value in [-32768, 32768) congruent to the u16 reading modulo 65536, negative exactly when the high byte's top bit is set |
| Bytes.Wrap16 | fCraft/MapConversion/MapMCSharp.cs:167-174 | the `(short)` cast gives the value congruent to v modulo 65536 in the signed range, and leaves values already in range unchanged |
| Bytes.LE16 | fCraft/MapConversion/MapMCSharp.cs:164-174 | BinaryWriter writes two bytes that read back, low byte first, as v modulo 65536 |
| Bytes.BE16 | fCraft/Network/LevelChunkStream.cs:63 | network order: two bytes, high byte first, whose value is v modulo 65536 |
| Bytes.I16OfLE16 | fCraft/MapConversion/MapMCSharp.cs:172-174 | a signed field written by BinaryWriter reads back as the `(short)` cast of the value |
| Bytes.U16OfLE16 | fCraft/MapConversion/MapMCSharp.cs:164-169 | an unsigned field reads back as v modulo 65536, and as v itself when v fits |
| Grid.Local | fCraft/MapConversion/MapMCSharp.cs:135 | the masks `i & 0xF`, `(i >> 4) & 0xF`, `(i >> 8) & 0xF` give a cell of [0,16)³ |
| Grid.LocalDecodeInverse | fCraft/MapConversion/MapMCSharp.cs:135 | local decoding is one-to-one on [0, 4096): the local offset of the decoded cell is i |
| Grid.LocalEncodeInverse | fCraft/MapConversion/MapMCSharp.cs:135 | local decoding is onto [0,16)³: every chunk cell is the decoding of its local offset, which lies in [0, 4096) |
| Grid.IndexAdditive | fCraft/MapConversion/MapMCSharp.cs:133-136 | the chunk origin's index plus a local cell's index is the index of their sum |
| Grid.IndexNonNegative | fCraft/MapConversion/MapMCSharp.cs:133-136 | cells with non-negative coordinates have non-negative indices |
| Grid.IndexInRange | fCraft/MapConversion/MapMCSharp.cs:125-127 | a block inside the map has an index inside the block array |
| Grid.CellOfIndex | fCraft/MapConversion/MapMCSharp.cs:125-127 | decoding the index of a block inside the map gives the block back |
| Grid.IndexOfCell | fCraft/MapConversion/MapMCSharp.cs:108 | every position of the block array is the index of exactly one block inside the map |
| BlockMapping.Mapping | fCraft/MapConversion/MapMCSharp.cs:186-345 | the 256-entry table: entry 163 is 163 and no other entry is; every other entry is a classic block id |
| BlockMapping.UnassignedEntriesAreAir | fCraft/MapConversion/MapMCSharp.cs:186-188 | every entry the static constructor does not assign, all of 0–69 among them, is 0 (Air) |
| BlockMapping.ConvertBlockTypes | fCraft/MapConversion/MapMCSharp.cs:111 | conversion keeps the length and keeps unselected ids. Changed ids become classic ids. A cell holds the sentinel afterwards iff it did before |
| MCSharpOverlay.Zeros | fCraft/MapConversion/MapMCSharp.cs:122 | the chunk buffer starts as 4096 zero bytes |
| MCSharpOverlay.OnlySentinelsChangedTransitive | fCraft/MapConversion/MapMCSharp.cs:138-139 | changing only sentinel cells twice changes only sentinel cells |
| MCSharpOverlay.FillSentinel | fCraft/MapConversion/MapMCSharp.cs:138-139 | one overlay write keeps the length of the block array; what it does to each cell is FillSentinelContents |
| MCSharpOverlay.ApplyFrom | fCraft/MapConversion/MapMCSharp.cs:133-140 | the walk over a chunk's cells keeps the length of the block array or fails; its cell-by-cell meaning is ApplyFromClipped and ChunkOverlayCells, its failure ApplyFromFailsAt |
| MCSharpOverlay.WriteCell | fCraft/MapConversion/MapMCSharp.cs:135-139 | one cell write keeps the length of the block array or fails |
| MCSharpOverlay.ReadCount | fCraft/MapConversion/MapMCSharp.cs:131 | Stream.Read delivers at most 4096 bytes, all of them from the stream, and fewer only at its end |
| MCSharpOverlay.Refill | fCraft/MapConversion/MapMCSharp.cs:131 | the reused buffer still holds 4096 bytes after a read; its contents are RefillContents |
| MCSharpOverlay.RefillContents | fCraft/MapConversion/MapMCSharp.cs:131 | after Stream.Read the first n bytes of the buffer are the next n bytes of the stream, n being 4096 or all that remain; the bytes behind them keep the previous chunk's contents |
| MCSharpOverlay.Visit | fCraft/MapConversion/MapMCSharp.cs:129-130 | at the end of the stream a chunk reads nothing; a flag other than 1 consumes that one byte only; the read position never goes back |
| MCSharpOverlay.Present | fCraft/MapConversion/MapMCSharp.cs:131-140 | a present chunk consumes its flag byte and exactly the bytes the read delivers (4096, or all that remain), and keeps the block count |
| MCSharpOverlay.PresentReads | fCraft/MapConversion/MapMCSharp.cs:131 | after a present chunk the buffer holds the bytes just read at its front and the previous chunk's bytes behind them |
| MCSharpOverlay.PassFrom | fCraft/MapConversion/MapMCSharp.cs:125-141 | the three loops keep the block count and never move the read position back |
| MCSharpOverlay.Overlay | fCraft/MapConversion/MapMCSharp.cs:121-142 | the whole pass ends inside the stream, after its start, with as many blocks as it began with |
| MCSharpOverlay.ApplyChunk | fCraft/MapConversion/MapMCSharp.cs:133-140 | the innermost loop over an array fails exactly when the specification fails. Otherwise it leaves the array as ApplyFrom says |
| MCSharpOverlay.ApplyCell | fCraft/MapConversion/MapMCSharp.cs:135-139 | one iteration over the array is one step of ApplyFrom, or its failure |
| MCSharpOverlay.ReadChunk | fCraft/MapConversion/MapMCSharp.cs:131 | the read fills the front of the reused buffer with the next bytes of the stream and leaves the rest as it was |
| MCSharpOverlay.LoadChunk | fCraft/MapConversion/MapMCSharp.cs:131-140 | reading and applying a present chunk in place matches Present |
| MCSharpOverlay.VisitChunk | fCraft/MapConversion/MapMCSharp.cs:129-140 | the loop body, in place, matches Visit |
| MCSharpOverlay.ReadRow | fCraft/MapConversion/MapMCSharp.cs:127-141 | the loop over x, in place, takes the pass from the row's start to the next row, or fails as the pass does |
| MCSharpOverlay.ReadCustomBlocks | fCraft/MapConversion/MapMCSharp.cs:121-142 | ReadCustomBlocks over the array succeeds exactly when Overlay does. The array then holds Overlay's blocks and the read position is Overlay's |
| OverlayProperties.FillSentinelContents | fCraft/MapConversion/MapMCSharp.cs:138-139 | one cell write changes only the named cell, and only if it held the sentinel |
| OverlayProperties.FillSentinelOnlySentinels | fCraft/MapConversion/MapMCSharp.cs:138-139 | one cell write changes only sentinel cells |
| OverlayProperties.WriteCellOnlySentinels | fCraft/MapConversion/MapMCSharp.cs:134-140 | one iteration of the innermost loop changes only sentinel cells |
| OverlayProperties.ApplyFromOnlySentinels | fCraft/MapConversion/MapMCSharp.cs:134-140 | applying a chunk changes only sentinel cells |
| OverlayProperties.VisitOnlySentinels | fCraft/MapConversion/MapMCSharp.cs:129-140 | one chunk, present or not, changes only sentinel cells |
| OverlayProperties.PresentOnlySentinels | fCraft/MapConversion/MapMCSharp.cs:131-140 | a present chunk changes only sentinel cells |
| OverlayProperties.PassFromOnlySentinels | fCraft/MapConversion/MapMCSharp.cs:125-141 | the loops from any chunk on change only sentinel cells |
| OverlayProperties.OverlayOnlySentinels | fCraft/MapConversion/MapMCSharp.cs:121-142 | the overlay pass, as written or corrected, changes no cell that did not hold 163 |
| OverlayProperties.CellIndexInMap | fCraft/MapConversion/MapMCSharp.cs:133-136 | a chunk cell inside the map has an index inside the block array, equal to the origin's index plus the local index |
| OverlayProperties.ApplyFromClippedSucceeds | fCraft/MapConversion/MapMCSharp.cs:134-140 | the corrected walk over a chunk's cells never fails |
| OverlayProperties.PresentClippedSucceeds | fCraft/MapConversion/MapMCSharp.cs:131-140 | a present chunk never fails in the corrected pass |
| OverlayProperties.VisitClippedSucceeds | fCraft/MapConversion/MapMCSharp.cs:129-140 | a chunk never fails in the corrected pass |
| OverlayProperties.PassFromClippedSucceeds | fCraft/MapConversion/MapMCSharp.cs:125-141 | the corrected loops never fail |
| OverlayProperties.OverlayClippedSucceeds | fCraft/MapConversion/MapMCSharp.cs:121-142 | the corrected pass always completes on a block array of the map's volume |
| OverlayProperties.AlignedStep | fCraft/MapConversion/MapMCSharp.cs:125-127 | on a multiple of 16 below a multiple of 16, a whole chunk still fits |
| OverlayProperties.AlignedOriginInside | fCraft/MapConversion/MapMCSharp.cs:125-127 | on a map of whole chunks, every origin the loops visit has its whole chunk inside the map |
| OverlayProperties.ApplyFromInsideAgree | fCraft/MapConversion/MapMCSharp.cs:133-140 | for a chunk inside the map, the pass as written and the corrected pass write the same cells |
| OverlayProperties.PresentInsideAgree | fCraft/MapConversion/MapMCSharp.cs:131-140 | for a present chunk inside the map, the two passes agree |
| OverlayProperties.VisitInsideAgree | fCraft/MapConversion/MapMCSharp.cs:129-140 | for a chunk inside the map, the two passes agree |
| OverlayProperties.PassFromAlignedAgree | fCraft/MapConversion/MapMCSharp.cs:125-141 | on a map of whole chunks, the loops as written and corrected agree from any aligned origin |
| OverlayProperties.OverlayAlignedAgree | fCraft/MapConversion/MapMCSharp.cs:121-142 | when width, length and height are multiples of 16, the pass as written equals the corrected pass |
| OverlayProperties.PassFromAtEnd | fCraft/MapConversion/MapMCSharp.cs:129-130 | once the stream is exhausted, every remaining chunk reads nothing and changes nothing |
| OverlayProperties.OverlayEmpty | fCraft/MapConversion/MapMCSharp.cs:113-114 | a marker with nothing after it leaves the map as it was |
| OverlayCells.LocalOf | fCraft/MapConversion/MapMCSharp.cs:135 | a block in a chunk has a local offset below 4096 |
| OverlayCells.ChunkApplied | fCraft/MapConversion/MapMCSharp.cs:134-140 | the cell-by-cell result keeps the length of the block array |
| OverlayCells.LocalOfCell | fCraft/MapConversion/MapMCSharp.cs:135-136 | a block at origin plus a local cell lies in the chunk, at that cell's local offset |
| OverlayCells.LocalCellInChunk | fCraft/MapConversion/MapMCSharp.cs:135-136 | the block that local cell i names, inside the map, lies in the chunk at local offset i |
| OverlayCells.ChunkCellIsLocal | fCraft/MapConversion/MapMCSharp.cs:135-136 | conversely, a block in the chunk is the block its local offset names, and lies inside the map |
| OverlayCells.SkipStep | fCraft/MapConversion/MapMCSharp.cs:134-140 | a cell outside the map is no block's local offset, so skipping it changes nothing |
| OverlayCells.WriteStep | fCraft/MapConversion/MapMCSharp.cs:136-139 | writing local cell i, then the cells after it, is applying the cells from i on |
| OverlayCells.ApplyFromClipped | fCraft/MapConversion/MapMCSharp.cs:134-140 | the corrected walk over a chunk succeeds and gives the cell-by-cell result |
| OverlayCells.ChunkOverlayCells | fCraft/MapConversion/MapMCSharp.cs:133-140 | a sentinel cell in the chunk receives the chunk byte at its local offset; every other cell keeps its value |
| OverlayFinding.ApplyFromFailsAt | fCraft/MapConversion/MapMCSharp.cs:133-139 | the walk as written fails at the first cell whose index is past the array |
| OverlayFinding.OriginChunkIndex | fCraft/MapConversion/MapMCSharp.cs:133-136 | in a map 16 wide and 16 long, the first chunk's local offsets are the map's own indices |
| OverlayFinding.EdgeChunkFails | fCraft/MapConversion/MapMCSharp.cs:125-139 | a 16 × 16 × h map, 0 < h < 16, with its first chunk present: the pass as written fails and the corrected pass succeeds |
| OverlayFinding.SmallestEdgeChunk | fCraft/MapConversion/MapMCSharp.cs:125-139 | the concrete input: a 16 × 16 × 1 map, flag 1 and 4096 zeros |
| MCSharpFormat.Claims | fCraft/MapConversion/MapMCSharp.cs:42-54 | Claims says yes exactly when the stream has two bytes and they are 0x52, 0x07 (0x752 low byte first); a shorter stream is a no, not an error |
| MCSharpFormat.LoadHeaderInternal | fCraft/MapConversion/MapMCSharp.cs:67-96 | two or more bytes not starting with 0x752 is a format error; every other failure is end of stream. Parsing succeeds iff the magic is right and 16 bytes are present. The fields are width, length, height, then spawn X, Z, Y (each ×32), R and L. The block array starts at byte 18 (or at the end of a shorter stream) |
| MCSharpFormat.ClaimsIffMagic | fCraft/MapConversion/MapMCSharp.cs:42-54 | Claims says yes iff the header parses past its magic; on a whole header, iff it parses |
| MCSharpFormat.BlockOf | fCraft/MapConversion/MapMCSharp.cs:172-174 | the block coordinate is the fixed-point value divided by 32, truncated toward zero |
| MCSharpFormat.SaveHeader | fCraft/MapConversion/MapMCSharp.cs:162-183 | 18 bytes, starting with the magic and ending with two zero permission bytes |
| MCSharpFormat.SavedSpawn | fCraft/MapConversion/MapMCSharp.cs:172-178 | a saved spawn keeps R and L and is on whole blocks |
| MCSharpFormat.HeaderRoundTrip | fCraft/MapConversion/MapMCSharp.cs:162-183 | parsing what SaveHeader wrote, whatever follows, gives the same dimensions and the spawn (BlockX·32, BlockY·32, BlockZ·32) with the same R and L. The block array starts at byte 18 |
| MCSharpFormat.BlockSpawnRoundTrip | fCraft/MapConversion/MapMCSharp.cs:172-178 | a spawn on whole blocks that fit a short comes back unchanged |
| MCSharpFormat.Save | fCraft/MapConversion/MapMCSharp.cs:145-159 | the file is 18 header bytes followed by exactly the block array |
| MCSharpFormat.LoadSpec | fCraft/MapConversion/MapMCSharp.cs:100-118 | a loaded map has the parsed header and exactly Volume blocks |
| MCSharpFormat.StoredBlocks | fCraft/MapConversion/MapMCSharp.cs:108-111 | the converted block array has the map's volume |
| MCSharpFormat.LoadOnlySentinels | fCraft/MapConversion/MapMCSharp.cs:111-115 | a loaded map differs from the converted stored blocks only in sentinel cells. Without the 0xBD marker, or at the end of the stream, it is exactly the converted blocks |
| MCSharpFormat.LoadCorrected | fCraft/MapConversion/MapMCSharp.cs:113-115 | the corrected load never fails in the overlay pass; on maps of whole chunks it equals the load as written |
| MCSharpFormat.LoadSaveRoundTrip | fCraft/MapConversion/MapMCSharp.cs:145-159 | loading a saved map gives back its dimensions, the saved spawn and the converted blocks |
| MCSharpFormat.Load | fCraft/MapConversion/MapMCSharp.cs:100-118 | Load over arrays returns exactly LoadSpec |
| ChunkFrames.LengthField | fCraft/Network/LevelChunkStream.cs:63 | a packet's length field is at most 1024 |
| ChunkFrames.Payload | fCraft/Network/LevelChunkStream.cs:63-65 | a packet carries as many valid bytes as its length field says |
| ChunkFrames.Frame | fCraft/Network/LevelChunkStream.cs:62-65 | the packet sent is a well-formed frame: opcode, `index` in network order, the payload area unchanged, the progress byte at offset 1027; its valid bytes are the first `index` bytes of the payload area |
| ChunkFrames.Progress | fCraft/Network/LevelChunkStream.cs:64 | the progress byte is at most 100, 100 at the end and 0 at the start |
| ChunkFrames.ProgressMonotone | fCraft/Network/LevelChunkStream.cs:64 | progress never goes down as the position advances |
| ChunkFrames.PayloadsConcat | fCraft/Network/LevelChunkStream.cs:65 | the valid bytes of two runs of packets, one after the other, are the two runs' bytes concatenated |
| ChunkFrames.FullFrameLayout | fCraft/Network/LevelChunkStream.cs:24-25 | a full packet is a frame with length field 1024, carrying its payload and the progress byte |
| ChunkFrames.FrameOfFull | fCraft/Network/LevelChunkStream.cs:49-50 | sending a full buffer sends its payload area as a full packet |
| ChunkFrames.FullFramesShape | fCraft/Network/LevelChunkStream.cs:39-51 | n bytes make n / 1024 packets, each a frame with length field 1024, and leave the last n % 1024 bytes over |
| ChunkFrames.FullFramesReassemble | fCraft/Network/LevelChunkStream.cs:42-50 | the full packets' valid bytes followed by the bytes left over are the stream, in order |
| ChunkFrames.FullFramesSplit | fCraft/Network/LevelChunkStream.cs:39-51 | writing in two parts makes the same packets, and leaves the same bytes, as writing all at once |
| ChunkStream.Spliced | fCraft/Network/LevelChunkStream.cs:42-45 | a copy into the buffer puts the bytes at their place and leaves every other byte alone |
| ChunkStream.SplicedExtends | fCraft/Network/LevelChunkStream.cs:42-47 | copying behind the gathered bytes extends them by the copy and keeps the opcode |
| ChunkStream.LogExtends | fCraft/Network/LevelChunkStream.cs:39-51 | packets sent, then the full packets of the gathered bytes and the new ones, then the rest, give all bytes written so far |
| ChunkStream.StepLog | fCraft/Network/LevelChunkStream.cs:39-51 | one loop round extends the packets and the rest as a write of all bytes so far would |
| ChunkStream.LevelChunkStream.constructor | fCraft/Network/LevelChunkStream.cs:27-30 | a new stream: the opcode in byte 0, nothing gathered, nothing sent, the invariant holds |
| ChunkStream.LevelChunkStream.Close | fCraft/Network/LevelChunkStream.cs:32-36 | one final packet with length field `index` is sent iff index > 0. Afterwards index is 0, the invariant holds (so a second Close sends nothing), the packets sent carry exactly the bytes written, and the player is released |
| ChunkStream.LevelChunkStream.Write | fCraft/Network/LevelChunkStream.cs:38-52 | count ≤ 0 changes nothing. Otherwise the bytes are logged and (k + count) / 1024 full packets are sent, k being the bytes gathered before. `index` becomes (k + count) % 1024, and the invariant (order kept) holds |
| ChunkStream.LevelChunkStream.Pump | fCraft/Network/LevelChunkStream.cs:39-51 | the loop sends the full packets of the gathered bytes and the new ones, and keeps the rest |
| ChunkStream.LevelChunkStream.WriteByte | fCraft/Network/LevelChunkStream.cs:54-60 | the same effect (Appended) as a Write of the one byte |
| ChunkStream.LevelChunkStream.Put | fCraft/Network/LevelChunkStream.cs:55-59 | the byte goes behind the gathered bytes, and a full buffer is sent |
| ChunkStream.LevelChunkStream.Step | fCraft/Network/LevelChunkStream.cs:40-50 | one round copies min(1024 − index, count) bytes and extends the packets and the rest accordingly |
| ChunkStream.LevelChunkStream.Flush | fCraft/Network/LevelChunkStream.cs:49-50 | a full buffer goes out as the full packet of the gathered bytes, and index returns to 0 |
| ChunkStream.LevelChunkStream.Fill | fCraft/Network/LevelChunkStream.cs:40-47 | the copy extends the gathered bytes by the piece of the buffer, and index grows by the copy |
| ChunkStream.LevelChunkStream.CopyBytes | fCraft/Network/LevelChunkStream.cs:41-43 | the byte loop writes the piece at offset index + 3 and nothing else |
| ChunkStream.LevelChunkStream.BlockCopy | fCraft/Network/LevelChunkStream.cs:44-45 | Buffer.BlockCopy writes the same bytes in the same places as the byte loop |
| ChunkStream.LevelChunkStream.WritePacket | fCraft/Network/LevelChunkStream.cs:62-67 | the buffer is sent as Frame(old buffer, index, progress), and index returns to 0 |

## Left out

- Gzip and files. `File.OpenRead`, `File.Create` and `GZipStream` in `Claims`, `LoadHeader`, `Load` and `Save` are left out. The model works on the decompressed bytes, and `LoadHeader` is `LoadHeaderInternal` on them.
- The format's metadata properties and `ClaimsName`. They are constants, or a suffix check over a helper that is not part of this model.
- fCraft/Drawing/BlockPalette.cs is not part of this model. It is colour matching in floating point and unrelated to maps or the network.
- The `Block` enum and `OpCode` are not part of this model. The table uses the classic protocol's block numbers, and `OpCode.MapChunk` is taken to be 3.
- `Map` is not part of this model. Its constructor's checks and an `int` overflow of `Volume` are not modelled. `Map.Index` is taken as x + width·(y + length·z).
- `Map.ConvertBlockTypes` is not part of this model. It is a parameter `remap` that chooses which ids go through the table. Only `Mapping[163] == 163` is relied on.
- `BufferUtil.ReadAll` reads exactly Volume bytes or fails with EndOfStream.
- `Stream.Read` on the decompressed stream delivers everything it is asked for, up to the end of the stream. A gzip stream that returns a short read before its end is not modelled.
- `Position` fields are unbounded integers. `BlockX` (and its siblings) are the value divided by 32, truncated toward zero.
- Exceptions are results. MapFormatException, EndOfStreamException and the overlay's IndexOutOfRangeException become `LoadError` values.
- `Load` takes the flag `clip`: false is the overlay pass as written, and the rest of the model uses true, the corrected pass.
- ChunkFrames.Progress: the progress byte `(byte)(100 * (float)position / length)` is single-precision floating point. It is modelled as the exact integer floor of 100·position / length when 0 ≤ position ≤ length and length > 0, and as 0 otherwise. The float rounding and the cast of out-of-range values are not modelled.
- `player.SendNow(new Packet(data))` is network I/O. It is modelled by appending a snapshot of the buffer to the ghost log `packets`, so the send is taken to copy the buffer before the next write.
- `position` and `length` are set by the stream's user and never changed by its methods. They appear only in the progress byte.
- ChunkStream.LevelChunkStream.Write: requires the player to be set, although the source fails only at the first packet it sends after `Close`. It also requires offset and count to lie within the buffer, where the source throws. The C# `byte[]` is a sequence, because the stream only reads it.
- ChunkStream.LevelChunkStream.WriteByte: requires the player to be set, like Write. The "same effect" it shares with Write covers the log, `index` and the gathered bytes, not the stale bytes behind them in the buffer.
- The `Stream` overrides that only throw (`Read`, `Seek`, `Length`, `Position`, `SetLength`) and the empty `Flush` are left out, as are the `CanRead` family of constants.

## Findings

| source | as written | input that shows it | evidently intended | confidence | as-written member | corrected member |
|---|---|---|---|---|---|---|
| fCraft/MapConversion/MapMCSharp.cs:133-139 | the overlay write indexes `baseIndex + Index(xx, yy, zz)` with no bounds check. A chunk that sticks out of a map whose dimensions are not multiples of 16 either writes into other rows' cells or indexes past the array, and the `IndexOutOfRangeException` ends the load | a 16 × 16 × 1 map whose block array is followed by 0xBD, the flag 1 and 4096 bytes: cell 256 of the first chunk lies on layer 1, one past the array | cells outside the map are skipped, so any overlay section loads | not executed | OverlayFinding.SmallestEdgeChunk | OverlayProperties.OverlayClippedSucceeds |
