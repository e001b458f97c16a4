/** LevelChunkStream: the write-only stream the serialised (compressed) map
    is written into on its way to one player. It gathers the bytes in the
    payload area of a 1028-byte packet buffer and sends the buffer each
    time the payload area is full, and once more on Close for the bytes
    still gathered. Sending is modelled by appending a copy of the buffer
    to the ghost log `packets`; `written` logs every byte written. */
module ChunkStream {
  import opened Bytes
  import opened ChunkFrames

  /** `d` with the bytes at `at`, `at + 1`, ... replaced by `src`. */
  function Spliced(d: seq<byte>, at: nat, src: seq<byte>): (r: seq<byte>)
    requires at + |src| <= |d|
    ensures |r| == |d| && r[at..at + |src|] == src
    ensures forall k :: 0 <= k < |d| && !(at <= k < at + |src|) ==> r[k] == d[k]
  {
    d[..at] + src + d[at + |src|..]
  }

  /** Splicing bytes in behind the first `at - start` bytes of a region
      that begins at `start` extends that region by the bytes. */
  lemma SplicedExtends(d: seq<byte>, start: nat, at: nat, src: seq<byte>)
    requires 0 < start <= at && at + |src| <= |d|
    ensures Spliced(d, at, src)[0] == d[0]
    ensures Spliced(d, at, src)[start..at + |src|] == d[start..at] + src
  {
    var r := Spliced(d, at, src);
    assert r[start..at + |src|] == r[start..at] + r[at..at + |src|];
  }

  /** Regrouping the log: `p` followed by `f` and `r`, where `f` and `r`
      make up `g + bytes`, is `p + g` followed by `bytes`. */
  lemma Regroup(p: seq<byte>, f: seq<byte>, r: seq<byte>, g: seq<byte>, bytes: seq<byte>)
    requires f + r == g + bytes
    ensures (p + f) + r == (p + g) + bytes
  {
    calc {
      (p + f) + r;
      p + (f + r);
      p + (g + bytes);
      (p + g) + bytes;
    }
  }

  /** The log after `bytes` have gone through a stream that had sent
      `sent`, gathered `gathered` and been written `before`: the packets
      sent, then the full packets of `gathered + bytes`, then what is left
      over, reassemble to `before + bytes`. */
  lemma LogExtends(sent: seq<seq<byte>>, gathered: seq<byte>, bytes: seq<byte>, progress: byte, before: seq<byte>)
    requires Payloads(sent) + gathered == before
    ensures Payloads(sent + FullFrames(gathered + bytes, progress)) + Rest(gathered + bytes) == before + bytes
  {
    var g := gathered + bytes;
    var fs := FullFrames(g, progress);
    FullFramesReassemble(g, progress);
    PayloadsConcat(sent, fs);
    Regroup(Payloads(sent), Payloads(fs), Rest(g), gathered, bytes);
  }

  /** The bytes written so far, `g0` then `s[lo..mid]`, grow by
      `s[mid..hi]`. */
  lemma PrefixGrows(g0: seq<byte>, s: seq<byte>, lo: nat, mid: nat, hi: nat)
    requires lo <= mid <= hi <= |s|
    ensures g0 + s[lo..hi] == (g0 + s[lo..mid]) + s[mid..hi]
  {
    assert s[lo..hi] == s[lo..mid] + s[mid..hi];
  }

  lemma Assoc<T>(a: seq<T>, b: seq<T>, c: seq<T>)
    ensures a + (b + c) == (a + b) + c
  {
  }

  /** One round of the loop in Write, on the log: the packets of the bytes
      so far, then those of what they left over followed by the next
      piece, are the packets of the bytes so far and the piece. */
  lemma StepLog(sent: seq<seq<byte>>, prefix: seq<byte>, piece: seq<byte>, whole: seq<byte>, progress: byte)
    requires whole == prefix + piece
    ensures (sent + FullFrames(prefix, progress)) + FullFrames(Rest(prefix) + piece, progress) == sent + FullFrames(whole, progress)
    ensures Rest(Rest(prefix) + piece) == Rest(whole)
  {
    FullFramesSplit(prefix, piece, progress);
    Assoc(sent, FullFrames(prefix, progress), FullFrames(Rest(prefix) + piece, progress));
  }

  class LevelChunkStream {
    /** Bytes gathered in the payload area, not yet sent. */
    var index: int
    /** Set by the caller; only the progress byte reads them. */
    var position: int
    var length: int
    /** The player is still set (Close clears it). */
    var attached: bool
    /** The packet buffer: opcode, length field, payload area, progress. */
    const data: array<byte>

    /** Every packet sent, as it was sent. */
    ghost var packets: seq<seq<byte>>
    /** Every byte written, in order. */
    ghost var written: seq<byte>

    /** The buffer is well formed and its payload area is not full. */
    ghost predicate Shaped()
      reads this`index, data
    {
      data.Length == FrameSize && data[0] == MapChunk && 0 <= index < ChunkSize
    }

    /** The bytes gathered in the payload area. */
    ghost function Gathered(): (g: seq<byte>)
      reads this`index, data
      requires data.Length == FrameSize && 0 <= index <= ChunkSize
      ensures |g| == index
    {
      data[PayloadStart..PayloadStart + index]
    }

    /** Between calls: the packets sent followed by the bytes gathered are
        exactly the bytes written. */
    ghost predicate Valid()
      reads this, data
    {
      Shaped() && Payloads(packets) + Gathered() == written
    }

    /** The effect of writing `bytes` on a stream that had gathered
        `oldGathered`, sent `oldPackets` and been written `oldWritten`:
        `bytes` are logged; the full packets of `oldGathered + bytes` are
        sent, (|oldGathered| + |bytes|) / 1024 of them; what is left over,
        (|oldGathered| + |bytes|) % 1024 bytes, stays gathered. */
    ghost predicate Appended(oldGathered: seq<byte>, oldPackets: seq<seq<byte>>, oldWritten: seq<byte>, bytes: seq<byte>)
      reads this, data
    {
      var all := oldGathered + bytes;
      Valid() &&
      written == oldWritten + bytes &&
      packets == oldPackets + FullFrames(all, Progress(position, length)) &&
      Gathered() == Rest(all) &&
      index == (|oldGathered| + |bytes|) % ChunkSize &&
      |packets| == |oldPackets| + (|oldGathered| + |bytes|) / ChunkSize
    }

    /** A new stream for a player: nothing gathered, nothing sent. */
    constructor ()
      ensures Valid() && fresh(data) && attached
      ensures index == 0 && position == 0 && length == 0 && packets == [] && written == []
    {
      data := new byte[FrameSize](k => if k == 0 then MapChunk else 0);
      index, position, length := 0, 0, 0;
      attached := true;
      packets, written := [], [];
    }

    /** Close: sends the bytes still gathered, if any, and lets go of the
        player. Afterwards the packets sent carry exactly the bytes
        written. */
    method Close()
      requires Valid() && (index > 0 ==> attached)
      modifies this`index, this`packets, this`attached, data
      ensures !attached && index == 0 && Valid()
      ensures Payloads(packets) == written
      ensures packets == if old(index) > 0
        then old(packets) + [Frame(old(data[..]), old(index), Progress(position, length))]
        else old(packets)
    {
      if index > 0 {
        ghost var last := Gathered();
        WritePacket();
        PayloadsConcat(old(packets), [packets[|packets| - 1]]);
        assert packets == old(packets) + [packets[|packets| - 1]];
        assert Payload(packets[|packets| - 1]) == last;
      } else {
        assert Gathered() == [];
      }
      attached := false;
    }

    /** Stream.Write: the `count` bytes of `buffer` from `offset` on, a
        piece at a time: each piece fills the payload area as far as it
        goes, and a full payload area is sent at once. */
    method Write(buffer: seq<byte>, offset: int, count: int)
      requires Valid() && attached
      requires count > 0 ==> 0 <= offset && offset + count <= |buffer|
      modifies this`index, this`packets, this`written, data
      ensures Valid()
      ensures count <= 0 ==> index == old(index) && packets == old(packets) && written == old(written)
      ensures count <= 0 ==> data[..] == old(data[..])
      ensures count > 0 ==> Appended(old(Gathered()), old(packets), old(written), buffer[offset..offset + count])
    {
      if count <= 0 {
        return;
      }
      ghost var g0 := Gathered();
      ghost var bytes := buffer[offset..offset + count];
      Pump(buffer, offset, count);
      written := written + bytes;
      LogExtends(old(packets), g0, bytes, Progress(position, length), old(written));
      FullFramesShape(g0 + bytes, Progress(position, length));
    }

    /** The loop of Write. */
    method Pump(buffer: seq<byte>, offset: nat, count: nat)
      requires Shaped() && attached && offset + count <= |buffer|
      modifies this`index, this`packets, data
      ensures Shaped()
      ensures packets == old(packets) + FullFrames(old(Gathered()) + buffer[offset..offset + count], Progress(position, length))
      ensures Gathered() == Rest(old(Gathered()) + buffer[offset..offset + count])
    {
      ghost var g0 := Gathered();
      ghost var progress := Progress(position, length);
      var off: nat, left: nat := offset, count;
      while left > 0
        invariant Shaped()
        invariant off == offset + (count - left) && off + left <= |buffer|
        invariant packets == old(packets) + FullFrames(g0 + buffer[offset..off], progress)
        invariant Gathered() == Rest(g0 + buffer[offset..off])
      {
        PrefixGrows(g0, buffer, offset, off, off + Min(ChunkSize - index, left));
        var copy := Step(buffer, off, left, old(packets), g0 + buffer[offset..off]);
        off, left := off + copy, left - copy;
      }
    }

    /** Stream.WriteByte: the same effect as a Write of the one byte. */
    method WriteByte(value: byte)
      requires Valid() && attached
      modifies this`index, this`packets, this`written, data
      ensures Appended(old(Gathered()), old(packets), old(written), [value])
    {
      ghost var g0 := Gathered();
      Put(value);
      written := written + [value];
      LogExtends(old(packets), g0, [value], Progress(position, length), old(written));
      FullFramesShape(g0 + [value], Progress(position, length));
    }

    /** The body of WriteByte: the byte goes behind the bytes gathered, and
        a full payload area is sent at once. */
    method Put(value: byte)
      requires Shaped() && attached
      modifies this`index, this`packets, data
      ensures Shaped()
      ensures packets == old(packets) + FullFrames(old(Gathered()) + [value], Progress(position, length))
      ensures Gathered() == Rest(old(Gathered()) + [value])
    {
      ghost var g := Gathered() + [value];
      data[index + PayloadStart] := value;
      index := index + 1;
      assert Gathered() == g;
      if index == ChunkSize {
        Flush(g);
      } else {
        assert FullFrames(g, Progress(position, length)) == [] && Rest(g) == g;
      }
    }

    /** One iteration of the loop in Write: copy as much of the `left`
        bytes from `off` on as fits, and send the packet if it is full.
        The packets `sent` so far and the bytes `prefix` gone in so far are
        extended by the piece copied. */
    method Step(buffer: seq<byte>, off: nat, left: nat, ghost sent: seq<seq<byte>>, ghost prefix: seq<byte>)
      returns (copy: nat)
      requires Shaped() && attached && 0 < left && off + left <= |buffer|
      requires packets == sent + FullFrames(prefix, Progress(position, length)) && Gathered() == Rest(prefix)
      modifies this`index, this`packets, data
      ensures Shaped() && copy == Min(ChunkSize - old(index), left)
      ensures packets == sent + FullFrames(prefix + buffer[off..off + copy], Progress(position, length))
      ensures Gathered() == Rest(prefix + buffer[off..off + copy])
    {
      copy := Min(ChunkSize - index, left);
      ghost var g := Gathered() + buffer[off..off + copy];
      Fill(buffer, off, copy);
      if index == ChunkSize {
        Flush(g);
      } else {
        assert FullFrames(g, Progress(position, length)) == [] && Rest(g) == g;
      }
      StepLog(sent, prefix, buffer[off..off + copy], prefix + buffer[off..off + copy], Progress(position, length));
    }

    /** A full payload area holding `g` is sent as the full packet of `g`. */
    method Flush(ghost g: seq<byte>)
      requires data.Length == FrameSize && data[0] == MapChunk && index == ChunkSize && attached
      requires Gathered() == g
      modifies this`index, this`packets, data
      ensures Shaped() && index == 0
      ensures packets == old(packets) + FullFrames(g, Progress(position, length)) && Rest(g) == []
    {
      ghost var progress := Progress(position, length);
      FrameOfFull(data[..], progress);
      WritePacket();
      assert g[..ChunkSize] == g && g[ChunkSize..] == [];
      assert FullFrames(g, progress) == [FullFrame(g, progress)] + FullFrames([], progress);
    }

    /** One iteration's copy in Write: `copy` bytes of `buffer` from
        `offset` on go into the payload area behind the bytes gathered. */
    method Fill(buffer: seq<byte>, offset: nat, copy: nat)
      requires Shaped() && 0 < copy <= ChunkSize - index && offset + copy <= |buffer|
      modifies this`index, data
      ensures data[0] == MapChunk && index == old(index) + copy
      ensures Gathered() == old(Gathered()) + buffer[offset..offset + copy]
    {
      ghost var before := data[..];
      if copy <= 8 {
        CopyBytes(buffer, offset, copy);
      } else {
        BlockCopy(buffer, offset, copy);
      }
      SplicedExtends(before, PayloadStart, index + PayloadStart, buffer[offset..offset + copy]);
      index := index + copy;
    }

    /** The byte loop Write uses for a copy of at most 8 bytes. */
    method CopyBytes(buffer: seq<byte>, offset: nat, copy: nat)
      requires data.Length == FrameSize && 0 <= index && index + copy <= ChunkSize && offset + copy <= |buffer|
      modifies data
      ensures data[..] == Spliced(old(data[..]), index + PayloadStart, buffer[offset..offset + copy])
    {
      for i := 0 to copy
        invariant forall k :: 0 <= k < data.Length ==>
          data[k] == if index + PayloadStart <= k < index + PayloadStart + i then buffer[offset + k - index - PayloadStart] else old(data[k])
      {
        data[index + i + PayloadStart] := buffer[offset + i];
      }
      assert data[..] == Spliced(old(data[..]), index + PayloadStart, buffer[offset..offset + copy]);
    }

    /** Buffer.BlockCopy, which Write uses for a longer copy: the same bytes
        in the same places as CopyBytes. */
    method BlockCopy(buffer: seq<byte>, offset: nat, copy: nat)
      requires data.Length == FrameSize && 0 <= index && index + copy <= ChunkSize && offset + copy <= |buffer|
      modifies data
      ensures data[..] == Spliced(old(data[..]), index + PayloadStart, buffer[offset..offset + copy])
    {
      forall i | 0 <= i < copy {
        data[index + PayloadStart + i] := buffer[offset + i];
      }
    }

    /** WritePacket: the length field gets `index` in network order, the
        progress byte 100 * position / length; the whole buffer is sent,
        and the payload area is emptied. */
    method WritePacket()
      requires data.Length == FrameSize && data[0] == MapChunk && 0 <= index <= ChunkSize && attached
      modifies this`index, this`packets, data
      ensures Shaped() && index == 0
      ensures data[..] == Frame(old(data[..]), old(index), Progress(position, length))
      ensures packets == old(packets) + [data[..]]
    {
      ghost var frame := Frame(data[..], index, Progress(position, length));
      var field := BE16(index);
      data[1] := field[0];
      data[2] := field[1];
      data[ProgressAt] := Progress(position, length);
      assert data[..] == frame;
      packets := packets + [data[..]];
      index := 0;
    }
  }
}
