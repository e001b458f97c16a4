/** The map-chunk packet of the classic protocol, as LevelChunkStream
    builds it: one opcode byte, the number of valid payload bytes as a
    big-endian 16-bit field, a payload area of 1024 bytes (only the first
    `length` of them valid) and a progress byte: 1028 bytes in all. */
module ChunkFrames {
  import opened Bytes

  /** Payload bytes per packet. */
  const ChunkSize := 1024
  /** Bytes per packet: opcode, length field, payload area, progress. */
  const FrameSize := ChunkSize + 4
  /** Offset of the payload area in a packet. */
  const PayloadStart := 3
  /** Offset of the progress byte. */
  const ProgressAt := ChunkSize + 3
  /** OpCode.MapChunk. */
  const MapChunk: byte := 3

  /** A packet as it goes on the wire. */
  predicate IsFrame(p: seq<byte>) {
    |p| == FrameSize && p[0] == MapChunk && 256 * (p[1] as int) + (p[2] as int) <= ChunkSize
  }

  /** The packet's length field. */
  function LengthField(p: seq<byte>): (n: nat)
    requires IsFrame(p)
    ensures n <= ChunkSize
  {
    256 * (p[1] as int) + (p[2] as int)
  }

  /** The valid bytes of a packet: the first `LengthField` bytes of its
      payload area (none, for anything that is not a packet). */
  function Payload(p: seq<byte>): (r: seq<byte>)
    ensures IsFrame(p) ==> |r| == LengthField(p)
  {
    if IsFrame(p) then p[PayloadStart..PayloadStart + LengthField(p)] else []
  }

  predicate AllFrames(ps: seq<seq<byte>>) {
    forall k :: 0 <= k < |ps| ==> IsFrame(ps[k])
  }

  /** What a receiver reassembles from a run of packets: their valid bytes,
      in order. */
  function Payloads(ps: seq<seq<byte>>): (r: seq<byte>)
  {
    if ps == [] then [] else Payload(ps[0]) + Payloads(ps[1..])
  }

  /** A packet built from the buffer `data` holding `n` valid bytes, with
      progress byte `progress`: what WritePacket sends. */
  function Frame(data: seq<byte>, n: nat, progress: byte): (p: seq<byte>)
    requires |data| == FrameSize && data[0] == MapChunk && n <= ChunkSize
    ensures IsFrame(p) && LengthField(p) == n && Payload(p) == data[PayloadStart..PayloadStart + n]
    ensures p[PayloadStart..ProgressAt] == data[PayloadStart..ProgressAt] && p[ProgressAt] == progress
  {
    var area := data[PayloadStart..ProgressAt];
    var p := data[..1] + BE16(n) + area + [progress];
    assert 256 * (p[1] as int) + (p[2] as int) == n;
    assert IsFrame(p) && LengthField(p) == n;
    assert p[PayloadStart..ProgressAt] == area;
    assert Payload(p) == p[PayloadStart..PayloadStart + n] == area[..n];
    p
  }

  /** The progress byte: 100 * position / length, rounded down, for a
      position within a positive length; 0 otherwise. */
  function Progress(position: int, length: int): (b: byte)
    ensures b <= 100
    ensures 0 < length && position == length ==> b == 100
    ensures position <= 0 ==> b == 0
  {
    if 0 < length && 0 <= position <= length then
      var a, b := 100 * position, 100 * length;
      DivMonotone(a, b, length);
      assert b / length == 100;
      a / length
    else 0
  }

  /** Progress never goes down as the position advances. */
  lemma ProgressMonotone(p: int, q: int, length: int)
    requires 0 <= p <= q <= length
    ensures Progress(p, length) <= Progress(q, length)
  {
    if 0 < length {
      var a, b := 100 * p, 100 * q;
      assert a <= b;
      DivMonotone(a, b, length);
    }
  }

  lemma DivMonotone(a: int, b: int, d: int)
    requires 0 <= a <= b && 0 < d
    ensures a / d <= b / d
  {
    if a / d > b / d {
      assert d * (a / d) + a % d == a;
      assert d * (b / d) + b % d == b;
      assert d * (a / d) >= d * (b / d + 1) by {
        assert a / d >= b / d + 1;
        MulLe(b / d + 1, a / d, d);
      }
      assert false;
    }
  }

  lemma MulLe(x: int, y: int, d: int)
    requires x <= y && 0 < d
    ensures d * x <= d * y
  {
  }

  /** Reassembling two runs of packets one after the other. */
  lemma {:induction false} PayloadsConcat(a: seq<seq<byte>>, b: seq<seq<byte>>)
    ensures Payloads(a + b) == Payloads(a) + Payloads(b)
    decreases |a|
  {
    if a == [] {
      assert a + b == b;
    } else {
      assert (a + b)[0] == a[0] && (a + b)[1..] == a[1..] + b;
      PayloadsConcat(a[1..], b);
    }
  }

  /** The packet sent for a full payload area holding `payload`. */
  function FullFrame(payload: seq<byte>, progress: byte): (p: seq<byte>)
    requires |payload| == ChunkSize
  {
    [MapChunk] + BE16(ChunkSize) + payload + [progress]
  }

  /** A full packet is a packet with 1024 valid bytes, the payload, and
      the given progress byte. */
  lemma FullFrameLayout(payload: seq<byte>, progress: byte)
    requires |payload| == ChunkSize
    ensures var p := FullFrame(payload, progress);
      IsFrame(p) && LengthField(p) == ChunkSize && Payload(p) == payload && p[ProgressAt] == progress
  {
    var p := FullFrame(payload, progress);
    assert LengthField(p) == ChunkSize;
    assert p[PayloadStart..ProgressAt] == payload;
  }

  /** Sending a full buffer is sending its payload area as a full packet. */
  lemma FrameOfFull(data: seq<byte>, progress: byte)
    requires |data| == FrameSize && data[0] == MapChunk
    ensures Frame(data, ChunkSize, progress) == FullFrame(data[PayloadStart..ProgressAt], progress)
  {
    assert data[..1] == [MapChunk];
    FullFrameLayout(data[PayloadStart..ProgressAt], progress);
  }

  /** The full packets a stream of bytes makes, 1024 bytes each, all with
      the same progress byte. */
  function FullFrames(s: seq<byte>, progress: byte): (ps: seq<seq<byte>>)
    decreases |s|
  {
    if |s| < ChunkSize then [] else [FullFrame(s[..ChunkSize], progress)] + FullFrames(s[ChunkSize..], progress)
  }

  /** The bytes of a stream left over after its full packets. */
  function Rest(s: seq<byte>): (r: seq<byte>)
    decreases |s|
  {
    if |s| < ChunkSize then s else Rest(s[ChunkSize..])
  }

  /** A stream of n bytes makes n / 1024 full packets, each with 1024 valid
      bytes and the given progress, and leaves its last n % 1024 bytes
      over. */
  lemma {:induction false} FullFramesShape(s: seq<byte>, progress: byte)
    ensures var ps := FullFrames(s, progress);
      AllFrames(ps) && |ps| == |s| / ChunkSize &&
      (forall k :: 0 <= k < |ps| ==> LengthField(ps[k]) == ChunkSize && ps[k][ProgressAt] == progress)
    ensures Rest(s) == s[ChunkSize * (|s| / ChunkSize)..] && |Rest(s)| == |s| % ChunkSize
    decreases |s|
  {
    if |s| >= ChunkSize {
      var t := s[ChunkSize..];
      FullFramesShape(t, progress);
      FullFrameLayout(s[..ChunkSize], progress);
      assert |s| / ChunkSize == |t| / ChunkSize + 1;
      assert |s| % ChunkSize == |t| % ChunkSize;
      assert s[ChunkSize * (|s| / ChunkSize)..] == t[ChunkSize * (|t| / ChunkSize)..];
    }
  }

  /** Order is kept: the valid bytes of the full packets a stream makes,
      followed by the bytes left over, are the stream. */
  lemma {:induction false} FullFramesReassemble(s: seq<byte>, progress: byte)
    ensures Payloads(FullFrames(s, progress)) + Rest(s) == s
    decreases |s|
  {
    if |s| >= ChunkSize {
      var t := s[ChunkSize..];
      FullFramesReassemble(t, progress);
      var f := FullFrame(s[..ChunkSize], progress);
      FullFrameLayout(s[..ChunkSize], progress);
      var ps := [f] + FullFrames(t, progress);
      assert ps[0] == f && ps[1..] == FullFrames(t, progress);
      assert s == s[..ChunkSize] + t;
    }
  }

  /** Writing a stream in two parts makes the packets of the first part,
      then the packets of what it left over followed by the second part. */
  lemma {:induction false} FullFramesSplit(s: seq<byte>, t: seq<byte>, progress: byte)
    ensures FullFrames(s + t, progress) == FullFrames(s, progress) + FullFrames(Rest(s) + t, progress)
    ensures Rest(s + t) == Rest(Rest(s) + t)
    decreases |s|
  {
    if |s| >= ChunkSize {
      var u := s[ChunkSize..];
      assert (s + t)[..ChunkSize] == s[..ChunkSize];
      assert (s + t)[ChunkSize..] == u + t;
      FullFramesSplit(u, t, progress);
    }
  }
}
