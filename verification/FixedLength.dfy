/** The `fixedlength` framing function: blocks of a configured size. */
module FixedLength {
  import opened Bytes
  import opened Cutting
  import opened Frames
  import opened Connection
  import opened PeerStream
  import opened PeerRuns
  import opened Segments
  import Separators

  /** The block size is parsed into the connection's framing data on the first call. */
  function BlockSizeOf(configured: nat, data: FramingData): nat {
    if data.BlockSize? then data.size else configured
  }

  function FixedLength(configured: nat): Framing {
    (buf: bytes, length: nat, read: nat, opcode: Opcode, data: FramingData) =>
      var n := BlockSizeOf(configured, data);
      Framed(if n == 0 then length else if length >= n then n else 0, opcode, BlockSize(n))
  }

  method FramingFixedLength(configured: nat, length: nat, opcode: Opcode, data: FramingData) returns (framed: Framed)
    ensures forall buf, read :: framed == FixedLength(configured)(buf, length, read, opcode, data)
  {
    var size := configured;
    if data.BlockSize? {
      size := data.size;
    }
    if size == 0 {
      return Framed(length, opcode, BlockSize(size));
    }
    if length >= size {
      return Framed(size, opcode, BlockSize(size));
    }
    return Framed(0, opcode, BlockSize(size));
  }

  function FixedSplit(n: nat): Splitter {
    (s: bytes) => if |s| >= n then n else 0
  }

  function SizedAs(n: nat): Valid {
    (data: FramingData) => data == NoData || data == BlockSize(n)
  }

  lemma FixedSplits(n: nat)
    requires n > 0
    ensures Splits(FixedSplit(n)) && AgreesWhere(FixedLength(n), FixedSplit(n), SizedAs(n), _ => true)
    ensures NonNegative(FixedLength(n)) && KeepsOpcode(FixedLength(n))
  {
  }

  lemma {:induction false} BlocksAreFull(n: nat, s: bytes)
    requires n > 0
    ensures forall block :: block in CutAll(Segmenting(FixedSplit(n)), s).items ==> |block| == n
    ensures |Left(FixedSplit(n), s)| < n
    decreases |s|
  {
    FixedSplits(n);
    CutStep(FixedSplit(n), s);
    if |s| >= n {
      BlocksAreFull(n, s[n..]);
    }
  }

  /**
   For block sizes up to the buffer's limit: over every run, however the stream is cut into
   reads, the client is sent blocks of exactly `n` bytes, all binary, which make up the
   peer's stream; fewer than `n` bytes stay behind, so that the next read always has room.
   */
  lemma FixedSegmentation(e: Env, c: Conn, chunks: seq<bytes>, n: nat)
    requires 1 <= n <= LIMIT && Bridged(c) && c.peer.framing == Some(FixedLength(n)) && SizedAs(n)(c.framingData)
    requires c.peerOffset < n && PeerReadsFit(e, c, chunks) && Reliable(e, c.net)
    ensures var r := PeerRun(e, c, chunks);
            && r.conn.state.Open? && r.conn.peerOffset < n && |r.conn.peerBuffer| == BUFFER_SIZE
            && AllOf(r.frames, BINARY) && (forall block :: block in Texts(r.frames) ==> |block| == n)
            && Concat(Texts(r.frames)) + Residue(r.conn) == Residue(c) + Concat(chunks)
  {
    var stream := Residue(c) + Concat(chunks);
    FixedSplits(n);
    AllIsAcceptable(FixedSplit(n), stream);
    SegmentedRun(e, c, chunks, FixedSplit(n), SizedAs(n), _ => true);
    RunIsBinary(e, c, chunks);
    BlocksAreFull(n, stream);
  }

  lemma ZeroTakesAll()
    ensures Separators.TakesAll(FixedLength(0), SizedAs(0))
    ensures NonNegative(FixedLength(0)) && KeepsOpcode(FixedLength(0))
  {
  }

  /** A block size of 0 makes every read one binary frame. */
  lemma ZeroForwards(e: Env, c: Conn, chunks: seq<bytes>)
    requires Bridged(c) && c.peer.framing == Some(FixedLength(0)) && SizedAs(0)(c.framingData) && c.peerOffset == 0
    requires PeerReadsFit(e, c, chunks) && Reliable(e, c.net)
    ensures var r := PeerRun(e, c, chunks);
            Texts(r.frames) == chunks && AllOf(r.frames, BINARY) && r.conn.peerOffset == 0
  {
    ZeroTakesAll();
    Separators.ReadsAreFrames(e, c, chunks, SizedAs(0));
    RunIsBinary(e, c, chunks);
  }
}
