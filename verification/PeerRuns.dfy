/**
 Reads from the peer and whole runs of them: what they keep, what the client decodes from
 its wire, and that the two ends agree byte for byte.
 */
module PeerRuns {
  import opened Bytes
  import opened Cutting
  import opened Frames
  import opened Connection
  import opened PeerStream

  /** What a read on the peer's descriptor yields. */
  datatype PeerInput = Chunk(data: bytes) | EndOfFile | Failure

  /** The connection afterwards, the handler's return value, the segments it dealt with. */
  datatype PeerResult = PeerResult(conn: Conn, rv: nat, frames: seq<Frame>)

  ghost predicate Bridged(c: Conn) {
    && c.state.Open? && c.wsFd >= 0 && c.peerFd >= 0
    && |c.peerBuffer| == BUFFER_SIZE && c.peerOffset <= LIMIT
    && c.peer.framing.Some? && NonNegative(c.peer.framing.value)
  }

  /** A read brings at least one byte and at most what fits in front of the terminator. */
  predicate FitsPeer(c: Conn, data: bytes) {
    0 < |data| && c.peerOffset + |data| <= LIMIT
  }

  function Residue(c: Conn): bytes
    requires c.peerOffset <= |c.peerBuffer|
  {
    c.peerBuffer[..c.peerOffset]
  }

  /** The buffer after a read: the new bytes behind the old, then a NUL, then what was there. */
  function Filled(buf: bytes, off: nat, data: bytes): (r: bytes)
    requires off + |data| < |buf|
    ensures |r| == |buf|
    ensures r[..off + |data|] == buf[..off] + data && r[off + |data|] == 0
  {
    buf[..off] + data + [0] + buf[off + |data| + 1..]
  }

  function Loaded(c: Conn, data: bytes): (s: Scan)
    requires |c.peerBuffer| == BUFFER_SIZE && FitsPeer(c, data)
    ensures Holds(s)
  {
    Scan(Filled(c.peerBuffer, c.peerOffset, data), c.peerOffset, |data|, BINARY, c.framingData)
  }

  /** At `z`, at or behind the end of the data, stands a NUL. */
  predicate Terminated(s: Scan, z: nat) {
    s.off + s.read <= z < |s.buf| && s.buf[z] == 0
  }

  lemma CutOffStaysTerminated(s: Scan, n: nat, z: nat)
    requires Holds(s) && Terminated(s, z) && 0 < n <= s.off + s.read
    ensures Terminated(CutOff(s, n), z)
  {
    var total := s.off + s.read;
    assert Shift(s.buf, n, total)[z] == s.buf[total - n..][z - (total - n)] == s.buf[z];
  }

  lemma RoundStaysTerminated(e: Env, framing: Framing, fd: int, net: Net, s: Scan, z: nat)
    requires Holds(s) && Terminated(s, z)
    ensures var p := Round(e, framing, fd, net, s); p.Again? ==> Terminated(p.scan, z)
  {
    var r := Answer(framing, s.buf, s.off + s.read, s.read, s.opcode, s.data);
    if 0 < r.length < s.off + s.read {
      CutOffStaysTerminated(s.(opcode := r.opcode, data := r.data), r.length, z);
    }
  }

  /** In the first `n` calls of the framing function the buffer has a NUL at `z`. */
  ghost predicate CallsTerminated(e: Env, framing: Framing, fd: int, net: Net, s: Scan, z: nat, n: nat)
    requires Holds(s)
    decreases n
  {
    n == 0 ||
    (Terminated(s, z) &&
     var p := Round(e, framing, fd, net, s);
     p.Again? ==> CallsTerminated(e, framing, fd, p.net, p.scan, z, n - 1))
  }

  lemma {:induction false} AllCallsTerminated(e: Env, framing: Framing, fd: int, net: Net, s: Scan, z: nat, n: nat)
    requires Holds(s) && Terminated(s, z)
    ensures CallsTerminated(e, framing, fd, net, s, z, n)
    decreases n
  {
    if n > 0 {
      var p := Round(e, framing, fd, net, s);
      RoundStaysTerminated(e, framing, fd, net, s, z);
      if p.Again? {
        AllCallsTerminated(e, framing, fd, p.net, p.scan, z, n - 1);
      }
    }
  }

  /** The NUL written behind a read stays where it is in all rounds, so that every call finds one. */
  lemma ReadIsTerminated(e: Env, c: Conn, data: bytes, framing: Framing, n: nat)
    requires |c.peerBuffer| == BUFFER_SIZE && FitsPeer(c, data)
    ensures CallsTerminated(e, framing, c.wsFd, c.net, Loaded(c, data), c.peerOffset + |data|, n)
  {
    AllCallsTerminated(e, framing, c.wsFd, c.net, Loaded(c, data), c.peerOffset + |data|, n);
  }

  /** The connection as the loop leaves it; after a failed send the newest bytes are forgotten. */
  function Stored(e: Env, c: Conn, x: Ended): PeerResult {
    var d := c.(peerBuffer := x.scan.buf, framingData := x.scan.data, net := x.net);
    match x.how
    case Waits => PeerResult(d.(peerOffset := x.scan.off + x.scan.read), 0, x.frames)
    case SendFailed => PeerResult(d.(peerOffset := x.scan.off), 1, x.frames)
    case Overran =>
      PeerResult(CloseConn(e, d.(peerOffset := x.scan.off), Unexpected, Some(Ascii("Internal error"))), 0, x.frames)
  }

  /** One call of the peer handler. */
  function PeerData(e: Env, c: Conn, input: PeerInput): PeerResult
    requires Bridged(c) && (input.Chunk? ==> FitsPeer(c, input.data))
  {
    match input
    case Failure => PeerResult(CloseConn(e, c, Unexpected, Some(Ascii("Peer connection failed"))), 0, [])
    case EndOfFile => PeerResult(CloseConn(e, c, Normal, Some(Ascii("Peer closed connection"))), 0, [])
    case Chunk(data) => Stored(e, c, PeerLoop(e, c.peer.framing.value, c.wsFd, c.net, Loaded(c, data)))
  }

  /** The residue never takes the byte kept for the terminator, and nothing but the read changed. */
  lemma PeerDataKeeps(e: Env, c: Conn, data: bytes)
    requires Bridged(c) && FitsPeer(c, data)
    ensures var d := PeerData(e, c, Chunk(data)).conn;
            && (Bridged(d) || d.state.Closed?)
            && (d.state.Open? ==> d.wsFd == c.wsFd && d.peerFd == c.peerFd && d.input == c.input && d.peer == c.peer)
  {
    LoopConserves(e, c.peer.framing.value, c.wsFd, c.net, Loaded(c, data));
  }

  /** What the peer's socket has for a reader: bytes, at least one, or the end, or an error. */
  datatype Socket = Pending(first: byte, more: bytes) | AtEnd | Broken

  /**
   `recv` into the room in front of the terminator: up to `count` bytes, as the socket sees
   fit.  Without room it reads nothing and returns 0, which is also what it returns at the end.
   */
  function Received(c: Conn, socket: Socket, count: nat): PeerInput {
    match socket
    case Broken => Failure
    case AtEnd => EndOfFile
    case Pending(first, more) =>
      if c.peerOffset >= LIMIT then EndOfFile
      else Chunk([first] + more[..Min(count, Min(|more|, LIMIT - c.peerOffset - 1))])
  }

  /**
   Bytes are pending: they are read and fit, unless the buffer is full to its last byte.  Then
   the connection is closed as if the peer had closed it, and they are lost.
   */
  lemma FullBufferCloses(e: Env, c: Conn, first: byte, more: bytes, count: nat)
    requires Bridged(c)
    ensures var input := Received(c, Pending(first, more), count);
            && (input.Chunk? <==> c.peerOffset < LIMIT)
            && (input.Chunk? ==> FitsPeer(c, input.data) && input.data <= [first] + more)
            && (c.peerOffset == LIMIT ==>
                  PeerData(e, c, input)
                  == PeerResult(CloseConn(e, c, Normal, Some(Ascii("Peer closed connection"))), 0, []))
  {
    if c.peerOffset < LIMIT {
      var n := Min(count, Min(|more|, LIMIT - c.peerOffset - 1));
      assert more[..n] <= more;
    }
  }

  predicate Small(frames: seq<Frame>) {
    forall f :: f in frames ==> |f.payload| <= BUFFER_SIZE
  }

  lemma {:induction false} SpokenBounds(frames: seq<Frame>)
    ensures forall f :: f in frames ==> |f.payload| <= |Spoken(frames)|
  {
    if frames != [] {
      SpokenBounds(frames[1..]);
    }
  }

  /** What a run of reads told the client and kept, with all sends going through. */
  ghost predicate Accounted(c: Conn, received: bytes, r: PeerResult)
    requires c.peerOffset <= |c.peerBuffer|
  {
    && Small(r.frames) && r.rv == 0
    && r.conn.net.peer == c.net.peer
    && if r.conn.state.Open? then
         && r.conn.peerOffset <= |r.conn.peerBuffer|
         && Spoken(r.frames) + Residue(r.conn) == Residue(c) + received
         && r.conn.net.client == c.net.client + Wire(Sent(r.frames))
       else
         && Spoken(r.frames) <= Residue(c) + received
         && r.conn.net.client == c.net.client + Wire(Sent(r.frames)) + ServerFrame(Frame(CLOSE, Ascii("Internal error")))
  }

  lemma StoredAccounts(e: Env, c: Conn, data: bytes, x: Ended)
    requires Bridged(c) && Small(x.frames) && Reliable(e, x.net) && !x.how.SendFailed?
    requires |x.scan.buf| == BUFFER_SIZE && x.scan.off + x.scan.read <= LIMIT
    requires Spoken(x.frames) + Contents(x.scan) == Residue(c) + data
    requires x.net.client == c.net.client + Wire(Sent(x.frames)) && x.net.peer == c.net.peer
    ensures Accounted(c, data, Stored(e, c, x))
    ensures Stored(e, c, x).conn.state.Open? ==> Reliable(e, Stored(e, c, x).conn.net)
  {
    if x.how.Overran? {
      SendAndText(e, c.wsFd, x.net, Frame(CLOSE, Ascii("Internal error")));
    }
  }

  /**
   One read, any framing function: segments and new residue are the old residue and the
   bytes read; a result beyond the data closes without sending that segment.
   */
  lemma ReadConserves(e: Env, c: Conn, data: bytes)
    requires Bridged(c) && FitsPeer(c, data) && Reliable(e, c.net)
    ensures Accounted(c, data, PeerData(e, c, Chunk(data)))
    ensures PeerData(e, c, Chunk(data)).conn.state.Open? ==> Reliable(e, PeerData(e, c, Chunk(data)).conn.net)
  {
    var s := Loaded(c, data);
    var x := PeerLoop(e, c.peer.framing.value, c.wsFd, c.net, s);
    LoopConserves(e, c.peer.framing.value, c.wsFd, c.net, s);
    LoopSends(e, c.peer.framing.value, c.wsFd, c.net, s);
    SpokenBounds(x.frames);
    StoredAccounts(e, c, data, x);
  }

  /** A run of reads; nothing is read any more once the connection is closed. */
  function PeerRun(e: Env, c: Conn, chunks: seq<bytes>): (r: PeerResult)
    requires c.state.Open? ==> Bridged(c)
    requires PeerReadsFit(e, c, chunks)
    decreases |chunks|
  {
    if chunks == [] || !c.state.Open? then PeerResult(c, 0, [])
    else
      PeerDataKeeps(e, c, chunks[0]);
      var first := PeerData(e, c, Chunk(chunks[0]));
      var rest := PeerRun(e, first.conn, chunks[1..]);
      PeerResult(rest.conn, if first.rv == 0 then rest.rv else first.rv, first.frames + rest.frames)
  }

  lemma RunStep(e: Env, c: Conn, chunks: seq<bytes>)
    requires Bridged(c) && chunks != [] && PeerReadsFit(e, c, chunks)
    ensures FitsPeer(c, chunks[0])
    ensures var first := PeerData(e, c, Chunk(chunks[0]));
            && (first.conn.state.Open? ==> Bridged(first.conn)) && PeerReadsFit(e, first.conn, chunks[1..])
            && var rest := PeerRun(e, first.conn, chunks[1..]);
            && PeerRun(e, c, chunks).frames == first.frames + rest.frames
            && PeerRun(e, c, chunks).conn == rest.conn
  {
    PeerDataKeeps(e, c, chunks[0]);
  }

  ghost predicate PeerReadsFit(e: Env, c: Conn, chunks: seq<bytes>)
    requires c.state.Open? ==> Bridged(c)
    decreases |chunks|
  {
    chunks == [] || !c.state.Open? ||
    (FitsPeer(c, chunks[0]) &&
     (PeerDataKeeps(e, c, chunks[0]);
      PeerReadsFit(e, PeerData(e, c, Chunk(chunks[0])).conn, chunks[1..])))
  }

  lemma {:induction false} SentAppend(a: seq<Frame>, b: seq<Frame>)
    ensures Sent(a + b) == Sent(a) + Sent(b)
  {
    if a == [] {
      assert a + b == b;
    } else {
      assert (a + b)[1..] == a[1..] + b;
      SentAppend(a[1..], b);
    }
  }

  /**
   Conservation over a whole run of reads of any sizes, for every framing function that
   never answers negatively.
   */
  lemma {:induction false} RunConserves(e: Env, c: Conn, chunks: seq<bytes>)
    requires Bridged(c) && PeerReadsFit(e, c, chunks) && Reliable(e, c.net)
    ensures Accounted(c, Concat(chunks), PeerRun(e, c, chunks))
    decreases |chunks|
  {
    if chunks == [] {
      assert Residue(c) + [] == Residue(c) && [] + Residue(c) == Residue(c);
      assert Wire([]) == [] && c.net.client + [] == c.net.client;
    } else {
      var r := PeerData(e, c, Chunk(chunks[0]));
      PeerDataKeeps(e, c, chunks[0]);
      ReadConserves(e, c, chunks[0]);
      if r.conn.state.Open? {
        RunConserves(e, r.conn, chunks[1..]);
        AccountsAdd(c, chunks[0], r, Concat(chunks[1..]), PeerRun(e, r.conn, chunks[1..]));
      } else {
        Regroup(Residue(c), chunks[0], Concat(chunks[1..]));
        assert r.frames + [] == r.frames;
      }
    }
  }

  lemma AccountsAdd(c: Conn, a: bytes, r: PeerResult, b: bytes, q: PeerResult)
    requires c.peerOffset <= |c.peerBuffer| && Accounted(c, a, r) && r.conn.state.Open?
    requires Accounted(r.conn, b, q)
    ensures Accounted(c, a + b, PeerResult(q.conn, 0, r.frames + q.frames))
  {
    SpokenAppend(r.frames, q.frames);
    SentAppend(r.frames, q.frames);
    PrintAppend(ServerFrame, Sent(r.frames), Sent(q.frames));
    Regroup(c.net.client, Wire(Sent(r.frames)), Wire(Sent(q.frames)));
    BytesAdd(Residue(c), a, b, Spoken(r.frames), Residue(r.conn), Spoken(q.frames));
    if q.conn.state.Open? {
      Regroup(Spoken(r.frames), Spoken(q.frames), Residue(q.conn));
    }
  }

  lemma BytesAdd(had: bytes, a: bytes, b: bytes, said: bytes, kept: bytes, more: bytes)
    requires said + kept == had + a
    ensures said + (kept + b) == had + (a + b)
    ensures more <= kept + b ==> said + more <= had + (a + b)
  {
    Regroup(said, kept, b);
    Regroup(had, a, b);
  }

  lemma {:induction false} SentIsSmall(frames: seq<Frame>)
    requires Small(frames)
    ensures forall f :: f in Sent(frames) ==> Sendable(f)
    ensures (forall f :: f in frames ==> f.opcode != DISCARD) ==> Sent(frames) == frames
  {
    if frames != [] {
      assert forall f :: f in frames[1..] ==> f in frames;
      SentIsSmall(frames[1..]);
    }
  }

  /** What the client is told last when the framing function overran. */
  function Farewells(d: Conn): (frames: seq<Frame>) {
    if d.state.Open? then [] else [Frame(CLOSE, Ascii("Internal error"))]
  }

  /**
   End to end: a conforming client decodes from its wire exactly the segments that were
   not discarded, and, if none was, what it reads is the peer's stream up to the residue.
   */
  lemma PeerReachesClient(e: Env, c: Conn, chunks: seq<bytes>)
    requires Bridged(c) && PeerReadsFit(e, c, chunks) && Reliable(e, c.net)
    ensures var r := PeerRun(e, c, chunks);
            && c.net.client <= r.conn.net.client
            && CutAll(Receive, r.conn.net.client[|c.net.client|..]) == Cuts(Sent(r.frames) + Farewells(r.conn), Rest([]))
            && ((forall f :: f in r.frames ==> f.opcode != DISCARD) ==>
                  Spoken(Sent(r.frames)) <= Residue(c) + Concat(chunks))
  {
    RunConserves(e, c, chunks);
    var r := PeerRun(e, c, chunks);
    SentIsSmall(r.frames);
    var said := c.net.client + Wire(Sent(r.frames));
    if r.conn.state.Open? {
      assert said + Wire([]) == said;
    } else {
      WireOne(Frame(CLOSE, Ascii("Internal error")));
    }
    WireOfRun(c.net.client, r.conn.net.client, Sent(r.frames), Farewells(r.conn));
  }

  lemma WireOfRun(before: bytes, after: bytes, sent: seq<Frame>, last: seq<Frame>)
    requires after == before + Wire(sent) + Wire(last)
    requires forall f :: f in sent + last ==> Sendable(f)
    ensures before <= after && CutAll(Receive, after[|before|..]) == Cuts(sent + last, Rest([]))
  {
    PrintAppend(ServerFrame, sent, last);
    var wire := Wire(sent + last);
    Regroup(before, Wire(sent), Wire(last));
    assert after[|before|..] == wire;
    WireRoundTrip(sent + last, []);
    assert wire + [] == wire && sent + last + [] == sent + last;
    assert CutAll(Receive, []) == Cuts([], Rest([]));
  }
}
