/**
 Reads that the reassembly loop leaves unexamined, because its answers come to exactly the
 bytes from earlier reads: when that is, what it does, and what a read leaves behind
 otherwise.  This is for framing functions whose answers depend on the bytes alone.
 */
module Stalls {
  import opened Bytes
  import opened Frames
  import opened Connection
  import opened PeerStream
  import opened PeerRuns
  import opened Segments
  import opened Messages

  /** The length answered for the first `n` bytes of the buffer. */
  function Own(framing: Framing, buf: bytes, n: nat): int {
    Answer(framing, buf, n, 0, BINARY, NoData).length
  }

  /** With such data kept the length answered depends on the bytes alone, and such data are kept. */
  ghost predicate Memoryless(framing: Framing, valid: Valid) {
    forall buf: bytes, n: nat, read: nat, opcode: Opcode, data: FramingData
      {:trigger Answer(framing, buf, n, read, opcode, data)} ::
      valid(data) ==>
        (var r := Answer(framing, buf, n, read, opcode, data); r.length == Own(framing, buf, n) && valid(r.data))
  }

  /** The answers for `total` bytes, one behind the other, come to exactly the first `old_` of them. */
  predicate Reaches(framing: Framing, buf: bytes, old_: nat, total: nat)
    requires total <= |buf|
    decreases old_
  {
    && 0 < old_ < total
    && var n := Own(framing, buf, total);
    n == old_ || (0 < n < old_ && Reaches(framing, Shift(buf, n, total), old_ - n, total - n))
  }

  /** Acting on an answer that covers less than the old bytes. */
  lemma SettleBefore(e: Env, fd: int, net: Net, s: Scan, r: Framed)
    requires Holds(s) && fd >= 0 && Reliable(e, net) && 0 < r.length < s.off && s.read > 0
    ensures var p := Settle(e, fd, net, s, r);
            && p.Again? && p.frames == [Frame(r.opcode, s.buf[..r.length])] && Reliable(e, p.net)
            && p.scan == Scan(Shift(s.buf, r.length, s.off + s.read), s.off - r.length, s.read, r.opcode, r.data)
  {
    ReliableSends(e, fd, net, Frame(r.opcode, s.buf[..r.length]));
  }

  /** A round within the old bytes. */
  lemma EarlyNext(e: Env, framing: Framing, fd: int, net: Net, s: Scan, r: Framed) returns (m: Net, t: Scan)
    requires Holds(s) && NonNegative(framing) && fd >= 0 && Reliable(e, net) && s.read > 0
    requires r == Answer(framing, s.buf, s.off + s.read, s.read, s.opcode, s.data) && 0 < r.length < s.off
    ensures t == Scan(Shift(s.buf, r.length, s.off + s.read), s.off - r.length, s.read, r.opcode, r.data)
    ensures Reliable(e, m) && (StopsEarly(e, framing, fd, net, s) <==> StopsEarly(e, framing, fd, m, t))
  {
    SettleBefore(e, fd, net, s, r);
    var p := Settle(e, fd, net, s, r);
    m, t := p.net, p.scan;
  }

  /** The other rounds. */
  lemma EarlyNow(e: Env, framing: Framing, fd: int, net: Net, s: Scan, r: Framed)
    requires Holds(s) && NonNegative(framing) && s.read > 0
    requires r == Answer(framing, s.buf, s.off + s.read, s.read, s.opcode, s.data) && (r.length == 0 || r.length >= s.off)
    ensures StopsEarly(e, framing, fd, net, s) <==> r.length == s.off > 0
  {
    if r.length == 0 || r.length > s.off {
      AnswersPastOld(e, framing, fd, net, s);
    }
  }

  /** The loop ends early if and only if its answers come to exactly the old bytes. */
  lemma {:induction false} EarlyExactly(e: Env, framing: Framing, valid: Valid, fd: int, net: Net, s: Scan)
    requires Holds(s) && NonNegative(framing) && Memoryless(framing, valid) && valid(s.data) && s.read > 0
    requires fd >= 0 && Reliable(e, net)
    ensures StopsEarly(e, framing, fd, net, s) <==> Reaches(framing, s.buf, s.off, s.off + s.read)
    decreases s.off, 1
  {
    var r := MemorylessAnswer(framing, valid, s);
    if 0 < r.length < s.off {
      EarlyWithin(e, framing, valid, fd, net, s, r);
    } else {
      EarlyNow(e, framing, fd, net, s, r);
      ReachesStep(framing, s.buf, s.off, s.off + s.read, r.length);
    }
  }

  lemma {:induction false} EarlyWithin(e: Env, framing: Framing, valid: Valid, fd: int, net: Net, s: Scan, r: Framed)
    requires Holds(s) && NonNegative(framing) && Memoryless(framing, valid) && s.read > 0
    requires fd >= 0 && Reliable(e, net) && r == Answer(framing, s.buf, s.off + s.read, s.read, s.opcode, s.data)
    requires r.length == Own(framing, s.buf, s.off + s.read) && valid(r.data) && 0 < r.length < s.off
    ensures StopsEarly(e, framing, fd, net, s) <==> Reaches(framing, s.buf, s.off, s.off + s.read)
    decreases s.off, 0
  {
    var m, t := EarlyNext(e, framing, fd, net, s, r);
    ReachesNext(framing, s, r.length, t);
    EarlyExactly(e, framing, valid, fd, m, t);
  }

  lemma ReachesNext(framing: Framing, s: Scan, n: nat, t: Scan)
    requires Holds(s) && s.read > 0 && 0 < n < s.off && n == Own(framing, s.buf, s.off + s.read)
    requires t.buf == Shift(s.buf, n, s.off + s.read) && t.off == s.off - n && t.read == s.read
    ensures Holds(t)
    ensures Reaches(framing, s.buf, s.off, s.off + s.read) <==> Reaches(framing, t.buf, t.off, t.off + t.read)
  {
    assert t.off + t.read == s.off + s.read - n;
    ReachesStep(framing, s.buf, s.off, s.off + s.read, n);
  }

  lemma MemorylessAnswer(framing: Framing, valid: Valid, s: Scan) returns (r: Framed)
    requires Holds(s) && NonNegative(framing) && Memoryless(framing, valid) && valid(s.data)
    ensures r == Answer(framing, s.buf, s.off + s.read, s.read, s.opcode, s.data)
    ensures 0 <= r.length == Own(framing, s.buf, s.off + s.read) && valid(r.data)
  {
    r := Answer(framing, s.buf, s.off + s.read, s.read, s.opcode, s.data);
  }

  lemma ReachesStep(framing: Framing, buf: bytes, old_: nat, total: nat, n: int)
    requires old_ < total <= |buf| && n == Own(framing, buf, total)
    ensures n == old_ > 0 ==> Reaches(framing, buf, old_, total)
    ensures n <= 0 || n > old_ ==> !Reaches(framing, buf, old_, total)
    ensures 0 < n < old_ ==>
      (Reaches(framing, buf, old_, total) <==> Reaches(framing, Shift(buf, n, total), old_ - n, total - n))
  {
  }

  /** If it does, exactly the old bytes are sent or discarded, and all of the read stays behind. */
  lemma {:induction false} EarlyLeaves(e: Env, framing: Framing, fd: int, net: Net, s: Scan)
    requires Holds(s) && NonNegative(framing) && fd >= 0 && Reliable(e, net)
    requires StopsEarly(e, framing, fd, net, s)
    ensures var x := PeerLoop(e, framing, fd, net, s);
            && x.how.Waits? && x.scan.off + x.scan.read <= |x.scan.buf|
            && Spoken(x.frames) == s.buf[..s.off] && Contents(x.scan) == s.buf[s.off..s.off + s.read]
  {
    EarlySize(e, framing, fd, net, s);
    LoopConserves(e, framing, fd, net, s);
    var x := PeerLoop(e, framing, fd, net, s);
    SplitBySize(Spoken(x.frames), Contents(x.scan), Contents(s), s.read);
    assert Contents(s)[..s.off] == s.buf[..s.off] && Contents(s)[s.off..] == s.buf[s.off..s.off + s.read];
  }

  lemma SplitBySize(a: bytes, b: bytes, all: bytes, n: nat)
    requires a + b == all && |b| == n
    ensures a == all[..|all| - n] && b == all[|all| - n..]
  {
  }

  lemma {:induction false} EarlySize(e: Env, framing: Framing, fd: int, net: Net, s: Scan)
    requires Holds(s) && NonNegative(framing) && fd >= 0 && Reliable(e, net)
    requires StopsEarly(e, framing, fd, net, s)
    ensures var x := PeerLoop(e, framing, fd, net, s);
            x.how.Waits? && x.scan.off + x.scan.read == s.read
    decreases s.off + s.read
  {
    if AnswersOld(framing, s) && s.read > 0 {
      OldOffsetEndsLoop(e, framing, fd, net, s);
    } else {
      var p := Round(e, framing, fd, net, s);
      RoundSends(e, framing, fd, net, s);
      RoundShrinks(e, framing, fd, net, s);
      if p.scan.off == 0 {
        NothingOld(e, framing, fd, p.net, p.scan);
      }
      EarlySize(e, framing, fd, p.net, p.scan);
    }
  }

  /** Otherwise what stays behind, if anything does, is answered with nothing. */
  lemma {:induction false} LeavesWaiting(e: Env, framing: Framing, valid: Valid, fd: int, net: Net, s: Scan)
    requires Holds(s) && NonNegative(framing) && Memoryless(framing, valid) && valid(s.data) && s.read > 0
    ensures var x := PeerLoop(e, framing, fd, net, s);
            x.how.Waits? ==> LeftAs(framing, valid, x.scan, StopsEarly(e, framing, fd, net, s))
    decreases s.off + s.read
  {
    var r := MemorylessAnswer(framing, valid, s);
    var p := Round(e, framing, fd, net, s);
    if p.Again? {
      SettledScan(e, fd, net, s, r);
      RoundShrinks(e, framing, fd, net, s);
      LeavesWaiting(e, framing, valid, fd, p.net, p.scan);
    } else {
      StopLeaves(e, framing, valid, fd, net, s, r);
    }
  }

  /** What is left is examined, unless the loop ended early. */
  ghost predicate LeftAs(framing: Framing, valid: Valid, s: Scan, early: bool) {
    && valid(s.data)
    && (early || s.off + s.read == 0 || Own(framing, s.buf, s.off + s.read) == 0)
  }

  lemma StopLeaves(e: Env, framing: Framing, valid: Valid, fd: int, net: Net, s: Scan, r: Framed)
    requires Holds(s) && NonNegative(framing) && s.read > 0 && valid(r.data) && Round(e, framing, fd, net, s).Stop?
    requires r == Answer(framing, s.buf, s.off + s.read, s.read, s.opcode, s.data)
    requires r.length == Own(framing, s.buf, s.off + s.read) >= 0
    ensures var x := Round(e, framing, fd, net, s).ended;
            x.how.Waits? ==> LeftAs(framing, valid, x.scan, StopsEarly(e, framing, fd, net, s))
  {
    SettledScan(e, fd, net, s, r);
  }

  lemma SettledScan(e: Env, fd: int, net: Net, s: Scan, r: Framed)
    requires Holds(s) && s.read > 0 && r.length >= 0
    ensures match Settle(e, fd, net, s, r)
            case Again(t, _, _) => t.data == r.data && t.read > 0
            case Stop(x) =>
              x.how.Waits? ==>
                && x.scan.data == r.data
                && (r.length == 0 ==> x.scan.buf == s.buf && x.scan.off == s.off && x.scan.read == s.read)
                && (r.length > 0 ==> r.length == s.off || x.scan.off + x.scan.read == 0)
  {
  }

  /** A forwarding connection with such a framing function. */
  ghost predicate Tame(c: Conn, valid: Valid) {
    Bridged(c) && Memoryless(c.peer.framing.value, valid) && valid(c.framingData)
  }

  /** The read ends with its bytes unexamined. */
  ghost predicate ReadStops(e: Env, c: Conn, data: bytes)
    requires Bridged(c) && FitsPeer(c, data)
  {
    StopsEarly(e, c.peer.framing.value, c.wsFd, c.net, Loaded(c, data))
  }

  /** What is in the buffer, if anything is, is answered with nothing. */
  predicate Examined(c: Conn)
    requires c.peerOffset <= |c.peerBuffer| && c.peer.framing.Some?
  {
    c.peerOffset == 0 || Own(c.peer.framing.value, c.peerBuffer, c.peerOffset) == 0
  }

  /** What is sent and what stays behind. */
  predicate SaysAndKeeps(r: PeerResult, said: bytes, left: bytes) {
    r.conn.state.Open? && r.conn.peerOffset <= |r.conn.peerBuffer| && Spoken(r.frames) == said && Residue(r.conn) == left
  }

  /** When a read ends with its bytes unexamined. */
  lemma ReadStopsExactly(e: Env, c: Conn, data: bytes, valid: Valid)
    requires Tame(c, valid) && FitsPeer(c, data) && Reliable(e, c.net)
    ensures var s := Loaded(c, data);
            ReadStops(e, c, data) <==> Reaches(c.peer.framing.value, s.buf, s.off, s.off + s.read)
  {
    EarlyExactly(e, c.peer.framing.value, valid, c.wsFd, c.net, Loaded(c, data));
  }

  /** Then the old bytes are sent, and all of the read stays behind. */
  lemma StoppedRead(e: Env, c: Conn, data: bytes)
    requires Bridged(c) && FitsPeer(c, data) && Reliable(e, c.net) && ReadStops(e, c, data)
    ensures SaysAndKeeps(PeerData(e, c, Chunk(data)), Residue(c), data)
  {
    var s := Loaded(c, data);
    EarlyLeaves(e, c.peer.framing.value, c.wsFd, c.net, s);
    NewBytes(s.buf, Residue(c), data);
  }

  lemma NewBytes(buf: bytes, had: bytes, data: bytes)
    requires |had| + |data| <= |buf| && buf[..|had| + |data|] == had + data
    ensures buf[..|had|] == had && buf[|had|..|had| + |data|] == data
  {
    assert buf[..|had|] == (had + data)[..|had|] && buf[|had|..|had| + |data|] == (had + data)[|had|..];
  }

  /** Otherwise it leaves nothing, or bytes that the framing function answers with nothing. */
  lemma ReadLeaves(e: Env, c: Conn, data: bytes, valid: Valid)
    requires Tame(c, valid) && FitsPeer(c, data) && Reliable(e, c.net)
    ensures var d := PeerData(e, c, Chunk(data)).conn;
            d.state.Open? ==>
              Tame(d, valid) && Reliable(e, d.net) && d.peer == c.peer && (ReadStops(e, c, data) || Examined(d))
  {
    var framing, s := c.peer.framing.value, Loaded(c, data);
    LeavesWaiting(e, framing, valid, c.wsFd, c.net, s);
    LoopSends(e, framing, c.wsFd, c.net, s);
    PeerDataKeeps(e, c, data);
    StoredLeaves(e, c, PeerLoop(e, framing, c.wsFd, c.net, s), valid, ReadStops(e, c, data));
  }

  lemma StoredLeaves(e: Env, c: Conn, x: Ended, valid: Valid, early: bool)
    requires Bridged(c) && !x.how.SendFailed? && Reliable(e, x.net)
    requires x.how.Waits? ==> LeftAs(c.peer.framing.value, valid, x.scan, early)
    ensures var d := Stored(e, c, x).conn;
            d.state.Open? ==>
              && valid(d.framingData) && Reliable(e, d.net) && d.peer == c.peer
              && (early || d.peerOffset == 0 || Own(c.peer.framing.value, d.peerBuffer, d.peerOffset) == 0)
  {
  }

  /** The first read of a run that ends with its bytes unexamined, or their number if there is none. */
  ghost function FirstStopped(e: Env, c: Conn, chunks: seq<bytes>): (n: nat)
    requires c.state.Open? ==> Bridged(c)
    requires PeerReadsFit(e, c, chunks)
    ensures n <= |chunks|
    decreases |chunks|
  {
    if chunks == [] || !c.state.Open? then |chunks|
    else if ReadStops(e, c, chunks[0]) then 0
    else
      PeerDataKeeps(e, c, chunks[0]);
      1 + FirstStopped(e, PeerData(e, c, Chunk(chunks[0])).conn, chunks[1..])
  }

  /** What is cut off old bytes when certain new ones are behind them; 0 or too much if the cut is not within them. */
  type OldCut = bytes -> nat

  /** The cuts come to all of these bytes. */
  predicate CutsUp(cut: OldCut, h: bytes)
    decreases |h|
  {
    h != [] && (cut(h) == |h| || (0 < cut(h) < |h| && CutsUp(cut, h[cut(h)..])))
  }

  /** The pieces. */
  function Pieces(cut: OldCut, h: bytes): (pieces: seq<bytes>)
    decreases |h|
  {
    if h == [] then []
    else if 0 < cut(h) < |h| then [h[..cut(h)]] + Pieces(cut, h[cut(h)..])
    else [h]
  }

  lemma {:induction false} PiecesMakeUp(cut: OldCut, h: bytes)
    ensures Concat(Pieces(cut, h)) == h
    decreases |h|
  {
    if 0 < |h| && 0 < cut(h) < |h| {
      PiecesMakeUp(cut, h[cut(h)..]);
      ConcatOne(h[..cut(h)], Pieces(cut, h[cut(h)..]));
    } else if h != [] {
      assert [h][1..] == [] && h + [] == h;
    }
  }

  /** With `h` and then `data` in the buffer the answer covers `h` or less of it exactly if it is this cut. */
  predicate CutAgrees(framing: Framing, cut: OldCut, data: bytes, buf: bytes, h: bytes) {
    h != [] && |h| + |data| <= |buf| && buf[..|h| + |data|] == h + data ==>
      var m := Own(framing, buf, |h| + |data|);
      (0 < m <= |h| <==> 0 < cut(h) <= |h|) && (0 < m <= |h| ==> m == cut(h))
  }

  ghost predicate CutsBy(framing: Framing, cut: OldCut, data: bytes) {
    forall buf: bytes, h: bytes {:trigger CutAgrees(framing, cut, data, buf, h)} :: CutAgrees(framing, cut, data, buf, h)
  }

  lemma ShiftedOld(buf: bytes, h: bytes, data: bytes, m: nat, n: nat) returns (t: bytes, rest: bytes)
    requires m <= |h| && n == |h| + |data| <= |buf| && buf[..n] == h + data
    ensures t == Shift(buf, m, n) && rest == h[m..] && |t| == |buf| && t[..n - m] == rest + data
  {
    t, rest := Shift(buf, m, n), h[m..];
    assert buf[m..n] == buf[..n][m..] == (h + data)[m..] == h[m..] + data;
  }

  /** The answers come to exactly the old bytes if and only if the cuts do. */
  lemma {:induction false} ReachesExactly(framing: Framing, cut: OldCut, data: bytes, buf: bytes, h: bytes, k: nat,
                                          n: nat)
    requires CutsBy(framing, cut, data) && data != []
    requires k == |h| && n == k + |data| <= |buf| && buf[..n] == h + data
    ensures Reaches(framing, buf, k, n) <==> CutsUp(cut, h)
    decreases k
  {
    if h != [] {
      var m := Own(framing, buf, n);
      assert CutAgrees(framing, cut, data, buf, h);
      ReachesStep(framing, buf, k, n, m);
      CutsStep(cut, h, m);
      if 0 < m < k {
        var t, rest := ShiftedOld(buf, h, data, m, n);
        ReachesExactly(framing, cut, data, t, rest, k - m, n - m);
      }
    }
  }

  lemma CutsStep(cut: OldCut, h: bytes, m: int)
    requires h != [] && (0 < m <= |h| <==> 0 < cut(h) <= |h|) && (0 < m <= |h| ==> m == cut(h))
    ensures m == |h| ==> CutsUp(cut, h)
    ensures m <= 0 || m > |h| ==> !CutsUp(cut, h)
    ensures 0 < m < |h| ==> (CutsUp(cut, h) <==> CutsUp(cut, h[m..]))
  {
  }

  /** When a read ends with its bytes unexamined, told from the residue and the new bytes. */
  lemma ReadStopsWhen(e: Env, c: Conn, data: bytes, valid: Valid, cut: OldCut)
    requires Tame(c, valid) && FitsPeer(c, data) && Reliable(e, c.net) && CutsBy(c.peer.framing.value, cut, data)
    ensures ReadStops(e, c, data) <==> CutsUp(cut, Residue(c))
  {
    var s := Loaded(c, data);
    ReadStopsExactly(e, c, data, valid);
    ReachesExactly(c.peer.framing.value, cut, data, s.buf, Residue(c), s.off, s.off + s.read);
  }

  /** What the framing function cuts off short of all the data is text. */
  ghost predicate CutsText(framing: Framing) {
    forall buf: bytes, n: nat, read: nat, opcode: Opcode, data: FramingData
      {:trigger Answer(framing, buf, n, read, opcode, data)} ::
      var r := Answer(framing, buf, n, read, opcode, data);
      0 < r.length < n ==> r.opcode == TEXT
  }

  /** Then an early end sends the pieces, one text frame each. */
  lemma {:induction false} EarlyPieces(e: Env, framing: Framing, valid: Valid, cut: OldCut, data: bytes,
                                       fd: int, net: Net, s: Scan, h: bytes)
    requires Holds(s) && NonNegative(framing) && Memoryless(framing, valid) && valid(s.data) && CutsText(framing)
    requires CutsBy(framing, cut, data) && data != [] && fd >= 0 && Reliable(e, net)
    requires s.off == |h| && s.read == |data| && Contents(s) == h + data && CutsUp(cut, h)
    ensures PeerLoop(e, framing, fd, net, s).frames == AsText(Pieces(cut, h))
    decreases |h|
  {
    var r := MemorylessAnswer(framing, valid, s);
    assert CutAgrees(framing, cut, data, s.buf, h);
    assert r.length == cut(h) && r.opcode == TEXT;
    if r.length == |h| {
      LastPiece(e, framing, fd, net, s, r, cut, h, data);
    } else {
      var m, t := PieceNext(e, framing, fd, net, s, r);
      var u, rest := ShiftedOld(s.buf, h, data, r.length, s.off + s.read);
      EarlyPieces(e, framing, valid, cut, data, fd, m, t, rest);
      FirstPiece(s.buf, h, data, r.length);
      PiecesStep(cut, h);
    }
  }

  lemma FirstPiece(buf: bytes, h: bytes, data: bytes, m: nat)
    requires m <= |h| && |h| + |data| <= |buf| && buf[..|h| + |data|] == h + data
    ensures buf[..m] == h[..m]
  {
    assert buf[..m] == buf[..|h| + |data|][..m] == (h + data)[..m];
  }

  lemma PiecesStep(cut: OldCut, h: bytes)
    requires 0 < cut(h) < |h|
    ensures AsText(Pieces(cut, h)) == [Frame(TEXT, h[..cut(h)])] + AsText(Pieces(cut, h[cut(h)..]))
  {
    var first, more := h[..cut(h)], Pieces(cut, h[cut(h)..]);
    assert ([first] + more)[0] == first && ([first] + more)[1..] == more;
  }

  lemma LastPiece(e: Env, framing: Framing, fd: int, net: Net, s: Scan, r: Framed, cut: OldCut, h: bytes, data: bytes)
    requires Holds(s) && NonNegative(framing) && fd >= 0 && Reliable(e, net)
    requires r == Answer(framing, s.buf, s.off + s.read, s.read, s.opcode, s.data) && r.opcode == TEXT
    requires h != [] && r.length == cut(h) == |h| == s.off && s.read == |data| && Contents(s) == h + data
    ensures PeerLoop(e, framing, fd, net, s).frames == AsText(Pieces(cut, h))
  {
    FirstPiece(s.buf, h, data, |h|);
    OneMessage(framing, h);
    ReliableSends(e, fd, net, Frame(TEXT, h));
  }

  lemma PieceNext(e: Env, framing: Framing, fd: int, net: Net, s: Scan, r: Framed) returns (m: Net, t: Scan)
    requires Holds(s) && NonNegative(framing) && fd >= 0 && Reliable(e, net) && s.read > 0
    requires r == Answer(framing, s.buf, s.off + s.read, s.read, s.opcode, s.data) && 0 < r.length < s.off
    ensures t == Scan(Shift(s.buf, r.length, s.off + s.read), s.off - r.length, s.read, r.opcode, r.data)
    ensures Holds(t) && Reliable(e, m)
    ensures PeerLoop(e, framing, fd, net, s).frames
         == [Frame(r.opcode, s.buf[..r.length])] + PeerLoop(e, framing, fd, m, t).frames
  {
    SettleBefore(e, fd, net, s, r);
    var p := Settle(e, fd, net, s, r);
    m, t := p.net, p.scan;
  }

  /** What the client is told and what stays in the buffer. */
  predicate Tells(r: PeerResult, frames: seq<Frame>, left: bytes) {
    r.conn.state.Open? && r.frames == frames && r.conn.peerOffset <= |r.conn.peerBuffer| && Residue(r.conn) == left
  }

  /** Such a read sends the pieces of the residue, one text frame each. */
  lemma PiecesAreSent(e: Env, c: Conn, data: bytes, valid: Valid, cut: OldCut)
    requires Tame(c, valid) && FitsPeer(c, data) && Reliable(e, c.net)
    requires CutsText(c.peer.framing.value) && CutsBy(c.peer.framing.value, cut, data)
    ensures CutsUp(cut, Residue(c)) ==> Tells(PeerData(e, c, Chunk(data)), AsText(Pieces(cut, Residue(c))), data)
  {
    if CutsUp(cut, Residue(c)) {
      ReadStopsWhen(e, c, data, valid, cut);
      StoppedRead(e, c, data);
      EarlyPieces(e, c.peer.framing.value, valid, cut, data, c.wsFd, c.net, Loaded(c, data), Residue(c));
    }
  }
}
