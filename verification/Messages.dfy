/**
 A framing function that recognises self-delimiting messages, and what the bridge makes of
 a stream of them.  The `json` framing function is such a one.
 */
module Messages {
  import opened Bytes
  import opened Frames
  import opened Connection
  import opened PeerStream
  import opened PeerRuns

  /** Lengths at which a message must not be cut. */
  type Unsafe = nat -> bool

  /** The message is answered with its length and as text, whatever follows it. */
  ghost predicate Takes(framing: Framing, t: bytes) {
    && t != []
    && (forall buf: bytes, n: nat, read: nat, opcode: Opcode, data: FramingData
          {:trigger Answer(framing, buf, n, read, opcode, data)} ::
          |t| <= n <= |buf| && buf[..|t|] == t ==>
            Answer(framing, buf, n, read, opcode, data) == Framed(|t|, TEXT, data))
  }

  /** So is a message; a proper prefix in front of a NUL asks for more, or is dumped where the cut is unsafe. */
  ghost predicate Recognises(framing: Framing, t: bytes, unsafe: Unsafe) {
    && Takes(framing, t)
    && (forall buf: bytes, n: nat, read: nat, opcode: Opcode, data: FramingData
          {:trigger Answer(framing, buf, n, read, opcode, data)} ::
          n < |t| && n < |buf| && buf[..n] == t[..n] && buf[n] == 0 ==>
            Answer(framing, buf, n, read, opcode, data) == Framed(if unsafe(n) then n else 0, opcode, data))
  }

  ghost predicate TakesEach(framing: Framing, texts: seq<bytes>) {
    texts == [] || (Takes(framing, texts[0]) && TakesEach(framing, texts[1..]))
  }

  function AsText(texts: seq<bytes>): (frames: seq<Frame>)
    ensures |frames| == |texts|
  {
    if texts == [] then [] else [Frame(TEXT, texts[0])] + AsText(texts[1..])
  }

  lemma SameTail(t: bytes, a: bytes, b: bytes)
    requires t + a == t + b
    ensures a == b
  {
    assert (t + a)[|t|..] == a && (t + b)[|t|..] == b;
  }

  /** A round that finds a message sends it and moves the rest to the front. */
  lemma RoundTakes(e: Env, framing: Framing, fd: int, net: Net, s: Scan, t: bytes, rest: bytes)
    requires Takes(framing, t) && Holds(s) && Contents(s) == t + rest && s.off < |t|
    requires fd >= 0 && Reliable(e, net)
    ensures var p := Round(e, framing, fd, net, s);
            var u := LeftBy(p);
            && CutBy(p) == [Frame(TEXT, t)] && u.off == 0 && u.off + u.read <= |u.buf| && Contents(u) == rest
            && (p.Stop? <==> rest == []) && (p.Stop? ==> p.ended.how.Waits?) && (p.Again? ==> Reliable(e, p.net))
  {
    assert s.buf[..|t|] == Contents(s)[..|t|] == t;
    assert Answer(framing, s.buf, s.off + s.read, s.read, s.opcode, s.data) == Framed(|t|, TEXT, s.data);
    RoundSends(e, framing, fd, net, s);
    RoundCuts(e, framing, fd, net, s);
    SameTail(t, rest, Contents(LeftBy(Round(e, framing, fd, net, s))));
  }

  lemma {:induction false} LoopTakesAll(e: Env, framing: Framing, fd: int, net: Net, s: Scan, texts: seq<bytes>)
    requires NonNegative(framing) && TakesEach(framing, texts) && texts != []
    requires Holds(s) && Contents(s) == Concat(texts) && s.off < |texts[0]|
    requires fd >= 0 && Reliable(e, net)
    ensures var x := PeerLoop(e, framing, fd, net, s);
            x.how.Waits? && x.frames == AsText(texts) && x.scan.off + x.scan.read == 0
    decreases |texts|
  {
    RoundTakes(e, framing, fd, net, s, texts[0], Concat(texts[1..]));
    var p := Round(e, framing, fd, net, s);
    if p.Again? {
      RoundShrinks(e, framing, fd, net, s);
      LoopTakesAll(e, framing, fd, p.net, p.scan, texts[1..]);
    }
  }

  /** The buffer, with `total` bytes of data in it, after these texts have been cut off one by one. */
  function AfterCuts(buf: bytes, total: nat, texts: seq<bytes>): (r: bytes)
    requires |Concat(texts)| <= total <= |buf|
    ensures |r| == |buf|
    decreases |texts|
  {
    if texts == [] then buf else AfterCuts(Shift(buf, |texts[0]|, total), total - |texts[0]|, texts[1..])
  }

  /** Behind the data the buffer holds what it held before the last cut: the end of the last text and of the data. */
  lemma {:induction false} BehindCuts(buf: bytes, total: nat, texts: seq<bytes>, rest: bytes)
    requires total <= |buf| && texts != [] && buf[..total] == Concat(texts) + rest
    ensures |Concat(texts)| <= total
    ensures var last, r := texts[|texts| - 1], AfterCuts(buf, total, texts);
            |rest| + |last| <= |r| && r[..|rest|] == rest && r[|rest|..|rest| + |last|] == (last + rest)[|rest|..]
    decreases |texts|
  {
    var n := |texts[0]|;
    var moved := Shift(buf, n, total);
    FirstMoved(buf, total, texts[0], Concat(texts[1..]), rest);
    if |texts| > 1 {
      BehindCuts(moved, total - n, texts[1..], rest);
    }
  }

  lemma FirstMoved(buf: bytes, total: nat, t: bytes, more: bytes, rest: bytes)
    requires total <= |buf| && buf[..total] == (t + more) + rest
    ensures Shift(buf, |t|, total)[..total - |t|] == more + rest
    ensures more == [] ==> Shift(buf, |t|, total)[|rest|..|rest| + |t|] == (t + rest)[|rest|..]
  {
    var moved := Shift(buf, |t|, total);
    assert buf[|t|..total] == buf[..total][|t|..];
    if more == [] {
      assert t + [] == t;
      assert forall k :: |rest| <= k < |rest| + |t| ==> moved[k] == buf[k] == buf[..total][k];
    }
  }

  /** The loop up to a part of a message behind whole ones. */
  lemma {:induction false} LoopTakesThen(e: Env, framing: Framing, fd: int, net: Net, s: Scan, texts: seq<bytes>,
                                         rest: bytes)
    returns (t: Scan, m: Net)
    requires NonNegative(framing) && TakesEach(framing, texts) && texts != [] && rest != []
    requires Holds(s) && Contents(s) == Concat(texts) + rest && s.off < |texts[0]|
    requires fd >= 0 && Reliable(e, net)
    ensures |Concat(texts)| <= s.off + s.read
    ensures t == Scan(AfterCuts(s.buf, s.off + s.read, texts), 0, |rest|, TEXT, s.data) && Holds(t)
    ensures Contents(t) == rest
    ensures Reliable(e, m)
    ensures var x := PeerLoop(e, framing, fd, m, t);
            PeerLoop(e, framing, fd, net, s) == x.(frames := AsText(texts) + x.frames)
    decreases |texts|
  {
    var more := Concat(texts[1..]);
    Regroup(texts[0], more, rest);
    RoundTakes(e, framing, fd, net, s, texts[0], more + rest);
    RoundMoves(e, framing, fd, net, s, texts[0], more + rest);
    var p := Round(e, framing, fd, net, s);
    RoundShrinks(e, framing, fd, net, s);
    if |texts| > 1 {
      t, m := LoopTakesThen(e, framing, fd, p.net, p.scan, texts[1..], rest);
      Regroup([Frame(TEXT, texts[0])], AsText(texts[1..]), PeerLoop(e, framing, fd, m, t).frames);
    } else {
      t, m := p.scan, p.net;
      assert more + rest == rest;
      OneMessage(framing, texts[0]);
      assert texts == [texts[0]];
    }
  }

  /** Where the rest of the data is moved. */
  lemma RoundMoves(e: Env, framing: Framing, fd: int, net: Net, s: Scan, t: bytes, rest: bytes)
    requires Takes(framing, t) && Holds(s) && Contents(s) == t + rest && s.off < |t| && rest != []
    requires fd >= 0 && Reliable(e, net)
    ensures var p := Round(e, framing, fd, net, s);
            && p.Again? && |t| <= s.off + s.read
            && p.scan == Scan(Shift(s.buf, |t|, s.off + s.read), 0, |rest|, TEXT, s.data)
  {
    assert s.buf[..|t|] == Contents(s)[..|t|] == t;
    assert Answer(framing, s.buf, s.off + s.read, s.read, s.opcode, s.data) == Framed(|t|, TEXT, s.data);
    RoundSends(e, framing, fd, net, s);
  }

  /**
   A read that ends where a message ends: the rest of a message begun earlier and any
   further messages are sent as one text frame each, and nothing stays behind.
   */
  lemma MessagesInRead(e: Env, c: Conn, data: bytes, texts: seq<bytes>)
    requires Bridged(c) && FitsPeer(c, data) && Reliable(e, c.net)
    requires TakesEach(c.peer.framing.value, texts) && texts != []
    requires Residue(c) + data == Concat(texts) && c.peerOffset < |texts[0]|
    ensures var r := PeerData(e, c, Chunk(data));
            r.frames == AsText(texts) && Bridged(r.conn) && r.conn.peerOffset == 0
  {
    LoopTakesAll(e, c.peer.framing.value, c.wsFd, c.net, Loaded(c, data), texts);
    PeerDataKeeps(e, c, data);
  }

  /** A round that finds part of a message only. */
  lemma RoundWaits(e: Env, framing: Framing, unsafe: Unsafe, fd: int, net: Net, s: Scan, t: bytes)
    requires Recognises(framing, t, unsafe) && Holds(s) && Contents(s) < t && s.read > 0
    requires s.off + s.read < |s.buf| && s.buf[s.off + s.read] == 0
    requires fd >= 0 && Reliable(e, net)
    ensures var p := Round(e, framing, fd, net, s);
            && p.Stop? && p.ended.how.Waits?
            && if unsafe(s.off + s.read)
               then p.ended.frames == [Frame(s.opcode, Contents(s))] && p.ended.scan.off + p.ended.scan.read == 0
               else p.ended.frames == [] && p.ended.scan == s
  {
    var n := s.off + s.read;
    assert s.buf[..n] == t[..n];
    assert Answer(framing, s.buf, n, s.read, s.opcode, s.data) == Framed(if unsafe(n) then n else 0, s.opcode, s.data);
    RoundSends(e, framing, fd, net, s);
  }

  /**
   A read that ends inside the first message: nothing is sent, and everything stays behind,
   unless the cut is unsafe; then everything is dumped as binary.
   */
  lemma PartInRead(e: Env, c: Conn, data: bytes, t: bytes, unsafe: Unsafe)
    requires Bridged(c) && FitsPeer(c, data) && Reliable(e, c.net)
    requires Recognises(c.peer.framing.value, t, unsafe) && Residue(c) + data < t
    ensures var r, had := PeerData(e, c, Chunk(data)), Residue(c) + data;
            && Bridged(r.conn) && Reliable(e, r.conn.net) && r.conn.peer == c.peer
            && if unsafe(|had|) then r.frames == [Frame(BINARY, had)] && r.conn.peerOffset == 0
               else r.frames == [] && Residue(r.conn) == had
  {
    RoundWaits(e, c.peer.framing.value, unsafe, c.wsFd, c.net, Loaded(c, data), t);
    ReadConserves(e, c, data);
    PeerDataKeeps(e, c, data);
  }

  /** No read ends at an unsafe length. */
  predicate CutSafely(unsafe: Unsafe, had: nat, chunks: seq<bytes>)
    decreases |chunks|
  {
    chunks == [] || (!unsafe(had + |chunks[0]|) && CutSafely(unsafe, had + |chunks[0]|, chunks[1..]))
  }

  /** The connection waits for the rest of this message. */
  ghost predicate Awaits(e: Env, c: Conn, t: bytes, unsafe: Unsafe) {
    Bridged(c) && Recognises(c.peer.framing.value, t, unsafe) && Reliable(e, c.net) && Residue(c) < t
  }

  lemma OneMessage(framing: Framing, t: bytes)
    ensures Concat([t]) == t && AsText([t]) == [Frame(TEXT, t)]
    ensures Takes(framing, t) ==> TakesEach(framing, [t])
  {
    assert [t][0] == t && [t][1..] == [] && t + [] == t;
  }

  /** What a read leads to that brings a part of a message, or the end of one, so that `had` is there of it. */
  ghost predicate Brought(e: Env, t: bytes, unsafe: Unsafe, had: bytes, d: Conn, frames: seq<Frame>) {
    if |had| == |t| then frames == [Frame(TEXT, t)] && Bridged(d) && d.peerOffset == 0
    else if unsafe(|had|) then frames == [Frame(BINARY, had)]
    else frames == [] && Awaits(e, d, t, unsafe) && Residue(d) == had
  }

  lemma MessageRead(e: Env, c: Conn, data: bytes, t: bytes, unsafe: Unsafe, had: bytes)
    requires Awaits(e, c, t, unsafe) && FitsPeer(c, data) && had == Residue(c) + data && had <= t
    ensures var r := PeerData(e, c, Chunk(data)); Brought(e, t, unsafe, had, r.conn, r.frames)
  {
    if |had| == |t| {
      OneMessage(c.peer.framing.value, t);
      MessagesInRead(e, c, data, [t]);
    } else {
      PartInRead(e, c, data, t, unsafe);
    }
  }

  /** The first read of several that bring the rest of a message. */
  lemma FirstRead(e: Env, c: Conn, chunks: seq<bytes>, t: bytes, unsafe: Unsafe)
    returns (had: bytes, d: Conn, frames: seq<Frame>, rest: seq<bytes>)
    requires Awaits(e, c, t, unsafe) && PeerReadsFit(e, c, chunks) && Residue(c) + Concat(chunks) == t
    ensures chunks != [] && rest == chunks[1..] && |had| == c.peerOffset + |chunks[0]| && had <= t
    ensures had + Concat(rest) == t
    ensures Brought(e, t, unsafe, had, d, frames)
    ensures (d.state.Open? ==> Bridged(d)) && PeerReadsFit(e, d, rest)
    ensures PeerRun(e, c, chunks).frames == frames + PeerRun(e, d, rest).frames
    ensures PeerRun(e, c, chunks).conn == PeerRun(e, d, rest).conn
  {
    LongerThan(Residue(c), Concat(chunks), t);
    rest := chunks[1..];
    had := Residue(c) + chunks[0];
    RunStep(e, c, chunks);
    TwoParts(Residue(c), chunks[0], Concat(rest), t);
    d, frames := PeerData(e, c, Chunk(chunks[0])).conn, PeerData(e, c, Chunk(chunks[0])).frames;
    MessageRead(e, c, chunks[0], t, unsafe, had);
  }

  /**
   One message in any number of reads: the client is sent exactly it, as one text frame, if
   and only if no read ends at an unsafe length.
   */
  lemma {:induction false} MessageInReads(e: Env, c: Conn, chunks: seq<bytes>, t: bytes, unsafe: Unsafe)
    requires Awaits(e, c, t, unsafe) && PeerReadsFit(e, c, chunks) && !unsafe(|t|)
    requires Residue(c) + Concat(chunks) == t
    ensures var r := PeerRun(e, c, chunks);
            if CutSafely(unsafe, c.peerOffset, chunks)
            then r.frames == [Frame(TEXT, t)] && r.conn.state.Open? && r.conn.peerOffset == 0
            else r.frames != [Frame(TEXT, t)]
    decreases |chunks|
  {
    SafeStep(unsafe, c.peerOffset, chunks);
    var had, d, frames, rest := FirstRead(e, c, chunks, t, unsafe);
    if |had| == |t| {
      NothingToRead(e, d, rest);
      NoFrames([], frames);
    } else if !unsafe(|had|) {
      MessageInReads(e, d, rest, t, unsafe);
      NoFrames(PeerRun(e, d, rest).frames, []);
    } else {
      BinaryFirst(Frame(BINARY, had), PeerRun(e, d, rest).frames, Frame(TEXT, t));
    }
  }

  lemma SafeStep(unsafe: Unsafe, had: nat, chunks: seq<bytes>)
    ensures chunks != [] ==>
      (CutSafely(unsafe, had, chunks) <==>
         !unsafe(had + |chunks[0]|) && CutSafely(unsafe, had + |chunks[0]|, chunks[1..]))
    ensures forall n: nat :: CutSafely(unsafe, n, [])
  {
  }

  lemma BinaryFirst(a: Frame, more: seq<Frame>, b: Frame)
    requires a.opcode != b.opcode
    ensures [a] + more != [b]
  {
    assert ([a] + more)[0] == a;
  }

  lemma LongerThan(a: bytes, b: bytes, t: bytes)
    requires a + b == t && a < t
    ensures b != []
  {
  }

  lemma TwoParts(a: bytes, b: bytes, c: bytes, t: bytes)
    requires a + (b + c) == t
    ensures (a + b) + c == t && a + b <= t && (|a + b| == |t| <==> c == [])
  {
    Regroup(a, b, c);
  }

  lemma NothingToRead(e: Env, c: Conn, chunks: seq<bytes>)
    requires Bridged(c) && PeerReadsFit(e, c, chunks) && Concat(chunks) == []
    ensures chunks == []
  {
  }

  lemma NoFrames(a: seq<Frame>, b: seq<Frame>)
    ensures [] + a == a && b + [] == b
  {
  }
}
