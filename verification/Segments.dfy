/**
 When the reassembly loop computes a fixed split of the peer's stream.

 A splitter tells where the first segment of a stream ends.  A framing function that
 answers like a splitter makes the bridge cut the peer's stream exactly as the splitter
 does in one pass, however the stream arrives.
 */
module Segments {
  import opened Bytes
  import opened Cutting
  import opened Frames
  import opened Connection
  import opened PeerStream
  import opened PeerRuns

  /** The length of the first segment, or 0 while it is incomplete. */
  type Splitter = bytes -> nat

  /** A segment shows as soon as it is complete and not before, whatever follows. */
  ghost predicate Splits(split: Splitter) {
    && (forall s :: split(s) <= |s|)
    && (forall s, t {:trigger split(s + t)} :: split(s) == if split(s + t) <= |s| then split(s + t) else 0)
  }

  /** The splitter as a cutter of segments. */
  function Segmenting(split: Splitter): Cutter<bytes, ()> {
    (s: bytes) =>
      var n := split(s);
      if 0 < n <= |s| then Take(s[..n], n) else Wait
  }

  lemma SegmentingStable(split: Splitter)
    requires Splits(split)
    ensures Stable(Segmenting(split))
  {
    var f := Segmenting(split);
    forall s, t | !f(s).Wait? ensures f(s + t) == f(s) {
      assert split(s) == if split(s + t) <= |s| then split(s + t) else 0;
      SliceOfPrefix(s, t, 0, split(s));
    }
  }

  /** What the framing function keeps between calls is as it should be. */
  type Valid = FramingData -> bool

  /** With these old and new bytes in the buffer the framing function answers like the splitter. */
  ghost predicate Agrees(framing: Framing, split: Splitter, valid: Valid, had: bytes, new_: bytes) {
    forall buf, opcode, data {:trigger framing(buf, |had| + |new_|, |new_|, opcode, data)} ::
      |buf| == BUFFER_SIZE && |had| + |new_| <= LIMIT && buf[..|had| + |new_|] == had + new_ && valid(data)
      ==> (var r := framing(buf, |had| + |new_|, |new_|, opcode, data);
           r.length == split(had + new_) && valid(r.data))
  }

  lemma AgreesIf(framing: Framing, split: Splitter, valid: Valid, had: bytes, new_: bytes, all: bytes)
    requires all == had + new_
    requires forall buf, opcode, data {:trigger framing(buf, |all|, |new_|, opcode, data)} ::
               |buf| == BUFFER_SIZE && |all| <= LIMIT && buf[..|all|] == all && valid(data)
               ==> (var r := framing(buf, |all|, |new_|, opcode, data); r.length == split(all) && valid(r.data))
    ensures Agrees(framing, split, valid, had, new_)
  {
  }

  /** It does so for every call made while one read is dealt with: after a cut all bytes are new. */
  ghost predicate Faithful(framing: Framing, split: Splitter, valid: Valid, had: bytes, new_: bytes)
    decreases |had| + |new_|
  {
    var all := had + new_;
    var n := split(all);
    Agrees(framing, split, valid, had, new_) &&
    (0 < n < |all| ==> Faithful(framing, split, valid, [], all[n..]))
  }

  function Texts(frames: seq<Frame>): (texts: seq<bytes>)
    ensures |texts| == |frames|
  {
    if frames == [] then [] else [frames[0].payload] + Texts(frames[1..])
  }

  lemma {:induction false} TextsAppend(a: seq<Frame>, b: seq<Frame>)
    ensures Texts(a + b) == Texts(a) + Texts(b)
  {
    if a == [] {
      assert a + b == b;
    } else {
      assert (a + b)[1..] == a[1..] + b;
      TextsAppend(a[1..], b);
    }
  }

  /** The loop ended with these segments cut off and this residue. */
  ghost predicate CutAs(x: Ended, valid: Valid, cuts: Cuts<bytes, ()>) {
    && x.how.Waits? && x.scan.off + x.scan.read <= |x.scan.buf| && valid(x.scan.data)
    && Texts(x.frames) == cuts.items && cuts.end == Rest(Contents(x.scan))
  }

  /** The buffer holds `had` from earlier reads, in which no segment is complete, and `new_`. */
  ghost predicate Buffered(s: Scan, split: Splitter, valid: Valid, had: bytes, new_: bytes) {
    && Holds(s) && |s.buf| == BUFFER_SIZE && s.off + s.read <= LIMIT && valid(s.data)
    && |had| == s.off && |new_| == s.read && Contents(s) == had + new_ && split(had) == 0
  }

  lemma AnswersLikeSplitter(framing: Framing, split: Splitter, valid: Valid, s: Scan, had: bytes, new_: bytes)
    requires Splits(split) && Buffered(s, split, valid, had, new_) && Agrees(framing, split, valid, had, new_)
    ensures var r, n := framing(s.buf, s.off + s.read, s.read, s.opcode, s.data), split(had + new_);
            r.length == n && valid(r.data) && (n == 0 || |had| < n <= |had + new_|)
  {
    var r := framing(s.buf, |had| + |new_|, |new_|, s.opcode, s.data);
    assert s.buf[..|had| + |new_|] == had + new_;
    assert split(had) == if split(had + new_) <= |had| then split(had + new_) else 0;
  }

  /** A round without a complete segment ends the loop. */
  lemma RoundKeeps(e: Env, framing: Framing, split: Splitter, valid: Valid,
                   fd: int, net: Net, s: Scan, had: bytes, new_: bytes)
    requires Splits(split) && Buffered(s, split, valid, had, new_) && Agrees(framing, split, valid, had, new_)
    requires split(had + new_) == 0
    ensures var p := Round(e, framing, fd, net, s);
            p.Stop? && CutAs(p.ended, valid, Cuts([], Rest(had + new_)))
  {
    AnswersLikeSplitter(framing, split, valid, s, had, new_);
  }

  /** A round cuts the first segment off whole. */
  lemma RoundSplits(e: Env, framing: Framing, split: Splitter, valid: Valid,
                    fd: int, net: Net, s: Scan, had: bytes, new_: bytes) returns (t: Scan, f: Frame)
    requires Splits(split) && Buffered(s, split, valid, had, new_) && Agrees(framing, split, valid, had, new_)
    requires fd >= 0 && Reliable(e, net) && split(had + new_) > 0
    ensures var all := had + new_;
            var n := split(all);
            && |t.buf| == BUFFER_SIZE && t.off == 0 && t.read == |all| - n && valid(t.data)
            && Contents(t) == all[n..] && f.payload == all[..n]
            && var p := Round(e, framing, fd, net, s);
            if n == |all| then p.Stop? && p.ended == Ended(t, p.ended.net, [f], Waits)
            else p.Again? && p == Again(t, p.net, [f]) && Reliable(e, p.net)
  {
    var r := framing(s.buf, s.off + s.read, s.read, s.opcode, s.data);
    AnswersLikeSplitter(framing, split, valid, s, had, new_);
    t, f := SettleCuts(e, fd, net, s, r, had + new_);
  }

  /** Acting on an answer that covers the old bytes and more. */
  lemma SettleCuts(e: Env, fd: int, net: Net, s: Scan, r: Framed, all: bytes) returns (t: Scan, f: Frame)
    requires Holds(s) && Contents(s) == all && s.off < r.length <= |all| && fd >= 0 && Reliable(e, net)
    ensures |t.buf| == |s.buf| && t.off == 0 && t.read == |all| - r.length && t.data == r.data
    ensures Contents(t) == all[r.length..] && f == Frame(r.opcode, all[..r.length])
    ensures var p := Settle(e, fd, net, s, r);
            if r.length == |all| then p.Stop? && p.ended == Ended(t, p.ended.net, [f], Waits)
            else p.Again? && p == Again(t, p.net, [f]) && Reliable(e, p.net)
  {
    var moved := s.(opcode := r.opcode, data := r.data);
    f := Frame(r.opcode, s.buf[..r.length]);
    t := CutOff(moved, r.length);
    FirstSegment(s, all, r.length, t, all[r.length..]);
    if f.opcode != DISCARD {
      ReliableSends(e, fd, net, f);
    }
  }

  lemma FirstSegment(s: Scan, all: bytes, n: nat, t: Scan, rest: bytes)
    requires Holds(s) && Contents(s) == all && s.off < n <= |all|
    requires t.buf == Shift(s.buf, n, s.off + s.read) && t.off == 0 && t.read == s.off + s.read - n
    requires rest == all[n..]
    ensures s.buf[..n] == all[..n] && Contents(t) == rest
  {
  }

  lemma CutStep(split: Splitter, all: bytes)
    requires Splits(split)
    ensures var n := split(all);
            CutAll(Segmenting(split), all)
            == if n == 0 then Cuts([], Rest(all)) else Prepend([all[..n]], CutAll(Segmenting(split), all[n..]))
  {
  }

  lemma NothingThenAll(split: Splitter, s: bytes)
    requires Splits(split)
    ensures split([]) == 0 && [] + s == s
    ensures CutAll(Segmenting(split), []) == Cuts([], Rest([]))
  {
    assert split([]) <= 0;
  }

  lemma TextsOne(f: Frame, rest: seq<Frame>)
    ensures Texts([f] + rest) == [f.payload] + Texts(rest)
    ensures Texts([f]) == [f.payload]
  {
    assert ([f] + rest)[1..] == rest && [f][1..] == [];
  }

  /**
   One read: if the framing function agrees with the splitter on what is in the buffer, the
   loop cuts it as the splitter does in one pass.
   */
  lemma {:induction false} LoopSplits(e: Env, framing: Framing, split: Splitter, valid: Valid,
                                      fd: int, net: Net, s: Scan, had: bytes, new_: bytes)
    requires Splits(split) && NonNegative(framing)
    requires Buffered(s, split, valid, had, new_) && Faithful(framing, split, valid, had, new_)
    requires fd >= 0 && Reliable(e, net)
    ensures CutAs(PeerLoop(e, framing, fd, net, s), valid, CutAll(Segmenting(split), had + new_))
    decreases s.off + s.read
  {
    var all := had + new_;
    var n := split(all);
    CutStep(split, all);
    if n == 0 {
      RoundKeeps(e, framing, split, valid, fd, net, s, had, new_);
    } else {
      var t, f := RoundSplits(e, framing, split, valid, fd, net, s, had, new_);
      var rest := all[n..];
      TextsOne(f, []);
      NothingThenAll(split, rest);
      if n < |all| {
        LoopSplits(e, framing, split, valid, fd, Round(e, framing, fd, net, s).net, t, [], rest);
        TextsOne(f, PeerLoop(e, framing, fd, Round(e, framing, fd, net, s).net, t).frames);
      }
    }
  }

  /** It never ends at the old bytes with new ones unexamined. */
  lemma SplitterExaminesAll(e: Env, framing: Framing, split: Splitter, valid: Valid,
                            fd: int, net: Net, s: Scan, had: bytes, new_: bytes)
    requires Splits(split) && NonNegative(framing)
    requires Buffered(s, split, valid, had, new_) && Agrees(framing, split, valid, had, new_)
    ensures !StopsEarly(e, framing, fd, net, s)
  {
    AnswersLikeSplitter(framing, split, valid, s, had, new_);
    AnswersPastOld(e, framing, fd, net, s);
  }

  /** An open connection whose framing function is a splitter's, with an incomplete segment buffered. */
  ghost predicate Segmented(c: Conn, split: Splitter, valid: Valid) {
    Bridged(c) && valid(c.framingData) && split(Residue(c)) == 0
  }

  /** The incomplete segment at the end of the stream. */
  function Left(split: Splitter, s: bytes): (r: bytes)
    decreases |s|
  {
    var n := split(s);
    if 0 < n <= |s| then Left(split, s[n..]) else s
  }

  lemma {:induction false} LeftIsRest(split: Splitter, s: bytes)
    requires Splits(split)
    ensures CutAll(Segmenting(split), s).end == Rest(Left(split, s))
    ensures split(Left(split, s)) == 0
    decreases |s|
  {
    CutStep(split, s);
    if split(s) > 0 {
      LeftIsRest(split, s[split(s)..]);
    }
  }

  /** Segments and what is left over make up the stream. */
  lemma {:induction false} SegmentsMakeStream(split: Splitter, s: bytes)
    requires Splits(split)
    ensures Concat(CutAll(Segmenting(split), s).items) + Left(split, s) == s
    decreases |s|
  {
    var n := split(s);
    CutStep(split, s);
    if n > 0 {
      var more := CutAll(Segmenting(split), s[n..]).items;
      SegmentsMakeStream(split, s[n..]);
      ConcatOne(s[..n], more);
      Regroup(s[..n], Concat(more), Left(split, s[n..]));
      SplitAt(s, n);
    }
  }

  /** Every item is one whole segment, no more and no less. */
  lemma {:induction false} ItemsAreSegments(split: Splitter, s: bytes)
    requires Splits(split)
    ensures forall t :: t in CutAll(Segmenting(split), s).items ==> t != [] && split(t) == |t|
    decreases |s|
  {
    var n := split(s);
    CutStep(split, s);
    if n > 0 {
      SplitAt(s, n);
      assert split(s[..n]) == if split(s[..n] + s[n..]) <= n then split(s[..n] + s[n..]) else 0;
      ItemsAreSegments(split, s[n..]);
    }
  }

  /** What is left over is a proper prefix of the next segment, once that is complete. */
  lemma LeftIsProperPrefix(split: Splitter, s: bytes, more: bytes)
    requires Splits(split) && split(Left(split, s) + more) > 0
    ensures |Left(split, s)| < split(Left(split, s) + more)
  {
    LeftIsRest(split, s);
  }

  /** Framing function and splitter agree at every read of the stream, given what each read finds buffered. */
  ghost predicate AgreesAlong(framing: Framing, split: Splitter, valid: Valid, had: bytes, chunks: seq<bytes>)
    decreases |chunks|
  {
    chunks == [] ||
    (Faithful(framing, split, valid, had, chunks[0]) &&
     AgreesAlong(framing, split, valid, Left(split, had + chunks[0]), chunks[1..]))
  }

  /** Agreement wherever a read ends, as long as the bytes in the buffer are acceptable. */
  ghost predicate AgreesWhere(framing: Framing, split: Splitter, valid: Valid, ok: bytes -> bool) {
    forall had, new_ {:trigger Agrees(framing, split, valid, had, new_)} ::
      new_ != [] && split(had) == 0 && ok(had + new_) ==> Agrees(framing, split, valid, had, new_)
  }

  ghost predicate PrefixClosed(ok: bytes -> bool) {
    forall s, t {:trigger ok(s + t)} :: ok(s + t) ==> ok(s)
  }

  /** The stream is acceptable from the start of every segment on. */
  predicate Heads(split: Splitter, ok: bytes -> bool, s: bytes)
    decreases |s|
  {
    ok(s) && (0 < split(s) <= |s| ==> Heads(split, ok, s[split(s)..]))
  }

  lemma {:induction false} AllIsAcceptable(split: Splitter, s: bytes)
    ensures Heads(split, _ => true, s)
    decreases |s|
  {
    if 0 < split(s) <= |s| {
      AllIsAcceptable(split, s[split(s)..]);
    }
  }

  lemma {:induction false} HeadsPrefix(split: Splitter, ok: bytes -> bool, a: bytes, b: bytes)
    requires Splits(split) && PrefixClosed(ok) && Heads(split, ok, a + b)
    ensures Heads(split, ok, a) && Heads(split, ok, Left(split, a) + b)
    decreases |a|
  {
    var n := split(a);
    assert n == if split(a + b) <= |a| then split(a + b) else 0;
    assert ok(a);
    if n > 0 {
      assert (a + b)[n..] == a[n..] + b;
      HeadsPrefix(split, ok, a[n..], b);
    }
  }

  lemma {:induction false} WhereIsFaithful(framing: Framing, split: Splitter, valid: Valid, ok: bytes -> bool,
                                           had: bytes, new_: bytes)
    requires Splits(split) && AgreesWhere(framing, split, valid, ok) && split(had) == 0 && new_ != []
    requires Heads(split, ok, had + new_)
    ensures Faithful(framing, split, valid, had, new_)
    decreases |had| + |new_|
  {
    assert Agrees(framing, split, valid, had, new_);
    var all := had + new_;
    var n := split(all);
    if 0 < n < |all| {
      NothingThenAll(split, all[n..]);
      WhereIsFaithful(framing, split, valid, ok, [], all[n..]);
    }
  }

  lemma ReadSplits(e: Env, c: Conn, data: bytes, split: Splitter, valid: Valid)
    requires Splits(split) && Segmented(c, split, valid) && FitsPeer(c, data) && Reliable(e, c.net)
    requires Faithful(c.peer.framing.value, split, valid, Residue(c), data)
    ensures var r := PeerData(e, c, Chunk(data));
            var cuts := CutAll(Segmenting(split), Residue(c) + data);
            && Segmented(r.conn, split, valid) && Reliable(e, r.conn.net) && r.conn.peer == c.peer
            && Texts(r.frames) == cuts.items && cuts.end == Rest(Residue(r.conn))
            && Residue(r.conn) == Left(split, Residue(c) + data)
  {
    var s := Loaded(c, data);
    assert Contents(s) == Residue(c) + data;
    LoopSplits(e, c.peer.framing.value, split, valid, c.wsFd, c.net, s, Residue(c), data);
    LoopSends(e, c.peer.framing.value, c.wsFd, c.net, s);
    PeerDataKeeps(e, c, data);
    LeftIsRest(split, Residue(c) + data);
  }

  /**
   Segmentation: over a whole run of reads, however they cut the stream, the segments the
   client is sent are the one-pass split of the peer's stream, and what stays in the buffer
   is its last, incomplete segment.
   */
  lemma {:induction false} RunSplits(e: Env, c: Conn, chunks: seq<bytes>, split: Splitter, valid: Valid)
    requires Splits(split) && Segmented(c, split, valid) && PeerReadsFit(e, c, chunks) && Reliable(e, c.net)
    requires AgreesAlong(c.peer.framing.value, split, valid, Residue(c), chunks)
    ensures var r := PeerRun(e, c, chunks);
            && Segmented(r.conn, split, valid)
            && CutAll(Segmenting(split), Residue(c) + Concat(chunks)) == Cuts(Texts(r.frames), Rest(Residue(r.conn)))
    decreases |chunks|
  {
    SegmentingStable(split);
    if chunks == [] {
      assert Residue(c) + [] == Residue(c);
      CutStep(split, Residue(c));
    } else {
      var first := PeerData(e, c, Chunk(chunks[0]));
      PeerDataKeeps(e, c, chunks[0]);
      ReadSplits(e, c, chunks[0], split, valid);
      RunSplits(e, first.conn, chunks[1..], split, valid);
      Regroup(Residue(c), chunks[0], Concat(chunks[1..]));
      CutAppend(Segmenting(split), Residue(c) + chunks[0], Concat(chunks[1..]));
      TextsAppend(first.frames, PeerRun(e, first.conn, chunks[1..]).frames);
    }
  }

  lemma {:induction false} ItemsAreAcceptable(split: Splitter, ok: bytes -> bool, s: bytes)
    requires Splits(split) && PrefixClosed(ok) && Heads(split, ok, s)
    ensures forall t :: t in CutAll(Segmenting(split), s).items ==> ok(t)
    decreases |s|
  {
    var n := split(s);
    CutStep(split, s);
    if n > 0 {
      SplitAt(s, n);
      assert ok(s[..n] + s[n..]) ==> ok(s[..n]);
      ItemsAreAcceptable(split, ok, s[n..]);
    }
  }

  lemma LeftIsAcceptable(split: Splitter, ok: bytes -> bool, s: bytes)
    requires Splits(split) && PrefixClosed(ok) && Heads(split, ok, s)
    ensures ok(Left(split, s))
  {
    assert s + [] == s;
    HeadsPrefix(split, ok, s, []);
  }

  /** On an acceptable stream there is agreement at every read, however the stream is cut. */
  lemma {:induction false} WhereIsAlong(e: Env, c: Conn, chunks: seq<bytes>, split: Splitter, valid: Valid,
                                        ok: bytes -> bool)
    requires Splits(split) && Segmented(c, split, valid) && PeerReadsFit(e, c, chunks) && Reliable(e, c.net)
    requires PrefixClosed(ok) && AgreesWhere(c.peer.framing.value, split, valid, ok)
    requires Heads(split, ok, Residue(c) + Concat(chunks))
    ensures AgreesAlong(c.peer.framing.value, split, valid, Residue(c), chunks)
    decreases |chunks|
  {
    if chunks != [] {
      Regroup(Residue(c), chunks[0], Concat(chunks[1..]));
      HeadsPrefix(split, ok, Residue(c) + chunks[0], Concat(chunks[1..]));
      WhereIsFaithful(c.peer.framing.value, split, valid, ok, Residue(c), chunks[0]);
      PeerDataKeeps(e, c, chunks[0]);
      ReadSplits(e, c, chunks[0], split, valid);
      WhereIsAlong(e, PeerData(e, c, Chunk(chunks[0])).conn, chunks[1..], split, valid, ok);
    }
  }

  /** The outcome of a run whose framing function is a splitter's. */
  ghost predicate SplitRun(stream: bytes, r: PeerResult, split: Splitter, valid: Valid) {
    && Segmented(r.conn, split, valid)
    && Texts(r.frames) == CutAll(Segmenting(split), stream).items
    && Residue(r.conn) == Left(split, stream)
    && Concat(Texts(r.frames)) + Residue(r.conn) == stream
  }

  /** Segmentation on an acceptable stream, under every cutting into reads. */
  lemma SegmentedRun(e: Env, c: Conn, chunks: seq<bytes>, split: Splitter, valid: Valid, ok: bytes -> bool)
    requires Splits(split) && Segmented(c, split, valid) && PeerReadsFit(e, c, chunks) && Reliable(e, c.net)
    requires PrefixClosed(ok) && AgreesWhere(c.peer.framing.value, split, valid, ok)
    requires Heads(split, ok, Residue(c) + Concat(chunks))
    ensures SplitRun(Residue(c) + Concat(chunks), PeerRun(e, c, chunks), split, valid)
  {
    WhereIsAlong(e, c, chunks, split, valid, ok);
    RunSplits(e, c, chunks, split, valid);
    LeftIsRest(split, Residue(c) + Concat(chunks));
    SegmentsMakeStream(split, Residue(c) + Concat(chunks));
  }

  /** The frame type is what it was. */
  ghost predicate KeepsOpcode(framing: Framing) {
    forall buf, length, read, opcode, data :: framing(buf, length, read, opcode, data).opcode == opcode
  }

  predicate AllOf(frames: seq<Frame>, opcode: Opcode) {
    forall f :: f in frames ==> f.opcode == opcode
  }

  lemma {:induction false} LoopKeepsOpcode(e: Env, framing: Framing, fd: int, net: Net, s: Scan)
    requires Holds(s) && NonNegative(framing) && KeepsOpcode(framing)
    ensures AllOf(PeerLoop(e, framing, fd, net, s).frames, s.opcode)
    decreases s.off + s.read
  {
    var p := Round(e, framing, fd, net, s);
    if p.Again? {
      RoundShrinks(e, framing, fd, net, s);
      LoopKeepsOpcode(e, framing, fd, p.net, p.scan);
    }
  }

  /** A framing function that leaves the frame type alone sends binary frames only. */
  lemma {:induction false} RunIsBinary(e: Env, c: Conn, chunks: seq<bytes>)
    requires Bridged(c) && PeerReadsFit(e, c, chunks) && KeepsOpcode(c.peer.framing.value)
    ensures AllOf(PeerRun(e, c, chunks).frames, BINARY)
    decreases |chunks|
  {
    if chunks != [] {
      LoopKeepsOpcode(e, c.peer.framing.value, c.wsFd, c.net, Loaded(c, chunks[0]));
      PeerDataKeeps(e, c, chunks[0]);
      var d := PeerData(e, c, Chunk(chunks[0])).conn;
      if d.state.Open? {
        RunIsBinary(e, d, chunks[1..]);
      }
    }
  }
}
