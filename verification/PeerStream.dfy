/**
 From the peer to the client: the reassembly loop over the peer buffer, for an arbitrary
 framing function, and what it guarantees.

 The loop exists as single rounds, because only a framing function that never returns a
 negative length makes it end.
 */
module PeerStream {
  import opened Bytes
  import opened Cutting
  import opened Frames
  import opened Connection

  /** The loop state: `off` bytes from earlier reads and `read` new ones are in the buffer. */
  datatype Scan = Scan(buf: bytes, off: nat, read: nat, opcode: Opcode, data: FramingData)

  predicate Holds(s: Scan) {
    0 < s.off + s.read <= |s.buf|
  }

  function Contents(s: Scan): bytes
    requires s.off + s.read <= |s.buf|
  {
    s.buf[..s.off + s.read]
  }

  /** How a call leaves the loop: with a residue, on a framing result beyond the data, on a failed send. */
  datatype How = Waits | Overran | SendFailed

  /** The loop's end; `frames` are the segments sent or discarded, in order. */
  datatype Ended = Ended(scan: Scan, net: Net, frames: seq<Frame>, how: How)

  datatype Progress = Stop(ended: Ended) | Again(scan: Scan, net: Net, frames: seq<Frame>)

  /** The bytes from `from` on move to the front; behind them the buffer keeps what it held. */
  function Shift(buf: bytes, from: nat, total: nat): (r: bytes)
    requires from <= total <= |buf|
    ensures |r| == |buf|
    ensures r[..total - from] == buf[from..total]
  {
    buf[from..total] + buf[total - from..]
  }

  /** A segment of `n` bytes leaves the buffer. */
  function CutOff(s: Scan, n: nat): (t: Scan)
    requires 0 < n <= s.off + s.read <= |s.buf|
    ensures |t.buf| == |s.buf| && t.off + t.read == s.off + s.read - n
    ensures Contents(s) == s.buf[..n] + Contents(t)
  {
    s.(buf := Shift(s.buf, n, s.off + s.read),
       off := if n < s.off then s.off - n else 0,
       read := if n < s.off then s.read else s.off + s.read - n)
  }

  function Emit(e: Env, fd: int, net: Net, f: Frame): Sending {
    if f.opcode == DISCARD then Sending(net, false) else SendFrame(e, fd, net, f)
  }

  /**
   What a framing function's answer leads to.  A segment exactly as long as the old data ends
   the loop like no segment does.
   */
  function Settle(e: Env, fd: int, net: Net, s: Scan, r: Framed): (p: Progress)
    requires Holds(s)
    ensures p.Again? ==> Holds(p.scan) && |p.scan.buf| == |s.buf|
    ensures p.Again? ==> p.scan.off + p.scan.read <= s.off + s.read
  {
    var total := s.off + s.read;
    var t := s.(opcode := r.opcode, data := r.data);
    if r.length > total then Stop(Ended(t, net, [], Overran))
    else if r.length > 0 then
      var f := Frame(r.opcode, s.buf[..r.length]);
      var x := Emit(e, fd, net, f);
      if x.failed then Stop(Ended(t, x.net, [], SendFailed))
      else if r.length == s.off || r.length == total then Stop(Ended(CutOff(t, r.length), x.net, [f], Waits))
      else Again(CutOff(t, r.length), x.net, [f])
    else if r.length == 0 then Stop(Ended(t, net, [], Waits))
    else Again(t, net, [])
  }

  /** One round: the framing function is asked, and its answer acted on. */
  function Round(e: Env, framing: Framing, fd: int, net: Net, s: Scan): (p: Progress)
    requires Holds(s)
    ensures p.Again? ==> Holds(p.scan) && |p.scan.buf| == |s.buf|
    ensures p.Again? ==> p.scan.off + p.scan.read <= s.off + s.read
  {
    Settle(e, fd, net, s, framing(s.buf, s.off + s.read, s.read, s.opcode, s.data))
  }

  /** A framing function's answer, under a name that claims about all answers can be hung on. */
  function Answer(framing: Framing, buf: bytes, n: nat, read: nat, opcode: Opcode, data: FramingData): Framed {
    framing(buf, n, read, opcode, data)
  }

  ghost predicate NonNegative(framing: Framing) {
    forall buf, length, read, opcode, data ::
      framing(buf, length, read, opcode, data).length >= 0
  }

  /** The first `n` rounds. */
  function Rounds(e: Env, framing: Framing, fd: int, net: Net, s: Scan, n: nat): Progress
    requires Holds(s)
    decreases n
  {
    if n == 0 then Again(s, net, [])
    else
      match Round(e, framing, fd, net, s)
      case Stop(x) => Stop(x)
      case Again(t, m, frames) =>
        match Rounds(e, framing, fd, m, t, n - 1)
        case Stop(x) => Stop(x.(frames := frames + x.frames))
        case Again(u, k, more) => Again(u, k, frames + more)
  }

  /** The whole loop. */
  function PeerLoop(e: Env, framing: Framing, fd: int, net: Net, s: Scan): Ended
    requires Holds(s) && NonNegative(framing)
    decreases s.off + s.read
  {
    match Round(e, framing, fd, net, s)
    case Stop(x) => x
    case Again(t, m, frames) =>
      RoundShrinks(e, framing, fd, net, s);
      var x := PeerLoop(e, framing, fd, m, t);
      x.(frames := frames + x.frames)
  }

  /** Every round that cuts a segment off and goes on has less to do afterwards. */
  lemma RoundShrinks(e: Env, framing: Framing, fd: int, net: Net, s: Scan)
    requires Holds(s) && Round(e, framing, fd, net, s).Again?
    requires framing(s.buf, s.off + s.read, s.read, s.opcode, s.data).length >= 0
    ensures Round(e, framing, fd, net, s).scan.off + Round(e, framing, fd, net, s).scan.read < s.off + s.read
  {
  }

  /** The framing function answers with exactly the bytes from earlier reads. */
  predicate AnswersOld(framing: Framing, s: Scan) {
    0 < Answer(framing, s.buf, s.off + s.read, s.read, s.opcode, s.data).length == s.off
  }

  /** Such an answer ends the loop: the new bytes stay behind unexamined. */
  lemma OldOffsetEndsLoop(e: Env, framing: Framing, fd: int, net: Net, s: Scan)
    requires Holds(s) && fd >= 0 && Reliable(e, net) && AnswersOld(framing, s)
    ensures var p := Round(e, framing, fd, net, s);
            && p.Stop? && p.ended.how.Waits? && |p.ended.frames| == 1 && p.ended.frames[0].payload == s.buf[..s.off]
            && Contents(p.ended.scan) == s.buf[s.off..s.off + s.read]
  {
    var r := Answer(framing, s.buf, s.off + s.read, s.read, s.opcode, s.data);
    ReliableSends(e, fd, net, Frame(r.opcode, s.buf[..s.off]));
  }

  /** The loop comes to such an answer with new bytes in the buffer. */
  ghost predicate StopsEarly(e: Env, framing: Framing, fd: int, net: Net, s: Scan)
    requires Holds(s) && NonNegative(framing)
    decreases s.off + s.read
  {
    var p := Round(e, framing, fd, net, s);
    (AnswersOld(framing, s) && s.read > 0) ||
    (p.Again? && (RoundShrinks(e, framing, fd, net, s); StopsEarly(e, framing, fd, p.net, p.scan)))
  }

  lemma {:induction false} NothingOld(e: Env, framing: Framing, fd: int, net: Net, s: Scan)
    requires Holds(s) && NonNegative(framing) && s.off == 0
    ensures !StopsEarly(e, framing, fd, net, s)
    decreases s.off + s.read
  {
    var p := Round(e, framing, fd, net, s);
    if p.Again? {
      RoundShrinks(e, framing, fd, net, s);
      NothingOld(e, framing, fd, p.net, p.scan);
    }
  }

  /** An answer of nothing or of more than the old bytes keeps the loop from it. */
  lemma AnswersPastOld(e: Env, framing: Framing, fd: int, net: Net, s: Scan)
    requires Holds(s) && NonNegative(framing)
    requires var n := Answer(framing, s.buf, s.off + s.read, s.read, s.opcode, s.data).length; n == 0 || n > s.off
    ensures !StopsEarly(e, framing, fd, net, s)
  {
    var p := Round(e, framing, fd, net, s);
    if p.Again? {
      RoundShrinks(e, framing, fd, net, s);
      NothingOld(e, framing, fd, p.net, p.scan);
    }
  }

  /** Without negative results the loop ends, within as many rounds as there are bytes. */
  lemma {:induction false} LoopEnds(e: Env, framing: Framing, fd: int, net: Net, s: Scan, n: nat)
    requires Holds(s) && NonNegative(framing) && s.off + s.read <= n
    ensures Rounds(e, framing, fd, net, s, n) == Stop(PeerLoop(e, framing, fd, net, s))
    decreases n
  {
    var p := Round(e, framing, fd, net, s);
    if p.Again? {
      RoundShrinks(e, framing, fd, net, s);
      LoopEnds(e, framing, fd, p.net, p.scan, n - 1);
    }
    EndsBehind(e, framing, fd, net, s, n, p);
  }

  lemma {:induction false} EndsBehind(e: Env, framing: Framing, fd: int, net: Net, s: Scan, n: nat, p: Progress)
    requires Holds(s) && NonNegative(framing) && n > 0 && p == Round(e, framing, fd, net, s)
    requires p.Again? ==> Rounds(e, framing, fd, p.net, p.scan, n - 1) == Stop(PeerLoop(e, framing, fd, p.net, p.scan))
    ensures Rounds(e, framing, fd, net, s, n) == Stop(PeerLoop(e, framing, fd, net, s))
  {
  }

  /** With such data kept the framing function answers negatively on this buffer, and keeps such data. */
  ghost predicate Refuses(framing: Framing, kept: FramingData -> bool, buf: bytes, total: nat, read: nat) {
    forall opcode: Opcode, data: FramingData {:trigger Answer(framing, buf, total, read, opcode, data)} ::
      kept(data) ==>
        (var r := Answer(framing, buf, total, read, opcode, data); r.length < 0 && kept(r.data))
  }

  /** A persistent refusal keeps the loop going forever. */
  lemma {:induction false} RefusalNeverEnds(e: Env, framing: Framing, kept: FramingData -> bool, fd: int, net: Net,
                                            s: Scan, n: nat)
    requires Holds(s) && Refuses(framing, kept, s.buf, s.off + s.read, s.read) && kept(s.data)
    ensures Rounds(e, framing, fd, net, s, n).Again?
    decreases n
  {
    if n > 0 {
      var r := Answer(framing, s.buf, s.off + s.read, s.read, s.opcode, s.data);
      assert r.length < 0 && kept(r.data);
      var p := Round(e, framing, fd, net, s);
      RefusalNeverEnds(e, framing, kept, fd, p.net, p.scan, n - 1);
    }
  }

  /** With such data kept the framing function never answers negatively, and keeps such data. */
  ghost predicate Serves(framing: Framing, kept: FramingData -> bool) {
    forall buf: bytes, total: nat, read: nat, opcode: Opcode, data: FramingData
      {:trigger Answer(framing, buf, total, read, opcode, data)} ::
      kept(data) ==>
        (var r := Answer(framing, buf, total, read, opcode, data); r.length >= 0 && kept(r.data))
  }

  /** Then the loop ends, within as many rounds as there are bytes. */
  lemma {:induction false} ServiceEnds(e: Env, framing: Framing, kept: FramingData -> bool, fd: int, net: Net,
                                       s: Scan, n: nat)
    requires Holds(s) && Serves(framing, kept) && kept(s.data) && s.off + s.read <= n
    ensures Rounds(e, framing, fd, net, s, n).Stop?
    decreases n
  {
    var r := Answer(framing, s.buf, s.off + s.read, s.read, s.opcode, s.data);
    assert r.length >= 0 && kept(r.data);
    var p := Round(e, framing, fd, net, s);
    if p.Again? {
      RoundShrinks(e, framing, fd, net, s);
      ServiceEnds(e, framing, kept, fd, p.net, p.scan, n - 1);
    }
    StopsBehind(e, framing, fd, net, s, n, p);
  }

  lemma {:induction false} StopsBehind(e: Env, framing: Framing, fd: int, net: Net, s: Scan, n: nat, p: Progress)
    requires Holds(s) && n > 0 && p == Round(e, framing, fd, net, s)
    requires p.Again? ==> Rounds(e, framing, fd, p.net, p.scan, n - 1).Stop?
    ensures Rounds(e, framing, fd, net, s, n).Stop?
  {
  }

  /** Segment texts, in order. */
  function Spoken(frames: seq<Frame>): bytes {
    if frames == [] then [] else frames[0].payload + Spoken(frames[1..])
  }

  lemma {:induction false} SpokenAppend(a: seq<Frame>, b: seq<Frame>)
    ensures Spoken(a + b) == Spoken(a) + Spoken(b)
  {
    if a == [] {
      assert a + b == b;
    } else {
      assert (a + b)[1..] == a[1..] + b;
      SpokenAppend(a[1..], b);
    }
  }

  lemma SpokenOne(f: Frame, rest: seq<Frame>)
    ensures Spoken([f] + rest) == f.payload + Spoken(rest)
    ensures Spoken([f]) == f.payload
  {
    assert ([f] + rest)[1..] == rest && [f][1..] == [];
  }

  predicate Fine(s: Scan, x: Ended) {
    |x.scan.buf| == |s.buf| && x.scan.off + x.scan.read <= s.off + s.read
  }

  /**
   Conservation: whatever the framing function answers and however the loop ends, the
   segments sent or discarded, followed by what the loop still held, are the bytes that
   were in the buffer.
   */
  lemma {:induction false} LoopConserves(e: Env, framing: Framing, fd: int, net: Net, s: Scan)
    requires Holds(s) && NonNegative(framing)
    ensures Fine(s, PeerLoop(e, framing, fd, net, s))
    ensures var x := PeerLoop(e, framing, fd, net, s);
            Spoken(x.frames) + Contents(x.scan) == Contents(s)
    decreases s.off + s.read
  {
    var p := Round(e, framing, fd, net, s);
    RoundConserves(e, framing, fd, net, s);
    if p.Again? {
      RoundShrinks(e, framing, fd, net, s);
      LoopConserves(e, framing, fd, p.net, p.scan);
      var x := PeerLoop(e, framing, fd, p.net, p.scan);
      SpokenAppend(p.frames, x.frames);
      Regroup(Spoken(p.frames), Spoken(x.frames), Contents(x.scan));
    }
  }

  function LeftBy(p: Progress): Scan {
    if p.Again? then p.scan else p.ended.scan
  }

  function CutBy(p: Progress): seq<Frame> {
    if p.Again? then p.frames else p.ended.frames
  }

  /** The segment that an answer asks for, if it is cut off, and where the loop goes on. */
  lemma SettledCut(e: Env, fd: int, net: Net, s: Scan, r: Framed)
    requires Holds(s) && r.length >= 0
    ensures var p := Settle(e, fd, net, s, r);
            && (CutBy(p) == [] || (0 < r.length <= s.off + s.read && CutBy(p) == [Frame(r.opcode, s.buf[..r.length])]))
            && (p.Again? ==> CutBy(p) != [] && p.scan.opcode == r.opcode && p.scan.data == r.data)
  {
  }

  /** The first segment of the loop, if there is one, is the one first answered. */
  lemma FirstIsAnswer(e: Env, framing: Framing, fd: int, net: Net, s: Scan, r: Framed)
    requires Holds(s) && NonNegative(framing) && r == Answer(framing, s.buf, s.off + s.read, s.read, s.opcode, s.data)
    ensures var frames := PeerLoop(e, framing, fd, net, s).frames;
            frames == [] || (0 < r.length <= s.off + s.read && frames[0] == Frame(r.opcode, s.buf[..r.length]))
  {
    SettledCut(e, fd, net, s, r);
    var p := Round(e, framing, fd, net, s);
    if p.Again? {
      RoundShrinks(e, framing, fd, net, s);
    }
  }

  /** A round cuts off one segment or none. */
  lemma RoundCuts(e: Env, framing: Framing, fd: int, net: Net, s: Scan)
    requires Holds(s)
    ensures var t, frames := LeftBy(Round(e, framing, fd, net, s)), CutBy(Round(e, framing, fd, net, s));
            && |t.buf| == |s.buf| && t.off + t.read <= s.off + s.read
            && (|| (frames == [] && Contents(t) == Contents(s))
                || (|frames| == 1 && frames[0].payload + Contents(t) == Contents(s)))
  {
  }

  lemma RoundConserves(e: Env, framing: Framing, fd: int, net: Net, s: Scan)
    requires Holds(s)
    ensures match Round(e, framing, fd, net, s)
            case Stop(x) => Fine(s, x) && Spoken(x.frames) + Contents(x.scan) == Contents(s)
            case Again(t, _, frames) => Spoken(frames) + Contents(t) == Contents(s)
  {
    var p := Round(e, framing, fd, net, s);
    RoundCuts(e, framing, fd, net, s);
    if CutBy(p) == [] {
      assert Spoken([]) + Contents(s) == Contents(s);
    } else {
      SpokenOne(CutBy(p)[0], []);
    }
  }

  /** The segments that are sent. */
  function Sent(frames: seq<Frame>): seq<Frame> {
    if frames == [] then []
    else (if frames[0].opcode == DISCARD then [] else [frames[0]]) + Sent(frames[1..])
  }

  lemma SentOne(f: Frame, rest: seq<Frame>)
    ensures Sent([f] + rest) == (if f.opcode == DISCARD then [] else [f]) + Sent(rest)
    ensures Sent([f]) == if f.opcode == DISCARD then [] else [f]
  {
    assert ([f] + rest)[1..] == rest && [f][1..] == [];
  }

  /** While sends succeed the client's wire grows by the frames that were not discarded. */
  lemma {:induction false} LoopSends(e: Env, framing: Framing, fd: int, net: Net, s: Scan)
    requires Holds(s) && NonNegative(framing) && fd >= 0 && Reliable(e, net)
    ensures var x := PeerLoop(e, framing, fd, net, s);
            && !x.how.SendFailed? && Reliable(e, x.net)
            && x.net.client == net.client + Wire(Sent(x.frames)) && x.net.peer == net.peer
    decreases s.off + s.read
  {
    var p := Round(e, framing, fd, net, s);
    RoundSends(e, framing, fd, net, s);
    if p.Again? {
      RoundShrinks(e, framing, fd, net, s);
      LoopSends(e, framing, fd, p.net, p.scan);
      var x := PeerLoop(e, framing, fd, p.net, p.scan);
      SentOne(p.frames[0], x.frames);
      SentOne(p.frames[0], []);
      PrintAppend(ServerFrame, Sent(p.frames), Sent(x.frames));
      Regroup(net.client, Wire(Sent(p.frames)), Wire(Sent(x.frames)));
    }
  }

  lemma RoundSends(e: Env, framing: Framing, fd: int, net: Net, s: Scan)
    requires Holds(s) && fd >= 0 && Reliable(e, net)
    requires framing(s.buf, s.off + s.read, s.read, s.opcode, s.data).length >= 0
    ensures match Round(e, framing, fd, net, s)
            case Stop(x) => !x.how.SendFailed? && Reliable(e, x.net)
                            && x.net.client == net.client + Wire(Sent(x.frames)) && x.net.peer == net.peer
            case Again(_, m, frames) => |frames| == 1 && Reliable(e, m)
                                        && m.client == net.client + Wire(Sent(frames)) && m.peer == net.peer
  {
    var r := framing(s.buf, s.off + s.read, s.read, s.opcode, s.data);
    if 0 < r.length <= s.off + s.read {
      var f := Frame(r.opcode, s.buf[..r.length]);
      SentOne(f, []);
      WireOne(f);
      ReliableSends(e, fd, net, f);
      SendFrameText(e, fd, net, f);
      SendFrameGrows(e, fd, net, f);
    }
    assert Wire([]) == [] && net.client + [] == net.client;
  }
}
