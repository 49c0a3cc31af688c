/**
 What a failed send towards the client costs.  The reassembly loop stops at it, and the
 newest bytes are forgotten; the connection stays open behind a partial frame.
 */
module Losses {
  import opened Bytes
  import opened Cutting
  import opened Frames
  import opened Connection
  import opened PeerStream
  import opened PeerRuns

  /** The same world with sends that all go through. */
  function Faultless(e: Env): Env {
    e.(luck := (call: nat) => Sends)
  }

  /** The sends of this frame go through: the header at this call, the payload at the next. */
  predicate Goes(e: Env, fd: int, calls: nat, f: Frame) {
    f.opcode == DISCARD ||
    (var header := ServerHeader(f.opcode, |f.payload|);
     Passed(e, fd, calls, header) == |header| && Passed(e, fd, calls + 1, f.payload) == |f.payload|)
  }

  function CallsAfter(calls: nat, f: Frame): nat {
    if f.opcode == DISCARD then calls else calls + 2
  }

  /** The frames up to the first one whose send breaks off. */
  function Delivered(e: Env, fd: int, calls: nat, frames: seq<Frame>): (r: seq<Frame>)
    ensures r <= frames
    decreases |frames|
  {
    if frames == [] || !Goes(e, fd, calls, frames[0]) then []
    else [frames[0]] + Delivered(e, fd, CallsAfter(calls, frames[0]), frames[1..])
  }

  /** What of a frame whose send breaks off gets out: a part of the header, or it and a part of the payload. */
  function Broken(e: Env, fd: int, calls: nat, f: Frame): bytes {
    var header := ServerHeader(f.opcode, |f.payload|);
    var n := Passed(e, fd, calls, header);
    if n < |header| then header[..n] else header + f.payload[..Passed(e, fd, calls + 1, f.payload)]
  }

  lemma BrokenIsPart(e: Env, fd: int, calls: nat, f: Frame)
    requires !Goes(e, fd, calls, f)
    ensures Broken(e, fd, calls, f) < ServerFrame(f)
  {
  }

  lemma SendGoes(e: Env, fd: int, net: Net, f: Frame)
    ensures var x := Emit(e, fd, net, f);
            && (x.failed <==> !Goes(e, fd, net.calls, f))
            && (x.failed ==> x.net.client == net.client + Broken(e, fd, net.calls, f))
            && (!x.failed ==> x == Sending(Net(net.client + Wire(Sent([f])), net.peer, CallsAfter(net.calls, f)), false))
  {
    SentOne(f, []);
    if f.opcode == DISCARD {
      assert Wire([]) == [] && net.client + [] == net.client;
    } else {
      WireOne(f);
      var header := ServerHeader(f.opcode, |f.payload|);
      var n := Passed(e, fd, net.calls, header);
      if n == |header| {
        assert header[..n] == header;
        Regroup(net.client, header, f.payload[..Passed(e, fd, net.calls + 1, f.payload)]);
        if Goes(e, fd, net.calls, f) {
          assert f.payload[..|f.payload|] == f.payload;
        }
      }
    }
  }

  lemma EmitAgainst(e: Env, fd: int, net: Net, f: Frame)
    requires fd >= 0
    ensures !Emit(Faultless(e), fd, net, f).failed
    ensures var x := Emit(e, fd, net, f);
            if Goes(e, fd, net.calls, f)
            then x == Emit(Faultless(e), fd, net, f)
                 && x == Sending(Net(net.client + Wire(Sent([f])), net.peer, CallsAfter(net.calls, f)), false)
            else x.failed && x.net.client == net.client + Broken(e, fd, net.calls, f)
  {
    SendGoes(e, fd, net, f);
    assert Goes(Faultless(e), fd, net.calls, f);
    SendGoes(Faultless(e), fd, net, f);
  }

  /** A round that asks for this segment, against the same round without failures. */
  ghost predicate CutAgainst(e: Env, fd: int, net: Net, s: Scan, f: Frame, p: Progress, q: Progress) {
    if Goes(e, fd, net.calls, f)
    then p == q && NetBy(p) == Net(net.client + Wire(Sent([f])), net.peer, CallsAfter(net.calls, f))
    else p.Stop? && p.ended.how.SendFailed? && p.ended.frames == []
         && p.ended.scan.buf == s.buf && p.ended.scan.off == s.off && p.ended.scan.read == s.read
         && p.ended.net.client == net.client + Broken(e, fd, net.calls, f)
  }

  /** A round whose framing function answers `length`, against the same round without failures. */
  ghost predicate RoundFallen(e: Env, fd: int, net: Net, s: Scan, length: int, p: Progress, q: Progress) {
    && |CutBy(q)| <= 1 && (q.Stop? ==> !q.ended.how.SendFailed?) && (q.Again? && length >= 0 ==> |CutBy(q)| == 1)
    && if CutBy(q) == [] then p == q && NetBy(p) == net else CutAgainst(e, fd, net, s, CutBy(q)[0], p, q)
  }

  lemma SettleAgainst(e: Env, fd: int, net: Net, s: Scan, r: Framed)
    requires Holds(s) && fd >= 0
    ensures RoundFallen(e, fd, net, s, r.length, Settle(e, fd, net, s, r), Settle(Faultless(e), fd, net, s, r))
  {
    if 0 < r.length <= s.off + s.read {
      EmitAgainst(e, fd, net, Frame(r.opcode, s.buf[..r.length]));
    }
  }

  lemma RoundAgainst(e: Env, framing: Framing, fd: int, net: Net, s: Scan)
    requires Holds(s) && fd >= 0
    ensures RoundFallen(e, fd, net, s, Answer(framing, s.buf, s.off + s.read, s.read, s.opcode, s.data).length,
                        Round(e, framing, fd, net, s), Round(Faultless(e), framing, fd, net, s))
  {
    var r := Answer(framing, s.buf, s.off + s.read, s.read, s.opcode, s.data);
    RoundIsSettle(e, framing, fd, net, s, r);
    RoundIsSettle(Faultless(e), framing, fd, net, s, r);
    SettleAgainst(e, fd, net, s, r);
  }

  lemma RoundIsSettle(e: Env, framing: Framing, fd: int, net: Net, s: Scan, r: Framed)
    requires Holds(s) && r == Answer(framing, s.buf, s.off + s.read, s.read, s.opcode, s.data)
    ensures Round(e, framing, fd, net, s) == Settle(e, fd, net, s, r)
  {
  }

  function NetBy(p: Progress): Net {
    if p.Stop? then p.ended.net else p.net
  }

  function CallsBehind(calls: nat, frames: seq<Frame>): nat
    decreases |frames|
  {
    if frames == [] then calls else CallsBehind(CallsAfter(calls, frames[0]), frames[1..])
  }

  /** What the client's log grows by when of these frames only so many are sent whole. */
  function Written(e: Env, fd: int, calls: nat, frames: seq<Frame>, done: nat): bytes
    requires done <= |frames|
  {
    Wire(Sent(frames[..done])) +
    if done == |frames| then [] else Broken(e, fd, CallsBehind(calls, frames[..done]), frames[done])
  }

  lemma WrittenStep(e: Env, fd: int, calls: nat, f: Frame, rest: seq<Frame>, done: nat)
    requires done <= |rest|
    ensures Written(e, fd, calls, [f] + rest, done + 1) == Wire(Sent([f])) + Written(e, fd, CallsAfter(calls, f), rest, done)
  {
    var frames, some := [f] + rest, rest[..done];
    HeadAndRest(f, rest, done);
    SentOne(f, some);
    SentOne(f, []);
    PrintAppend(ServerFrame, Sent([f]), Sent(some));
    if done == |rest| {
      Regroup(Wire(Sent([f])), Wire(Sent(some)), []);
    } else {
      Regroup(Wire(Sent([f])), Wire(Sent(some)), Broken(e, fd, CallsBehind(CallsAfter(calls, f), some), rest[done]));
    }
  }

  lemma HeadAndRest(f: Frame, rest: seq<Frame>, done: nat)
    requires done <= |rest|
    ensures ([f] + rest)[..done + 1] == [f] + rest[..done] && ([f] + rest[..done])[1..] == rest[..done]
    ensures done < |rest| ==> ([f] + rest)[done + 1] == rest[done]
  {
  }

  /** The loop against the loop without failures. */
  ghost predicate Falls(e: Env, fd: int, net: Net, x: Ended, y: Ended) {
    && !y.how.SendFailed?
    && x.frames == Delivered(e, fd, net.calls, y.frames)
    && (x.how.SendFailed? <==> |x.frames| < |y.frames|)
    && (!x.how.SendFailed? ==> x == y)
    && x.net.client == net.client + Written(e, fd, net.calls, y.frames, |x.frames|)
    && (!x.how.SendFailed? ==> x.net.calls == CallsBehind(net.calls, x.frames))
  }

  /**
   The loop sends the segments it would send without failures up to the first one whose
   send breaks off, and what gets out of that one; it fails exactly if there is such a one.
   */
  lemma {:induction false} LoopFalls(e: Env, framing: Framing, fd: int, net: Net, s: Scan)
    requires Holds(s) && NonNegative(framing) && fd >= 0
    ensures Falls(e, fd, net, PeerLoop(e, framing, fd, net, s), PeerLoop(Faultless(e), framing, fd, net, s))
    decreases s.off + s.read
  {
    var p, q := Round(e, framing, fd, net, s), Round(Faultless(e), framing, fd, net, s);
    RoundAgainst(e, framing, fd, net, s);
    assert Answer(framing, s.buf, s.off + s.read, s.read, s.opcode, s.data).length >= 0;
    if q.Again? {
      RoundShrinks(Faultless(e), framing, fd, net, s);
      var y := PeerLoop(Faultless(e), framing, fd, q.net, q.scan);
      LoopSends(Faultless(e), framing, fd, q.net, q.scan);
      if Goes(e, fd, net.calls, q.frames[0]) {
        LoopFalls(e, framing, fd, p.net, p.scan);
        var x := PeerLoop(e, framing, fd, p.net, p.scan);
        FallsOn(e, fd, net, q.net, q.frames[0], x, y);
        assert q.frames == [q.frames[0]];
      } else {
        FallsNow(e, fd, net, q.frames[0], y.frames, p.ended, y.(frames := q.frames + y.frames));
      }
    } else if CutBy(q) != [] {
      FallsNow(e, fd, net, CutBy(q)[0], [], p.ended, q.ended);
    } else {
      assert net.client + ([] + []) == net.client;
    }
  }

  lemma {:induction false} FallsOn(e: Env, fd: int, net: Net, m: Net, f: Frame, x: Ended, y: Ended)
    requires Goes(e, fd, net.calls, f) && m == Net(net.client + Wire(Sent([f])), net.peer, CallsAfter(net.calls, f))
    requires Falls(e, fd, m, x, y)
    ensures Falls(e, fd, net, x.(frames := [f] + x.frames), y.(frames := [f] + y.frames))
  {
    var rest, done := y.frames, |x.frames|;
    WrittenStep(e, fd, net.calls, f, rest, done);
    Regroup(net.client, Wire(Sent([f])), Written(e, fd, m.calls, rest, done));
    Front(f, x.frames);
    Front(f, rest);
  }

  lemma Front<T>(f: T, rest: seq<T>)
    ensures ([f] + rest)[0] == f && ([f] + rest)[1..] == rest && |[f] + rest| == |rest| + 1
  {
  }

  lemma {:induction false} FallsNow(e: Env, fd: int, net: Net, f: Frame, rest: seq<Frame>, x: Ended, y: Ended)
    requires y.frames == [f] + rest && !y.how.SendFailed?
    requires if Goes(e, fd, net.calls, f) then rest == [] && x == y && x.net.client == net.client + Wire(Sent([f]))
                                               && x.net.calls == CallsAfter(net.calls, f)
             else x.how.SendFailed? && x.frames == [] && x.net.client == net.client + Broken(e, fd, net.calls, f)
    ensures Falls(e, fd, net, x, y)
  {
    var frames := [f] + rest;
    assert frames[1..] == rest && frames[..0] == [];
    if Goes(e, fd, net.calls, f) {
      assert frames == [f] && frames[..1] == [f] && [f][1..] == [];
      assert Wire(Sent([f])) + [] == Wire(Sent([f]));
    } else {
      assert Wire([]) == [] && [] + Broken(e, fd, net.calls, f) == Broken(e, fd, net.calls, f);
    }
  }

  /** How many of `had` older bytes are left when `gone` bytes have left the buffer. */
  function Older(had: nat, gone: nat): nat {
    if gone < had then had - gone else 0
  }

  lemma {:induction false} LoopKeepsOlder(e: Env, framing: Framing, fd: int, net: Net, s: Scan)
    requires Holds(s) && NonNegative(framing) && s.read > 0
    ensures var x := PeerLoop(e, framing, fd, net, s);
            x.how.SendFailed? ==> x.scan.read > 0 && x.scan.off == Older(s.off, |Spoken(x.frames)|)
    decreases s.off + s.read
  {
    var p := Round(e, framing, fd, net, s);
    if p.Again? {
      RoundShrinks(e, framing, fd, net, s);
      LoopKeepsOlder(e, framing, fd, p.net, p.scan);
      SpokenOne(p.frames[0], PeerLoop(e, framing, fd, p.net, p.scan).frames);
      assert p.frames == [p.frames[0]];
    }
  }

  /** After a failed send: of the bytes just read nothing is kept, of the older ones what was not sent. */
  predicate Forgets(c: Conn, data: bytes, r: PeerResult)
    requires c.peerOffset <= |c.peerBuffer|
  {
    var had, kept := Residue(c) + data, |Spoken(r.frames)| + r.conn.peerOffset;
    && r.rv == 1 && r.conn.state.Open? && r.conn.peerOffset <= |r.conn.peerBuffer|
    && r.conn.peerOffset == Older(c.peerOffset, |Spoken(r.frames)|)
    && kept < |had| && Spoken(r.frames) + Residue(r.conn) == had[..kept]
  }

  /** Otherwise nothing is lost. */
  predicate KeepsAll(c: Conn, data: bytes, r: PeerResult)
    requires c.peerOffset <= |c.peerBuffer|
  {
    && r.rv == 0
    && (r.conn.state.Open? ==>
          r.conn.peerOffset <= |r.conn.peerBuffer| && Spoken(r.frames) + Residue(r.conn) == Residue(c) + data)
  }

  /** One read, whichever sends break off: the newest bytes are lost exactly if one does. */
  lemma ReadLoses(e: Env, c: Conn, data: bytes)
    requires Bridged(c) && FitsPeer(c, data)
    ensures var r := PeerData(e, c, Chunk(data));
            (KeepsAll(c, data, r) || Forgets(c, data, r)) && Small(r.frames) && Spoken(r.frames) <= Residue(c) + data
  {
    var s := Loaded(c, data);
    var x := PeerLoop(e, c.peer.framing.value, c.wsFd, c.net, s);
    LoopConserves(e, c.peer.framing.value, c.wsFd, c.net, s);
    LoopKeepsOlder(e, c.peer.framing.value, c.wsFd, c.net, s);
    SpokenBounds(x.frames);
    StoredLoses(e, c, data, x, Residue(c) + data);
  }

  lemma StoredLoses(e: Env, c: Conn, data: bytes, x: Ended, had: bytes)
    requires Bridged(c) && had == Residue(c) + data
    requires x.scan.off + x.scan.read <= |x.scan.buf| && Spoken(x.frames) + Contents(x.scan) == had
    requires x.how.SendFailed? ==> x.scan.read > 0 && x.scan.off == Older(c.peerOffset, |Spoken(x.frames)|)
    ensures var r := Stored(e, c, x);
            (KeepsAll(c, data, r) || Forgets(c, data, r)) && Spoken(r.frames) <= had
  {
    if x.how.SendFailed? {
      KeptPart(Spoken(x.frames), x.scan.buf, x.scan.off, x.scan.read, had);
    }
  }

  lemma KeptPart(said: bytes, buf: bytes, off: nat, read: nat, had: bytes)
    requires off + read <= |buf| && said + buf[..off + read] == had
    ensures |said| + off + read == |had| && said + buf[..off] == had[..|said| + off]
  {
  }

  /** A read against the same read without failures. */
  ghost predicate ReadFallen(e: Env, c: Conn, r: PeerResult, y: PeerResult) {
    && y.rv == 0 && r.frames == Delivered(e, c.wsFd, c.net.calls, y.frames)
    && (r.rv == 0 <==> r.frames == y.frames)
    && (r.rv == 0 ==> r.conn.state == y.conn.state && (r.conn.state.Open? ==> r == y))
    && (r.conn.state.Open? ==>
          r.conn.net.client == c.net.client + Written(e, c.wsFd, c.net.calls, y.frames, |r.frames|)
          && (r.rv == 0 ==> r.conn.net.calls == CallsBehind(c.net.calls, r.frames)))
  }

  /** What a read does when sends may break off. */
  lemma ReadFalls(e: Env, c: Conn, data: bytes)
    requires Bridged(c) && FitsPeer(c, data)
    ensures ReadFallen(e, c, PeerData(e, c, Chunk(data)), PeerData(Faultless(e), c, Chunk(data)))
  {
    var framing, s := c.peer.framing.value, Loaded(c, data);
    LoopFalls(e, framing, c.wsFd, c.net, s);
    StoredFalls(e, c, PeerLoop(e, framing, c.wsFd, c.net, s), PeerLoop(Faultless(e), framing, c.wsFd, c.net, s));
  }

  lemma {:induction false} StoredFalls(e: Env, c: Conn, x: Ended, y: Ended)
    requires Bridged(c) && Falls(e, c.wsFd, c.net, x, y)
    ensures ReadFallen(e, c, Stored(e, c, x), Stored(Faultless(e), c, y))
  {
  }

  /**
   On a connection that stays open, segments and new residue are the old residue and the
   bytes read if and only if no send broke off, that is, if and only if all the segments that
   the read gives rise to go through.
   */
  lemma LossIsFailure(e: Env, c: Conn, data: bytes)
    requires Bridged(c) && FitsPeer(c, data) && PeerData(e, c, Chunk(data)).conn.state.Open?
    ensures var r, y := PeerData(e, c, Chunk(data)), PeerData(Faultless(e), c, Chunk(data));
            && r.conn.peerOffset <= |r.conn.peerBuffer|
            && (Spoken(r.frames) + Residue(r.conn) == Residue(c) + data <==> r.rv == 0)
            && (r.rv == 0 <==> Delivered(e, c.wsFd, c.net.calls, y.frames) == y.frames)
  {
    ReadLoses(e, c, data);
    ReadFalls(e, c, data);
  }

  lemma ProperPrefixWaits(f: Frame, part: bytes)
    requires Sendable(f) && part < ServerFrame(f)
    ensures CutAll(Receive, part) == Cuts([], Rest(part))
  {
    var wire := ServerFrame(f);
    ServerRoundTrip(f, []);
    ReceiveStable();
    assert wire + [] == wire && part + wire[|part|..] == wire;
    PartWaits(Receive, part, wire[|part|..]);
  }

  lemma {:induction false} DeliveredThen(e: Env, fd: int, calls: nat, frames: seq<Frame>)
    requires Delivered(e, fd, calls, frames) != frames
    ensures var n := |Delivered(e, fd, calls, frames)|;
            n < |frames| && frames[n].opcode != DISCARD && !Goes(e, fd, CallsBehind(calls, frames[..n]), frames[n])
    decreases |frames|
  {
    if Goes(e, fd, calls, frames[0]) {
      var rest := frames[1..];
      var n := |Delivered(e, fd, CallsAfter(calls, frames[0]), rest)|;
      DeliveredThen(e, fd, CallsAfter(calls, frames[0]), rest);
      assert frames == [frames[0]] + rest;
      HeadAndRest(frames[0], rest, n);
    }
  }

  /**
   Behind a failed send the connection is open and the client has decoded exactly the
   segments before it; the bytes it is left with are a proper part of the next segment's frame.
   */
  lemma BehindFailure(e: Env, c: Conn, data: bytes) returns (f: Frame, part: bytes)
    requires Bridged(c) && FitsPeer(c, data) && PeerData(e, c, Chunk(data)).rv == 1
    ensures var r, y := PeerData(e, c, Chunk(data)), PeerData(Faultless(e), c, Chunk(data));
            && r.conn.state.Open? && r.frames < y.frames && f == y.frames[|r.frames|] && part < ServerFrame(f)
            && r.conn.net.client == c.net.client + Wire(Sent(r.frames)) + part
            && CutAll(Receive, r.conn.net.client[|c.net.client|..]) == Cuts(Sent(r.frames), Rest(part))
  {
    var r, y := PeerData(e, c, Chunk(data)), PeerData(Faultless(e), c, Chunk(data));
    ReadLoses(e, c, data);
    ReadLoses(Faultless(e), c, data);
    ReadFalls(e, c, data);
    DeliveredThen(e, c.wsFd, c.net.calls, y.frames);
    f := y.frames[|r.frames|];
    part := Broken(e, c.wsFd, CallsBehind(c.net.calls, y.frames[..|r.frames|]), f);
    BrokenIsPart(e, c.wsFd, CallsBehind(c.net.calls, y.frames[..|r.frames|]), f);
    assert y.frames[..|r.frames|] == r.frames;
    Regroup(c.net.client, Wire(Sent(r.frames)), part);
    SentIsSmall(r.frames);
    assert f in y.frames && Sendable(f);
    ProperPrefixWaits(f, part);
    DecodesThen(c.net.client, Sent(r.frames), part);
  }

  lemma DecodesThen(before: bytes, sent: seq<Frame>, rest: bytes)
    requires forall f :: f in sent ==> Sendable(f)
    ensures CutAll(Receive, (before + Wire(sent) + rest)[|before|..]) == Prepend(sent, CutAll(Receive, rest))
  {
    Regroup(before, Wire(sent), rest);
    assert (before + (Wire(sent) + rest))[|before|..] == Wire(sent) + rest;
    WireRoundTrip(sent, rest);
  }

  lemma {:induction false} DeliveredAppend(e: Env, fd: int, calls: nat, a: seq<Frame>, b: seq<Frame>)
    ensures var done := Delivered(e, fd, calls, a);
            Delivered(e, fd, calls, a + b) == if done == a then a + Delivered(e, fd, CallsBehind(calls, a), b) else done
    decreases |a|
  {
    if a == [] {
      assert [] + b == b && [] + Delivered(e, fd, calls, b) == Delivered(e, fd, calls, b);
    } else {
      var rest := Delivered(e, fd, CallsAfter(calls, a[0]), a[1..]);
      DeliveredAppend(e, fd, CallsAfter(calls, a[0]), a[1..], b);
      assert a + b == [a[0]] + (a[1..] + b) && a == [a[0]] + a[1..];
      Regroup([a[0]], a[1..], Delivered(e, fd, CallsBehind(calls, a), b));
      assert [a[0]] + rest == a <==> rest == a[1..] by {
        SameRest(a[0], rest, a[1..]);
      }
    }
  }

  lemma SameRest<T>(f: T, a: seq<T>, b: seq<T>)
    ensures [f] + a == [f] + b <==> a == b
  {
    assert ([f] + a)[1..] == a && ([f] + b)[1..] == b;
  }

  /** Bytes received over a run are all accounted for if no read failed; otherwise some are not. */
  ghost predicate RunLost(c: Conn, received: bytes, r: PeerResult)
    requires c.peerOffset <= |c.peerBuffer|
  {
    && Small(r.frames)
    && (r.conn.state.Open? ==>
          && r.conn.peerOffset <= |r.conn.peerBuffer|
          && (r.rv == 0 ==> Spoken(r.frames) + Residue(r.conn) == Residue(c) + received)
          && (r.rv != 0 ==> |Spoken(r.frames)| + r.conn.peerOffset < |Residue(c) + received|))
  }

  /** A run of which one read failed has lost bytes for good; one without a failed read has lost none. */
  lemma {:induction false} RunLoses(e: Env, c: Conn, chunks: seq<bytes>)
    requires Bridged(c) && PeerReadsFit(e, c, chunks)
    ensures RunLost(c, Concat(chunks), PeerRun(e, c, chunks))
    decreases |chunks|
  {
    if chunks == [] {
      assert Residue(c) + [] == Residue(c) && [] + Residue(c) == Residue(c);
    } else {
      var r := PeerData(e, c, Chunk(chunks[0]));
      RunStep(e, c, chunks);
      ReadLoses(e, c, chunks[0]);
      if r.conn.state.Open? {
        RunLoses(e, r.conn, chunks[1..]);
        LossesAdd(c, chunks[0], r, Concat(chunks[1..]), PeerRun(e, r.conn, chunks[1..]));
      } else {
        assert r.frames + [] == r.frames;
      }
    }
  }

  lemma LossesAdd(c: Conn, a: bytes, r: PeerResult, b: bytes, q: PeerResult)
    requires c.peerOffset <= |c.peerBuffer| && r.conn.peerOffset <= |r.conn.peerBuffer|
    requires (KeepsAll(c, a, r) || Forgets(c, a, r)) && Small(r.frames)
    requires r.conn.state.Open? && RunLost(r.conn, b, q)
    ensures RunLost(c, a + b, PeerResult(q.conn, if r.rv == 0 then q.rv else r.rv, r.frames + q.frames))
  {
    SpokenAppend(r.frames, q.frames);
    if q.conn.state.Open? {
      Adds(Residue(c), a, b, Spoken(r.frames), Residue(r.conn), Spoken(q.frames), Residue(q.conn));
    }
  }

  /** The bytes of two reads: nothing is lost if neither loses any, and otherwise something is. */
  lemma Adds(had: bytes, a: bytes, b: bytes, said: bytes, kept: bytes, more: bytes, left: bytes)
    ensures said + kept == had + a && more + left == kept + b ==> (said + more) + left == had + (a + b)
    ensures |said| + |kept| < |had| + |a| && more + left == kept + b ==> |said + more| + |left| < |had + (a + b)|
    ensures said + kept == had + a && |more| + |left| < |kept + b| ==> |said + more| + |left| < |had + (a + b)|
    ensures |said| + |kept| < |had| + |a| && |more| + |left| < |kept + b| ==> |said + more| + |left| < |had + (a + b)|
  {
    Regroup(said, more, left);
    Regroup(said, kept, b);
    Regroup(had, a, b);
    assert said + kept == had + a ==> |said| + |kept| == |had| + |a|;
    assert more + left == kept + b ==> |more| + |left| == |kept| + |b|;
  }

  /**
   The segments that a run gives rise to as long as no send breaks off: those of its reads
   without failures, up to the first read of which not all go through.
   */
  function FramesDue(e: Env, c: Conn, chunks: seq<bytes>): seq<Frame>
    requires c.state.Open? ==> Bridged(c)
    requires PeerReadsFit(e, c, chunks)
    decreases |chunks|
  {
    if chunks == [] || !c.state.Open? then []
    else
      PeerDataKeeps(e, c, chunks[0]);
      var due := PeerData(Faultless(e), c, Chunk(chunks[0])).frames;
      if Delivered(e, c.wsFd, c.net.calls, due) != due then due
      else due + FramesDue(e, PeerData(e, c, Chunk(chunks[0])).conn, chunks[1..])
  }

  /** The outcome of a run against these segments. */
  ghost predicate RunFallen(e: Env, c: Conn, r: PeerResult, due: seq<Frame>) {
    && (r.rv == 0 <==> Delivered(e, c.wsFd, c.net.calls, due) == due)
    && (r.rv == 0 ==> r.frames == due)
  }

  lemma {:induction false} RunFalls(e: Env, c: Conn, chunks: seq<bytes>)
    requires Bridged(c) && PeerReadsFit(e, c, chunks)
    ensures RunFallen(e, c, PeerRun(e, c, chunks), FramesDue(e, c, chunks))
    decreases |chunks|
  {
    if chunks != [] {
      var r, y := PeerData(e, c, Chunk(chunks[0])), PeerData(Faultless(e), c, Chunk(chunks[0]));
      RunStep(e, c, chunks);
      ReadFalls(e, c, chunks[0]);
      if r.rv == 0 && r.conn.state.Open? {
        PeerDataKeeps(e, c, chunks[0]);
        RunFalls(e, r.conn, chunks[1..]);
        FallenOn(e, c, r, PeerRun(e, r.conn, chunks[1..]), FramesDue(e, r.conn, chunks[1..]));
      } else {
        assert r.frames + [] == r.frames && y.frames + [] == y.frames;
      }
    }
  }

  lemma FallenOn(e: Env, c: Conn, r: PeerResult, q: PeerResult, later: seq<Frame>)
    requires Delivered(e, c.wsFd, c.net.calls, r.frames) == r.frames && r.conn.wsFd == c.wsFd
    requires r.conn.net.calls == CallsBehind(c.net.calls, r.frames) && RunFallen(e, r.conn, q, later)
    ensures RunFallen(e, c, PeerResult(q.conn, q.rv, r.frames + q.frames), r.frames + later)
  {
    DeliveredAppend(e, c.wsFd, c.net.calls, r.frames, later);
    SameFront(r.frames, Delivered(e, c.wsFd, r.conn.net.calls, later), later);
  }

  /** The condition over a run: every byte is accounted for if and only if all of these segments go through. */
  lemma RunLossIsFailure(e: Env, c: Conn, chunks: seq<bytes>)
    requires Bridged(c) && PeerReadsFit(e, c, chunks)
    ensures var r, due := PeerRun(e, c, chunks), FramesDue(e, c, chunks);
            && (r.rv == 0 <==> Delivered(e, c.wsFd, c.net.calls, due) == due)
            && (r.rv == 0 ==> r.frames == due)
            && (r.conn.state.Open? ==>
                  && r.conn.peerOffset <= |r.conn.peerBuffer|
                  && (Spoken(r.frames) + Residue(r.conn) == Residue(c) + Concat(chunks) <==> r.rv == 0))
  {
    RunLoses(e, c, chunks);
    RunFalls(e, c, chunks);
  }

  /** Then the run is the one without failures. */
  lemma {:induction false} NoLossIsFaultless(e: Env, c: Conn, chunks: seq<bytes>)
    requires Bridged(c) && PeerReadsFit(e, c, chunks) && PeerRun(e, c, chunks).rv == 0
    ensures PeerReadsFit(Faultless(e), c, chunks)
    ensures var r, y := PeerRun(e, c, chunks), PeerRun(Faultless(e), c, chunks);
            r.frames == y.frames && r.conn.state == y.conn.state && (r.conn.state.Open? ==> r.conn == y.conn)
    decreases |chunks|
  {
    if chunks != [] {
      var r := PeerData(e, c, Chunk(chunks[0]));
      RunStep(e, c, chunks);
      ReadFalls(e, c, chunks[0]);
      PeerDataKeeps(Faultless(e), c, chunks[0]);
      if r.conn.state.Open? {
        NoLossIsFaultless(e, r.conn, chunks[1..]);
      }
    }
  }

  const OVERRUN: Frame := Frame(CLOSE, Ascii("Internal error"))

  /** A read that closes: the segments, then the farewell or a part of it. */
  lemma ClosingRead(e: Env, c: Conn, data: bytes) returns (bye: bytes)
    requires Bridged(c) && FitsPeer(c, data) && PeerData(e, c, Chunk(data)).conn.state.Closed?
    ensures var r := PeerData(e, c, Chunk(data));
            r.conn.net.client == c.net.client + Wire(Sent(r.frames)) + bye && bye <= ServerFrame(OVERRUN)
  {
    var framing, s := c.peer.framing.value, Loaded(c, data);
    LoopFalls(e, framing, c.wsFd, c.net, s);
    var x := PeerLoop(e, framing, c.wsFd, c.net, s);
    assert x.frames[..|x.frames|] == x.frames;
    assert Wire(Sent(x.frames)) + [] == Wire(Sent(x.frames));
    bye := FrameGrows(e, c.wsFd, x.net, OVERRUN);
  }

  /** A frame that is sent, or whose send breaks off. */
  lemma FrameGrows(e: Env, fd: int, net: Net, f: Frame) returns (out: bytes)
    requires f.opcode != DISCARD
    ensures SendFrame(e, fd, net, f).net.client == net.client + out && out <= ServerFrame(f)
  {
    SendGoes(e, fd, net, f);
    SentOne(f, []);
    WireOne(f);
    if Goes(e, fd, net.calls, f) {
      out := ServerFrame(f);
    } else {
      BrokenIsPart(e, fd, net.calls, f);
      out := Broken(e, fd, net.calls, f);
    }
  }

  /** A read that leaves the connection open. */
  lemma OpenRead(e: Env, c: Conn, data: bytes) returns (f: Frame, part: bytes)
    requires Bridged(c) && FitsPeer(c, data) && PeerData(e, c, Chunk(data)).conn.state.Open?
    ensures var r := PeerData(e, c, Chunk(data));
            && r.conn.net.client == c.net.client + Wire(Sent(r.frames)) + part
            && if r.rv == 0 then part == [] else part < ServerFrame(f)
  {
    var r := PeerData(e, c, Chunk(data));
    if r.rv == 0 {
      ReadFalls(e, c, data);
      f, part := OVERRUN, [];
      assert r.frames[..|r.frames|] == r.frames;
      assert Wire(Sent(r.frames)) + [] == Wire(Sent(r.frames));
      Regroup(c.net.client, Wire(Sent(r.frames)), []);
    } else {
      ReadLoses(e, c, data);
      f, part := BehindFailure(e, c, data);
    }
  }

  /** The client's log only grows. */
  lemma {:induction false} RunGrows(e: Env, c: Conn, chunks: seq<bytes>)
    requires c.state.Open? ==> Bridged(c)
    requires PeerReadsFit(e, c, chunks)
    ensures c.net.client <= PeerRun(e, c, chunks).conn.net.client
    decreases |chunks|
  {
    if c.state.Open? && chunks != [] {
      RunStep(e, c, chunks);
      var d := PeerData(e, c, Chunk(chunks[0])).conn;
      if d.state.Open? {
        var f, part := OpenRead(e, c, chunks[0]);
      } else {
        PeerDataKeeps(e, c, chunks[0]);
        var bye := ClosingRead(e, c, chunks[0]);
      }
      RunGrows(e, d, chunks[1..]);
    }
  }

  /** What the client can decode, `done`, and what is behind it, `rest`. */
  ghost predicate Decodes(c: Conn, received: bytes, r: PeerResult, done: seq<Frame>, f: Frame, part: bytes, rest: bytes)
    requires c.peerOffset <= |c.peerBuffer|
  {
    && done <= r.frames && Small(done) && Spoken(done) <= Residue(c) + received
    && r.conn.net.client == c.net.client + Wire(Sent(done)) + rest && part <= rest
    && if r.rv != 0 then part < ServerFrame(f)
       else done == r.frames && if r.conn.state.Open? then rest == [] else rest <= ServerFrame(OVERRUN)
  }

  /**
   Whichever sends fail over a run: what the client decodes starts with the segments up to
   the first failed send, whole and in order, which the peer did send.  Without a failed
   send these are all.  Behind a failed one comes a proper part of a frame, and then
   whatever was sent later.
   */
  lemma {:induction false} ClientGetsPrefix(e: Env, c: Conn, chunks: seq<bytes>)
    returns (done: seq<Frame>, f: Frame, part: bytes, rest: bytes)
    requires Bridged(c) && PeerReadsFit(e, c, chunks)
    ensures var r := PeerRun(e, c, chunks);
            && Decodes(c, Concat(chunks), r, done, f, part, rest)
            && CutAll(Receive, r.conn.net.client[|c.net.client|..]) == Prepend(Sent(done), CutAll(Receive, rest))
  {
    done, f, part, rest := WireOfReads(e, c, chunks);
    SentIsSmall(done);
    DecodesThen(c.net.client, Sent(done), rest);
  }

  lemma {:induction false} WireOfReads(e: Env, c: Conn, chunks: seq<bytes>)
    returns (done: seq<Frame>, f: Frame, part: bytes, rest: bytes)
    requires Bridged(c) && PeerReadsFit(e, c, chunks)
    ensures Decodes(c, Concat(chunks), PeerRun(e, c, chunks), done, f, part, rest)
    decreases |chunks|
  {
    if chunks == [] {
      done, f, part, rest := [], OVERRUN, [], [];
      assert c.net.client + Wire([]) + [] == c.net.client;
    } else {
      var r, more := PeerData(e, c, Chunk(chunks[0])), chunks[1..];
      RunStep(e, c, chunks);
      ReadLoses(e, c, chunks[0]);
      Regroup(Residue(c), chunks[0], Concat(more));
      if r.rv == 0 && r.conn.state.Open? {
        var ignored, nothing := OpenRead(e, c, chunks[0]);
        done, f, part, rest := WireOfReads(e, r.conn, more);
        DecodesOn(c, chunks[0], r, Concat(more), PeerRun(e, r.conn, more), done, f, part, rest);
        done := r.frames + done;
      } else if r.conn.state.Open? {
        f, part := OpenRead(e, c, chunks[0]);
        RunGrows(e, r.conn, more);
        done := r.frames;
        rest := LaterWire(c.net.client + Wire(Sent(done)), part, PeerRun(e, c, chunks).conn.net.client);
        LongerFront(done, [], PeerRun(e, r.conn, more).frames);
        assert done + [] == done;
      } else {
        PeerDataKeeps(e, c, chunks[0]);
        rest := ClosingRead(e, c, chunks[0]);
        done, f, part := r.frames, OVERRUN, [];
        assert r.frames + [] == r.frames;
      }
    }
  }

  lemma LaterWire(before: bytes, part: bytes, after: bytes) returns (rest: bytes)
    requires before + part <= after
    ensures after == before + rest && part <= rest
  {
    rest := after[|before|..];
  }

  lemma DecodesOn(c: Conn, a: bytes, r: PeerResult, b: bytes, q: PeerResult, done: seq<Frame>, f: Frame, part: bytes,
                  rest: bytes)
    requires c.peerOffset <= |c.peerBuffer| && KeepsAll(c, a, r) && r.conn.state.Open? && Small(r.frames)
    requires r.conn.net.client == c.net.client + Wire(Sent(r.frames)) + []
    requires Decodes(r.conn, b, q, done, f, part, rest)
    ensures Decodes(c, a + b, PeerResult(q.conn, q.rv, r.frames + q.frames), r.frames + done, f, part, rest)
  {
    SpokenAppend(r.frames, done);
    WiresAdd(c.net.client, r.frames, done, rest);
    LongerFront(r.frames, done, q.frames);
    BytesAdd(Residue(c), a, b, Spoken(r.frames), Residue(r.conn), Spoken(done));
  }

  lemma WiresAdd(before: bytes, a: seq<Frame>, b: seq<Frame>, rest: bytes)
    ensures before + Wire(Sent(a)) + [] + Wire(Sent(b)) + rest == before + Wire(Sent(a + b)) + rest
  {
    SentAppend(a, b);
    PrintAppend(ServerFrame, Sent(a), Sent(b));
    assert before + Wire(Sent(a)) + [] == before + Wire(Sent(a));
    Regroup(before, Wire(Sent(a)), Wire(Sent(b)));
  }
}
