/**
 From the client to the peer: the frame loop over the receive buffer, the one-pass decoder
 it amounts to, and what reaches the peer.
 */
module Inbound {
  import opened Bytes
  import opened Cutting
  import opened Frames
  import opened Connection

  /** What a frame does on the sockets, and whether it closes the connection. */
  datatype Effect = Effect(net: Net, closes: bool)

  /** Closing in state open with a reason. */
  function Closing(e: Env, fd: int, net: Net, code: Reason, reason: string): Effect {
    Effect(Farewell(e, Open, fd, net, code, Some(Ascii(reason))), true)
  }

  function FrameEffect(e: Env, wsFd: int, peerFd: int, net: Net, f: Frame): Effect {
    if f.opcode == TEXT || f.opcode == BINARY then
      if peerFd >= 0 then
        var s := SendPeer(e, peerFd, net, f.payload);
        if s.failed then Closing(e, wsFd, s.net, Unexpected, "Failed to forward") else Effect(s.net, false)
      else Effect(net, false)
    else if f.opcode == CLOSE then Closing(e, wsFd, net, Normal, "Client requested termination")
    else if f.opcode == PING then
      var s := SendFrame(e, wsFd, net, Frame(PONG, f.payload));
      if s.failed then Closing(e, wsFd, s.net, Unexpected, "Failed to send pong") else Effect(s.net, false)
    else if f.opcode == PONG then Effect(net, false)
    else Closing(e, wsFd, net, Protocol, "Invalid opcode")
  }

  /** What is done about one unmasked frame. */
  function Act(e: Env, c: Conn, f: Frame): (d: Conn)
    ensures d.input == c.input || d.state.Closed?
    ensures d.state == c.state || d.state.Closed?
  {
    var x := FrameEffect(e, c.wsFd, c.peerFd, c.net, f);
    if x.closes then Shut(c, x.net) else c.(net := x.net)
  }

  /** The loop over the frames in the buffer. */
  function HandleFrames(e: Env, c: Conn): Conn
    decreases |c.input|
  {
    match Parse(c.input)
    case Incomplete => c
    case Wrapped => c
    case Unmasked => CloseConn(e, c, Protocol, Some(Ascii("Unmasked client frame")))
    case Complete(f, size) =>
      var d := Act(e, c, f);
      if d.input == [] then d else HandleFrames(e, d.(input := d.input[size..]))
  }

  function TooLongClose(e: Env, c: Conn): Conn {
    if |c.input| >= LIMIT then CloseConn(e, c, SizeLimit, Some(Ascii("Receive size limit exceeded"))) else c
  }

  /** One read in state open. */
  function ReadOpen(e: Env, c: Conn, chunk: bytes): Conn {
    TooLongClose(e, HandleFrames(e, c.(input := c.input + chunk)))
  }

  /** A run of reads; nothing is read any more once the connection is closed. */
  function RunOpen(e: Env, c: Conn, chunks: seq<bytes>): Conn
    decreases |chunks|
  {
    if chunks == [] || !c.state.Open? then c else RunOpen(e, ReadOpen(e, c, chunks[0]), chunks[1..])
  }

  /** Every read fits the room that is left, whatever its size. */
  ghost predicate ReadsFit(e: Env, c: Conn, chunks: seq<bytes>)
    decreases |chunks|
  {
    chunks == [] || !c.state.Open? ||
    (0 < |chunks[0]| <= LIMIT - |c.input| && ReadsFit(e, ReadOpen(e, c, chunks[0]), chunks[1..]))
  }

  datatype Fault = UnmaskedFrame | WrappedSize | TooLong

  /** The one-pass decoder: a client frame must be complete within the buffer limit. */
  function Decode(s: bytes): Cut<Frame, Fault> {
    match Parse(s[..Min(|s|, LIMIT)])
    case Incomplete => if |s| >= LIMIT then Halt(TooLong) else Wait
    case Unmasked => Halt(UnmaskedFrame)
    case Wrapped => Halt(WrappedSize)
    case Complete(f, size) => Take(f, size)
  }

  lemma DecodeStable()
    ensures Stable(Decode)
  {
    forall s, t | !Decode(s).Wait? ensures Decode(s + t) == Decode(s) {
      if |s| >= LIMIT {
        assert (s + t)[..LIMIT] == s[..LIMIT];
      } else {
        assert s[..|s|] == s;
        var n := Min(|s + t|, LIMIT);
        assert (s + t)[..n] == s + t[..n - |s|];
        ParseStable(s, t[..n - |s|]);
      }
    }
  }

  /** What is done about the frames, until one of them closes the connection. */
  function ActAll(e: Env, c: Conn, frames: seq<Frame>): Conn
    decreases |frames|
  {
    if frames == [] || !c.state.Open? then c else ActAll(e, Act(e, c, frames[0]), frames[1..])
  }

  /** And about the end of what the decoder could take. */
  function Finish(e: Env, c: Conn, end: End<Fault>): Conn {
    if !c.state.Open? then c
    else
      match end
      case Rest(rest) => c.(input := rest)
      case Halted(UnmaskedFrame) => CloseConn(e, c, Protocol, Some(Ascii("Unmasked client frame")))
      case Halted(TooLong) => CloseConn(e, c, SizeLimit, Some(Ascii("Receive size limit exceeded")))
      case Halted(WrappedSize) => c
  }

  /** The reference: decode the stream in one pass, then act. */
  function OnePass(e: Env, c: Conn, s: bytes): Conn {
    var d := CutAll(Decode, s);
    Finish(e, ActAll(e, c.(input := []), d.items), d.end)
  }

  lemma {:induction false} ActAllAppend(e: Env, c: Conn, a: seq<Frame>, b: seq<Frame>)
    ensures ActAll(e, c, a + b) == ActAll(e, ActAll(e, c, a), b)
    decreases |a|
  {
    if a == [] {
      assert a + b == b;
    } else if c.state.Open? {
      assert (a + b)[1..] == a[1..] + b;
      ActAllAppend(e, Act(e, c, a[0]), a[1..], b);
    }
  }

  /** What is done about a frame does not depend on the buffer it came in. */
  lemma ActElsewhere(e: Env, c: Conn, f: Frame, input: bytes)
    requires c.state.Open?
    ensures Act(e, c.(input := input), f)
         == if Act(e, c, f).state.Open? then Act(e, c, f).(input := input) else Act(e, c, f)
  {
  }

  lemma {:induction false} ActAllInput(e: Env, c: Conn, frames: seq<Frame>)
    requires c.input == []
    ensures ActAll(e, c, frames).input == []
    decreases |frames|
  {
    if frames != [] && c.state.Open? {
      assert c.(input := []) == c;
      ActAllInput(e, Act(e, c, frames[0]).(input := []), frames[1..]);
      assert Act(e, c, frames[0]).input == [];
    }
  }

  /** The decoder meets no size that wraps around. */
  ghost predicate NoWrap(s: bytes) {
    CutAll(Decode, s).end != Halted(WrappedSize)
  }

  /** Every header the decoder gets to has a legal length. */
  predicate LegalHeads(s: bytes)
    decreases |s|
  {
    LegalLength(s[..Min(|s|, LIMIT)]) &&
    match Decode(s)
    case Take(_, size) => LegalHeads(s[size..])
    case _ => true
  }

  /** Section 5.2 of RFC 6455 keeps sizes from wrapping around. */
  lemma {:induction false} LegalHeadsDoNotWrap(s: bytes)
    requires LegalHeads(s)
    ensures NoWrap(s)
    decreases |s|
  {
    LegalNeverWraps(s[..Min(|s|, LIMIT)]);
    if Decode(s).Take? {
      LegalHeadsDoNotWrap(s[Decode(s).size..]);
    }
  }

  /** The loop past one complete frame. */
  function Next(e: Env, c: Conn): (d: Conn)
    requires Parse(c.input).Complete?
    ensures d.input == c.input[Parse(c.input).size..] || d.state.Closed?
  {
    var d := Act(e, c, Parse(c.input).frame);
    if d.state.Closed? then d else d.(input := c.input[Parse(c.input).size..])
  }

  lemma LoopGoesOn(e: Env, c: Conn)
    requires c.state.Open? && Parse(c.input).Complete?
    ensures Next(e, c).state.Open? || Next(e, c).state.Closed?
    ensures HandleFrames(e, c) == if Next(e, c).state.Open? then HandleFrames(e, Next(e, c)) else Next(e, c)
  {
  }

  /** One look at the buffer: the loop takes what the decoder takes, and the limit does the rest. */
  lemma {:induction false} LoopIsOnePass(e: Env, c: Conn)
    requires c.state.Open? && |c.input| <= LIMIT && NoWrap(c.input)
    ensures TooLongClose(e, HandleFrames(e, c)) == OnePass(e, c, c.input)
    decreases |c.input|
  {
    assert c.input[..|c.input|] == c.input;
    if Parse(c.input).Complete? {
      var f, size := Parse(c.input).frame, Parse(c.input).size;
      var d := Act(e, c, f);
      var tail := CutAll(Decode, c.input[size..]);
      assert CutAll(Decode, c.input) == Cuts([f] + tail.items, tail.end);
      assert ([f] + tail.items)[1..] == tail.items;
      ActElsewhere(e, c, f, []);
      LoopGoesOn(e, c);
      if d.state.Open? {
        var d0 := Next(e, c);
        assert d0.(input := []) == d.(input := []);
        LoopIsOnePass(e, d0);
        assert ActAll(e, c.(input := []), [f] + tail.items) == ActAll(e, d.(input := []), tail.items);
      } else {
        assert d.input == [];
        assert ActAll(e, c.(input := []), [f] + tail.items) == d;
      }
    }
  }

  /** What the loop leaves in the buffer of an open connection is the end of what was there. */
  lemma {:induction false} LoopLeavesFrom(e: Env, c: Conn) returns (n: nat)
    requires c.state.Open? && HandleFrames(e, c).state.Open?
    ensures n <= |c.input| && HandleFrames(e, c).input == c.input[n..]
    decreases |c.input|
  {
    if Parse(c.input).Complete? {
      LoopGoesOn(e, c);
      n := LoopLeavesFrom(e, Next(e, c));
      SliceOfRest(c.input, Parse(c.input).size, n);
      n := n + Parse(c.input).size;
    } else {
      n := 0;
    }
  }

  lemma SliceOfRest(s: bytes, m: nat, n: nat)
    requires m + n <= |s|
    ensures s[m..][n..] == s[n + m..]
  {
  }

  /** Nothing else about an open connection changes, except for the sockets. */
  lemma {:induction false} LoopKeepsRest(e: Env, c: Conn)
    requires c.state.Open?
    ensures var d := HandleFrames(e, c); d.state.Open? ==> d == c.(input := d.input, net := d.net)
    decreases |c.input|
  {
    if Parse(c.input).Complete? {
      LoopGoesOn(e, c);
      if Next(e, c).state.Open? {
        LoopKeepsRest(e, Next(e, c));
      }
    }
  }

  lemma {:induction false} LoopLeavesNothingComplete(e: Env, c: Conn)
    requires c.state.Open? && HandleFrames(e, c).state.Open?
    ensures Parse(HandleFrames(e, c).input).Incomplete? || Parse(HandleFrames(e, c).input).Wrapped?
    decreases |c.input|
  {
    if Parse(c.input).Complete? {
      LoopGoesOn(e, c);
      LoopLeavesNothingComplete(e, Next(e, c));
    }
  }

  lemma NoWrapBehind(s: bytes)
    requires |s| <= LIMIT && NoWrap(s) && Parse(s).Complete?
    ensures NoWrap(s[Parse(s).size..])
  {
    assert s[..|s|] == s;
  }

  /** Where no size wraps around it waits for more bytes. */
  lemma {:induction false} LoopLeavesIncomplete(e: Env, c: Conn)
    requires c.state.Open? && HandleFrames(e, c).state.Open? && |c.input| <= LIMIT && NoWrap(c.input)
    ensures Parse(HandleFrames(e, c).input).Incomplete?
    decreases |c.input|
  {
    assert c.input[..|c.input|] == c.input;
    if Parse(c.input).Complete? {
      NoWrapBehind(c.input);
      LoopGoesOn(e, c);
      LoopLeavesIncomplete(e, Next(e, c));
    }
  }

  /**
   The size limit is exact: a read that leaves the connection open after its last frame
   closes it exactly if the frame at the head of the buffer is still incomplete with all
   16383 bytes of the buffer taken; otherwise there is room for at least one more byte.
   */
  lemma LimitIsExact(e: Env, c: Conn, chunk: bytes)
    requires c.state.Open? && |c.input + chunk| <= LIMIT
    requires HandleFrames(e, c.(input := c.input + chunk)).state.Open?
    ensures ReadOpen(e, c, chunk).state.Closed? <==>
      && |c.input + chunk| == 16383
      && (Parse(c.input + chunk).Incomplete? || Parse(c.input + chunk).Wrapped?)
    ensures !ReadOpen(e, c, chunk).state.Closed? ==> |ReadOpen(e, c, chunk).input| < 16383
  {
    var n := LoopLeavesFrom(e, c.(input := c.input + chunk));
    LoopLeavesNothingComplete(e, c.(input := c.input + chunk));
    var h := HandleFrames(e, c.(input := c.input + chunk));
    if |h.input| == LIMIT {
      assert (c.input + chunk)[0..] == c.input + chunk;
    }
    if Parse(c.input + chunk).Complete? {
      LoopMakesRoom(e, c.(input := c.input + chunk));
    }
  }

  /** A complete frame at the head leaves the buffer. */
  lemma LoopMakesRoom(e: Env, c: Conn)
    requires c.state.Open? && HandleFrames(e, c).state.Open? && Parse(c.input).Complete?
    ensures |HandleFrames(e, c).input| < |c.input|
  {
    LoopGoesOn(e, c);
    var n := LoopLeavesFrom(e, Next(e, c));
  }

  lemma ReadIsOnePass(e: Env, c: Conn, chunk: bytes)
    requires c.state.Open? && |c.input + chunk| <= LIMIT && NoWrap(c.input + chunk)
    ensures ReadOpen(e, c, chunk) == OnePass(e, c, c.input + chunk)
  {
    LoopIsOnePass(e, c.(input := c.input + chunk));
  }

  /** Going on with more of the stream. */
  lemma OnePassAppend(e: Env, c: Conn, a: bytes, b: bytes)
    requires c.state.Open? && NoWrap(a + b)
    ensures NoWrap(a)
    ensures var d := OnePass(e, c, a);
            && OnePass(e, c, a + b) == (if d.state.Open? then OnePass(e, d, d.input + b) else d)
            && (d.state.Open? ==> Decode(d.input).Wait? && NoWrap(d.input + b))
  {
    DecodeStable();
    CutAppend(Decode, a, b);
    var ca := CutAll(Decode, a);
    var c0 := c.(input := []);
    var c1 := ActAll(e, c0, ca.items);
    ActAllInput(e, c0, ca.items);
    if ca.end.Rest? {
      CutRest(Decode, a);
      var r := ca.end.bytes;
      var cb := CutAll(Decode, r + b);
      ActAllAppend(e, c0, ca.items, cb.items);
      assert c1.(input := []) == c1;
    }
  }

  /** The stream is to be looked at: a read is to come, or the bytes in the buffer have been looked at. */
  predicate Due(c: Conn, chunks: seq<bytes>) {
    chunks != [] || Decode(c.input).Wait?
  }

  /**
   However the stream is cut into reads, and whichever sends fail: a run of reads in state
   open does what decoding the whole stream in one pass does, frame by frame and byte by
   byte on both sockets, up to and including the point where the connection closes.
   */
  lemma {:induction false} ChunkingDoesNotMatter(e: Env, c: Conn, chunks: seq<bytes>)
    requires c.state.Open? && Due(c, chunks) && ReadsFit(e, c, chunks)
    requires NoWrap(c.input + Concat(chunks))
    ensures RunOpen(e, c, chunks) == OnePass(e, c, c.input + Concat(chunks))
    decreases |chunks|
  {
    if chunks == [] {
      assert c.input + Concat(chunks) == c.input;
    } else {
      var a, b := c.input + chunks[0], Concat(chunks[1..]);
      assert c.input + Concat(chunks) == a + b;
      OnePassAppend(e, c, a, b);
      ReadIsOnePass(e, c, chunks[0]);
      var d := ReadOpen(e, c, chunks[0]);
      if d.state.Open? {
        ChunkingDoesNotMatter(e, d, chunks[1..]);
      }
    }
  }

  /** Frames that end the connection: all but text (1), binary (2), ping (9) and pong (10). */
  predicate ClosesConn(f: Frame) {
    f.opcode !in {1, 2, 9, 10}
  }

  /** The frames in front of the first one that ends the connection. */
  function Served(frames: seq<Frame>): (r: seq<Frame>)
    ensures r <= frames
    ensures forall f :: f in r ==> !ClosesConn(f)
    ensures |r| < |frames| ==> ClosesConn(frames[|r|])
  {
    if frames == [] || ClosesConn(frames[0]) then [] else [frames[0]] + Served(frames[1..])
  }

  /** The payloads of all data frames, in order. */
  function Payloads(frames: seq<Frame>): bytes {
    if frames == [] then []
    else
      (if frames[0].opcode == 1 || frames[0].opcode == 2 then frames[0].payload else []) + Payloads(frames[1..])
  }

  /** One pong for every ping, with the same payload, in order. */
  function Pongs(frames: seq<Frame>): seq<Frame> {
    if frames == [] then []
    else (if frames[0].opcode == 9 then [Frame(10, frames[0].payload)] else []) + Pongs(frames[1..])
  }

  function GoodbyeFor(f: Frame): Frame {
    Frame(8, Ascii(if f.opcode == 8 then "Client requested termination" else "Invalid opcode"))
  }

  /** What one frame does while sends succeed. */
  lemma EffectWhenReliable(e: Env, wsFd: int, peerFd: int, net: Net, f: Frame)
    requires wsFd >= 0 && peerFd >= 0 && Reliable(e, net)
    ensures var x := FrameEffect(e, wsFd, peerFd, net, f);
            && x.closes == ClosesConn(f) && Reliable(e, x.net)
            && x.net.peer == net.peer + Payloads([f])
            && x.net.client == net.client + Wire(Pongs([f])) + if ClosesConn(f) then ServerFrame(GoodbyeFor(f)) else []
  {
    if f.opcode == PING {
      SendAndText(e, wsFd, net, Frame(PONG, f.payload));
      WireOne(Frame(PONG, f.payload));
    } else if ClosesConn(f) {
      SendAndText(e, wsFd, net, GoodbyeFor(f));
    } else if f.opcode != PONG {
      assert f.payload[..|f.payload|] == f.payload;
    }
    assert Wire([]) == [] && net.peer + [] == net.peer && net.client + [] == net.client;
    assert f.payload + [] == f.payload;
  }

  /**
   Transparency: the peer is sent the payloads of all data frames in front of the first
   closing frame, the client one pong for each ping among them, and nothing else.
   */
  lemma {:induction false} Transparency(e: Env, c: Conn, frames: seq<Frame>)
    requires c.state.Open? && c.wsFd >= 0 && c.peerFd >= 0 && Reliable(e, c.net)
    ensures var d := ActAll(e, c, frames);
            var served := Served(frames);
            && d.net.peer == c.net.peer + Payloads(served)
            && d.net.client == c.net.client + Wire(Pongs(served))
                             + (if served == frames then [] else ServerFrame(GoodbyeFor(frames[|served|])))
            && (d.state.Open? <==> served == frames)
    decreases |frames|
  {
    if frames == [] {
      assert c.net.peer + [] == c.net.peer && c.net.client + Wire([]) + [] == c.net.client;
    } else {
      var f, rest := frames[0], frames[1..];
      ServedStep(frames);
      EffectWhenReliable(e, c.wsFd, c.peerFd, c.net, f);
      var d := Act(e, c, f);
      if ClosesConn(f) {
        ClosingFrame(c.net, d.net, f);
      } else {
        Transparency(e, d, rest);
        TransparencyStep(c.net, d.net, f, Served(rest));
      }
    }
  }

  lemma ServedStep(frames: seq<Frame>)
    requires frames != []
    ensures ClosesConn(frames[0]) ==> Served(frames) == [] && frames != []
    ensures !ClosesConn(frames[0]) ==>
      && Served(frames) == [frames[0]] + Served(frames[1..])
      && (Served(frames) == frames <==> Served(frames[1..]) == frames[1..])
      && (Served(frames) != frames ==> frames[|Served(frames)|] == frames[1..][|Served(frames[1..])|])
  {
    if !ClosesConn(frames[0]) {
      assert frames == [frames[0]] + frames[1..];
      var served := Served(frames);
      assert served[1..] == Served(frames[1..]);
    }
  }

  lemma ClosingFrame(n: Net, m: Net, f: Frame)
    requires m.peer == n.peer + Payloads([f]) && ClosesConn(f)
    requires m.client == n.client + Wire(Pongs([f])) + ServerFrame(GoodbyeFor(f))
    ensures m.peer == n.peer + Payloads([]) && m.client == n.client + Wire(Pongs([])) + ServerFrame(GoodbyeFor(f))
  {
    assert [f][1..] == [];
    assert Pongs([f]) == Pongs([]) && Payloads([f]) == Payloads([]);
  }

  /** Logs that grow by one frame's share grow by the share of the whole. */
  lemma TransparencyStep(n: Net, m: Net, f: Frame, rest: seq<Frame>)
    requires m.peer == n.peer + Payloads([f]) && m.client == n.client + Wire(Pongs([f]))
    ensures m.peer + Payloads(rest) == n.peer + Payloads([f] + rest)
    ensures m.client + Wire(Pongs(rest)) == n.client + Wire(Pongs([f] + rest))
  {
    SharesAdd(f, rest);
    PrintAppend(ServerFrame, Pongs([f]), Pongs(rest));
    Regroup(n.peer, Payloads([f]), Payloads(rest));
    Regroup(n.client, Wire(Pongs([f])), Wire(Pongs(rest)));
  }

  lemma SharesAdd(f: Frame, rest: seq<Frame>)
    ensures Payloads([f] + rest) == Payloads([f]) + Payloads(rest)
    ensures Pongs([f] + rest) == Pongs([f]) + Pongs(rest)
  {
    assert ([f] + rest)[1..] == rest;
  }

  /** What the client is told when the connection is closed behind the served frames. */
  function Goodbye(frames: seq<Frame>, end: End<Fault>): bytes {
    var served := Served(frames);
    if served != frames then ServerFrame(GoodbyeFor(frames[|served|]))
    else
      match end
      case Halted(UnmaskedFrame) => ServerFrame(Frame(8, Ascii("Unmasked client frame")))
      case Halted(TooLong) => ServerFrame(Frame(8, Ascii("Receive size limit exceeded")))
      case _ => []
  }

  /**
   Transparency of a whole run, stated on the byte stream alone: however the stream is cut
   into reads, the peer gets the payloads of the data frames in front of the first closing
   frame, the client one pong for each ping among them, then at most one farewell.
   */
  lemma RunIsTransparent(e: Env, c: Conn, chunks: seq<bytes>)
    requires c.state.Open? && Due(c, chunks) && ReadsFit(e, c, chunks)
    requires NoWrap(c.input + Concat(chunks))
    requires c.wsFd >= 0 && c.peerFd >= 0 && Reliable(e, c.net)
    ensures var d := RunOpen(e, c, chunks);
            var cuts := CutAll(Decode, c.input + Concat(chunks));
            var served := Served(cuts.items);
            && d.net.peer == c.net.peer + Payloads(served)
            && d.net.client == c.net.client + Wire(Pongs(served)) + Goodbye(cuts.items, cuts.end)
            && (d.state.Open? <==> served == cuts.items && cuts.end.Rest?)
            && (d.state.Open? ==> d.input == cuts.end.bytes)
  {
    ChunkingDoesNotMatter(e, c, chunks);
    var cuts := CutAll(Decode, c.input + Concat(chunks));
    var c0 := c.(input := []);
    Transparency(e, c0, cuts.items);
    var d := ActAll(e, c0, cuts.items);
    if d.state.Open? {
      ActAllSockets(e, c0, cuts.items);
      FinishTells(e, d, cuts.items, cuts.end);
      var told := c.net.client + Wire(Pongs(cuts.items));
      assert told + [] == told;
    }
  }

  lemma FinishTells(e: Env, d: Conn, frames: seq<Frame>, end: End<Fault>)
    requires d.state.Open? && d.wsFd >= 0 && Reliable(e, d.net) && Served(frames) == frames
    requires end != Halted(WrappedSize)
    ensures Finish(e, d, end).net.client == d.net.client + Goodbye(frames, end)
    ensures Finish(e, d, end).net.peer == d.net.peer
  {
    if end.Halted? {
      SendAndText(e, d.wsFd, d.net,
                  Frame(CLOSE, Ascii(if end.reason.TooLong? then "Receive size limit exceeded" else "Unmasked client frame")));
    } else {
      assert d.net.client + [] == d.net.client;
    }
  }

  lemma {:induction false} ActAllSockets(e: Env, c: Conn, frames: seq<Frame>)
    requires c.state.Open? && c.wsFd >= 0 && c.peerFd >= 0 && Reliable(e, c.net)
    ensures var d := ActAll(e, c, frames);
            d.state.Open? ==> d == c.(net := d.net) && Reliable(e, d.net)
    decreases |frames|
  {
    if frames != [] {
      EffectWhenReliable(e, c.wsFd, c.peerFd, c.net, frames[0]);
      if Act(e, c, frames[0]).state.Open? {
        ActAllSockets(e, Act(e, c, frames[0]), frames[1..]);
      }
    }
  }

  /** A frame as a conforming client builds it: its choices, and what it is to say. */
  datatype Built = Built(first: byte, form: LengthForm, key: bytes, payload: bytes)

  predicate Proper(b: Built) {
    |b.key| == 4 && Fits(b.form, |b.payload|) && |ClientFrame(b.first, b.form, b.key, b.payload)| <= LIMIT
  }

  function BuiltText(b: Built): bytes {
    if |b.key| == 4 then ClientFrame(b.first, b.form, b.key, b.payload) else []
  }

  function Meaning(b: Built): Frame {
    Frame(b.first as nat % 16, b.payload)
  }

  function Meanings(built: seq<Built>): (r: seq<Frame>)
    ensures |r| == |built|
  {
    if built == [] then [] else [Meaning(built[0])] + Meanings(built[1..])
  }

  lemma DecodeBuilt(b: Built, rest: bytes)
    requires Proper(b)
    ensures Decode(BuiltText(b) + rest) == Take(Meaning(b), |BuiltText(b)|)
    ensures |BuiltText(b)| > 0
  {
    var text := BuiltText(b);
    var n := Min(|text + rest|, LIMIT);
    assert (text + rest)[..n] == text + rest[..n - |text|];
    var sent := Mask(b.key, b.payload);
    MaskExactly(b.key, b.payload, sent);
    ClientRoundTrip(b.first, b.form, b.key, b.payload, sent, rest[..n - |text|]);
  }

  /** Frames built by the book and fitting the buffer decode one by one to what was meant. */
  lemma {:induction false} ClientWireRoundTrip(built: seq<Built>, rest: bytes)
    requires forall b :: b in built ==> Proper(b)
    ensures CutAll(Decode, PrintAll(BuiltText, built) + rest) == Prepend(Meanings(built), CutAll(Decode, rest))
  {
    var c := CutAll(Decode, rest);
    if built == [] {
      assert PrintAll(BuiltText, built) + rest == rest && [] + c.items == c.items;
    } else {
      var b, more := built[0], built[1..];
      var tail := PrintAll(BuiltText, more) + rest;
      Regroup(BuiltText(b), PrintAll(BuiltText, more), rest);
      ClientWireRoundTrip(more, rest);
      DecodeBuilt(b, tail);
      CutOne(Decode, Meaning(b), BuiltText(b), tail);
      Regroup([Meaning(b)], Meanings(more), c.items);
    }
  }

  /**
   From client to peer: what a conforming client sends reaches the peer as the payloads of
   its data frames up to the first closing frame, whatever keys and length forms it chose
   and however the network cut its stream.
   */
  lemma ClientReachesPeer(e: Env, c: Conn, built: seq<Built>, chunks: seq<bytes>)
    requires c.state.Open? && c.input == [] && ReadsFit(e, c, chunks)
    requires forall b :: b in built ==> Proper(b)
    requires Concat(chunks) == PrintAll(BuiltText, built)
    requires c.wsFd >= 0 && c.peerFd >= 0 && Reliable(e, c.net)
    ensures var d, served := RunOpen(e, c, chunks), Served(Meanings(built));
            && d.net.peer == c.net.peer + Payloads(served)
            && (d.state.Open? <==> |served| == |built|)
            && (d.state.Open? ==> d.net.client == c.net.client + Wire(Pongs(served)))
  {
    ClientWireRoundTrip(built, []);
    var s := Concat(chunks);
    assert PrintAll(BuiltText, built) + [] == s && c.input + s == s;
    assert CutAll(Decode, []) == Cuts([], Rest([]));
    assert Meanings(built) + [] == Meanings(built);
    RunIsTransparent(e, c, chunks);
    var n := c.net.client + Wire(Pongs(Served(Meanings(built))));
    assert n + [] == n;
  }

  lemma ServedFirst(f: Frame, rest: seq<Frame>)
    ensures Payloads(Served([f] + rest)) == if ClosesConn(f) then [] else Payloads([f]) + Payloads(Served(rest))
    ensures ClosesConn(f) ==> Payloads([f]) == []
  {
    var all := [f] + rest;
    assert all[1..] == rest;
    assert [f][1..] == [];
    if !ClosesConn(f) {
      ServedStep(all);
      SharesAdd(f, Served(rest));
    }
  }

  /** Whichever sends fail: what the peer got is a prefix of what it should get. */
  lemma {:induction false} PeerGetsPrefix(e: Env, c: Conn, frames: seq<Frame>)
    requires c.state.Open? && c.peerFd >= 0
    ensures ActAll(e, c, frames).net.peer <= c.net.peer + Payloads(Served(frames))
    decreases |frames|
  {
    if frames != [] {
      var f, rest := frames[0], frames[1..];
      assert frames == [f] + rest;
      var d := Act(e, c, f);
      EffectIsPrefix(e, c.wsFd, c.peerFd, c.net, f);
      ServedFirst(f, rest);
      if d.state.Open? {
        PeerGetsPrefix(e, d, rest);
        Regroup(c.net.peer, Payloads([f]), Payloads(Served(rest)));
      } else {
        Lengthen(d.net.peer, c.net.peer, Payloads([f]), Payloads(Served(rest)));
      }
    }
  }

  /** A payload that does not get through to the peer, or a pong to the client, closes the connection. */
  lemma FailedSendCloses(e: Env, c: Conn, f: Frame)
    requires c.state.Open? && c.peerFd >= 0 && f.opcode in {1, 2, 9}
    ensures var failed := if f.opcode == 9 then SendFrame(e, c.wsFd, c.net, Frame(10, f.payload)).failed
                          else SendPeer(e, c.peerFd, c.net, f.payload).failed;
            Act(e, c, f).state.Closed? <==> failed
  {
  }

  lemma Lengthen(s: bytes, a: bytes, b: bytes, c: bytes)
    requires s <= a + b
    ensures s <= a + (b + c)
  {
  }

  lemma EffectIsPrefix(e: Env, wsFd: int, peerFd: int, net: Net, f: Frame)
    ensures var x := FrameEffect(e, wsFd, peerFd, net, f);
            && x.net.peer <= net.peer + Payloads([f])
            && (!x.closes && peerFd >= 0 ==> x.net.peer == net.peer + Payloads([f]))
            && (ClosesConn(f) ==> x.closes && x.net.peer == net.peer)
  {
    assert f.payload[..|f.payload|] == f.payload && f.payload + [] == f.payload;
    assert net.peer + [] == net.peer;
  }
}
