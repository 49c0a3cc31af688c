/** Whole runs of a connection, over everything that can happen to it. */
module Runs {
  import opened Bytes
  import opened Frames
  import opened Connection
  import opened Inbound
  import opened PeerStream
  import opened PeerRuns
  import opened Handshake
  import opened Upgrades
  import Separators
  import FixedLength
  import DynamicLength
  import JsonFraming
  import Requests
  import Unescape

  /**
   What can happen: a read in the HTTP phase that completes some lines and leaves bytes
   over, a read of frames, the end of the client's stream, something from the peer, the
   keep-alive timer, the end of the program.
   */
  datatype Event =
    | HttpRead(lines: seq<bytes>, left: bytes)
    | FrameRead(chunk: bytes)
    | ClientGone
    | FromPeer(input: PeerInput)
    | KeepAlive
    | Interrupt

  const PING_FRAME: Frame := Frame(PING, Ascii("PING"))

  function SendPing(e: Env, c: Conn): Conn {
    var s := SendFrame(e, c.wsFd, c.net, PING_FRAME);
    if s.failed then CloseConn(e, c.(net := s.net), Unexpected, None) else c.(net := s.net)
  }

  function ReadHttp(e: Env, c: Conn, lines: seq<bytes>, left: bytes): Conn {
    TooLongClose(e, HandleLines(e, c, lines).(input := left))
  }

  /** Framing functions do not answer negatively. */
  ghost predicate ProperEnv(e: Env) {
    forall path, offers, headers :: ProperPeer(e.query(path, offers, headers))
  }

  ghost predicate ProperPeer(p: PeerInfo) {
    p.framing.Some? ==> NonNegative(p.framing.value)
  }

  /** Both buffers hold what fits in front of their terminators, and one byte less while the connection lives. */
  ghost predicate Inv(c: Conn) {
    && Settled(c) && ProperPeer(c.peer)
    && |c.input| <= LIMIT && (!c.state.Closed? ==> |c.input| < LIMIT)
    && |c.peerBuffer| == BUFFER_SIZE && c.peerOffset <= LIMIT
  }

  /** What the main loop lets happen: reads only on live descriptors, in the right phase, and within the room left. */
  predicate Possible(c: Conn, event: Event) {
    match event
    case HttpRead(_, left) => (c.state.New? || c.state.Http?) && |left| <= LIMIT
    case FrameRead(chunk) => c.state.Open? && 0 < |chunk| && |c.input| + |chunk| <= LIMIT
    case ClientGone => c.wsFd >= 0
    case FromPeer(input) => c.state.Open? && (input.Chunk? ==> FitsPeer(c, input.data))
    case KeepAlive => true
    case Interrupt => true
  }

  function Step(e: Env, c: Conn, event: Event): Conn
    requires Inv(c) && Possible(c, event)
  {
    match event
    case HttpRead(lines, left) => ReadHttp(e, c, lines, left)
    case FrameRead(chunk) => ReadOpen(e, c, chunk)
    case ClientGone => CloseConn(e, c, Unexpected, None)
    case FromPeer(input) => PeerData(e, c, input).conn
    case KeepAlive => SendPing(e, c)
    case Interrupt => CloseConn(e, c, Reason.Shutdown, Some(Ascii("Shutting down")))
  }

  /** Nothing more is sent once the connection is closed. */
  ghost predicate Forward(c: Conn, d: Conn) {
    && Rank(d.state) >= Rank(c.state)
    && (c.state.Closed? ==> d.net.client == c.net.client && d.net.peer == c.net.peer)
  }

  lemma ClosedIsSafe(e: Env, c: Conn, code: Reason, reason: Option<bytes>)
    requires Settled(c) && |c.peerBuffer| == BUFFER_SIZE
    ensures Inv(CloseConn(e, c, code, reason)) && Forward(c, CloseConn(e, c, code, reason))
  {
    CloseSettled(e, c, code, reason);
  }

  lemma PingIsSafe(e: Env, c: Conn)
    requires Inv(c)
    ensures Inv(SendPing(e, c)) && Forward(c, SendPing(e, c))
  {
    var s := SendFrame(e, c.wsFd, c.net, PING_FRAME);
    SendFrameGrows(e, c.wsFd, c.net, PING_FRAME);
    if c.wsFd < 0 {
      ClosedSendsFail(e, c.wsFd, c.net, PING_FRAME);
    }
    ClosedIsSafe(e, c.(net := s.net), Unexpected, None);
  }

  /** Handling lines leaves the buffers alone, unless it closes, and takes peers from the backend only. */
  ghost predicate SamePeerSide(c: Conn, d: Conn) {
    d.peerBuffer == c.peerBuffer && (d.peerOffset == c.peerOffset || d.peerOffset == 0) && ProperPeer(d.peer)
  }

  /**
   Of the framing functions that come with the program only `separator` can answer negatively,
   and that exactly if its configuration string has a hexadecimal escape that is cut short.
   So peers with any of the others are proper.
   */
  lemma ShippedPeersAreProper(config: bytes, line: string, n: nat, o: DynamicLength.Options)
    ensures NonNegative(Separators.Auto()) && NonNegative(Separators.Binary()) && NonNegative(Separators.Newline(line))
    ensures NonNegative(FixedLength.FixedLength(n)) && NonNegative(DynamicLength.Dynamic(o))
    ensures NonNegative(JsonFraming.Json())
    ensures NonNegative(Separators.Separated(config)) <==> Unescape.Replaced(config, 0).Some?
  {
    Separators.AutoTakesAll();
    Separators.NewlineSearches(line);
    Separators.SeparatedAnswers(config);
    DynamicLength.DynamicKeeps(o);
    JsonFraming.JsonAnswers();
  }

  lemma UpgradePeerSide(e: Env, c: Conn)
    requires ProperEnv(e) && ProperPeer(c.peer)
    ensures SamePeerSide(c, Upgrade(e, c))
  {
    Separators.AutoTakesAll();
    assert ProperPeer(PeerFor(e, c.path, c.offers, c.headers)) by {
      assert ProperPeer(e.query(c.path, c.offers, c.headers));
    }
  }

  lemma HandlePeerSide(e: Env, c: Conn, line: bytes)
    requires ProperEnv(e) && ProperPeer(c.peer)
    ensures SamePeerSide(c, Handle(e, c, line))
  {
    if !c.state.New? {
      match LineOf(line)
      case Empty => UpgradePeerSide(e, c);
      case HeaderLine(field) => NotePeerSide(e, c, field);
      case Folded => ClosePeerSide(e, c, HttpError, Some(Ascii("500 Header folding")));
      case Malformed => ClosePeerSide(e, c, HttpError, Some(Ascii("500 Header format")));
    }
  }

  lemma NotePeerSide(e: Env, c: Conn, f: Field)
    requires ProperPeer(c.peer)
    ensures SamePeerSide(c, Note(e, c, f))
  {
  }

  lemma ClosePeerSide(e: Env, c: Conn, code: Reason, reason: Option<bytes>)
    ensures SamePeerSide(c, CloseConn(e, c, code, reason))
  {
  }

  lemma {:induction false} LinesPeerSide(e: Env, c: Conn, lines: seq<bytes>)
    requires ProperEnv(e) && ProperPeer(c.peer)
    ensures SamePeerSide(c, HandleLines(e, c, lines))
    decreases |lines|
  {
    if lines != [] {
      LinesPeerSide(e, c, lines[..|lines| - 1]);
      HandlePeerSide(e, HandleLines(e, c, lines[..|lines| - 1]), lines[|lines| - 1]);
    }
  }

  lemma HttpIsSafe(e: Env, c: Conn, lines: seq<bytes>, left: bytes)
    requires ProperEnv(e) && Inv(c) && (c.state.New? || c.state.Http?) && |left| <= LIMIT
    ensures Inv(ReadHttp(e, c, lines, left)) && Forward(c, ReadHttp(e, c, lines, left))
  {
    LinesForward(e, c, lines);
    LinesPeerSide(e, c, lines);
    var d := HandleLines(e, c, lines).(input := left);
    if |left| >= LIMIT {
      ClosedIsSafe(e, d, SizeLimit, Some(Ascii("Receive size limit exceeded")));
    }
  }

  /** A frame changes the sockets only, or closes. */
  lemma {:induction false} FramesAreSafe(e: Env, c: Conn)
    requires Settled(c) && c.state.Open? && |c.peerBuffer| == BUFFER_SIZE
    ensures var d := HandleFrames(e, c);
            if d.state.Open? then d == c.(input := d.input, net := d.net) && |d.input| <= |c.input|
            else Inv(d) && d.state.Closed?
    decreases |c.input|
  {
    if Parse(c.input).Complete? {
      LoopGoesOn(e, c);
      ActIsSafe(e, c, Parse(c.input).frame);
      if Next(e, c).state.Open? {
        FramesAreSafe(e, Next(e, c));
      }
    } else if Parse(c.input).Unmasked? {
      ClosedIsSafe(e, c, Protocol, Some(Ascii("Unmasked client frame")));
    }
  }

  lemma ActIsSafe(e: Env, c: Conn, f: Frame)
    requires Settled(c) && c.state.Open? && |c.peerBuffer| == BUFFER_SIZE
    ensures var d := Act(e, c, f);
            if d.state.Open? then d == c.(net := d.net) else d.state.Closed? && Inv(d)
  {
  }

  lemma ReadIsSafe(e: Env, c: Conn, chunk: bytes)
    requires Inv(c) && c.state.Open? && |c.input| + |chunk| <= LIMIT
    ensures Inv(ReadOpen(e, c, chunk)) && Forward(c, ReadOpen(e, c, chunk))
  {
    FramesAreSafe(e, c.(input := c.input + chunk));
    var d := HandleFrames(e, c.(input := c.input + chunk));
    if |d.input| >= LIMIT {
      ClosedIsSafe(e, d, SizeLimit, Some(Ascii("Receive size limit exceeded")));
    }
  }

  lemma PeerIsSafe(e: Env, c: Conn, input: PeerInput)
    requires Inv(c) && c.state.Open? && (input.Chunk? ==> FitsPeer(c, input.data))
    ensures Inv(PeerData(e, c, input).conn) && Forward(c, PeerData(e, c, input).conn)
  {
    match input
    case Failure => ClosedIsSafe(e, c, Unexpected, Some(Ascii("Peer connection failed")));
    case EndOfFile => ClosedIsSafe(e, c, Normal, Some(Ascii("Peer closed connection")));
    case Chunk(data) => ChunkIsSafe(e, c, data);
  }

  lemma ChunkIsSafe(e: Env, c: Conn, data: bytes)
    requires Inv(c) && c.state.Open? && FitsPeer(c, data)
    ensures Inv(PeerData(e, c, Chunk(data)).conn) && Forward(c, PeerData(e, c, Chunk(data)).conn)
  {
    var s := Loaded(c, data);
    LoopConserves(e, c.peer.framing.value, c.wsFd, c.net, s);
    var x := PeerLoop(e, c.peer.framing.value, c.wsFd, c.net, s);
    if x.how.Overran? {
      ClosedIsSafe(e, c.(peerBuffer := x.scan.buf, framingData := x.scan.data, net := x.net, peerOffset := x.scan.off),
                   Unexpected, Some(Ascii("Internal error")));
    }
  }

  /** Every event keeps the invariant and moves the connection forward. */
  lemma StepKeeps(e: Env, c: Conn, event: Event)
    requires ProperEnv(e) && Inv(c) && Possible(c, event)
    ensures Inv(Step(e, c, event)) && Forward(c, Step(e, c, event))
  {
    match event
    case HttpRead(lines, left) => HttpIsSafe(e, c, lines, left);
    case FrameRead(chunk) => ReadIsSafe(e, c, chunk);
    case ClientGone => ClosedIsSafe(e, c, Unexpected, None);
    case FromPeer(input) => PeerIsSafe(e, c, input);
    case KeepAlive => PingIsSafe(e, c);
    case Interrupt => ClosedIsSafe(e, c, Reason.Shutdown, Some(Ascii("Shutting down")));
  }

  /** Closed, with these last octets to the client and none to the peer. */
  predicate Told(c: Conn, d: Conn, text: bytes) {
    d.state.Closed? && d.net.client == c.net.client + text && d.net.peer == c.net.peer
  }

  /** What closing for a reason sends: a close frame when open, a refusal during the handshake if it is at fault. */
  function ClosingText(state: State, code: Reason, reason: string): bytes
    requires |reason| <= 125
  {
    if state.Open? then [0x88, |reason| as byte] + Ascii(reason)
    else if state.Http? && code.HttpError? then Requests.RefusalText(reason)
    else []
  }

  lemma ClosingInOctets(e: Env, c: Conn, code: Reason, reason: string)
    requires Settled(c) && Reliable(e, c.net) && |reason| <= 125
    ensures Told(c, CloseConn(e, c, code, Some(Ascii(reason))), ClosingText(c.state, code, reason))
    ensures Told(c, CloseConn(e, c, code, None), [])
  {
    assert c.net.client + [] == c.net.client;
    if c.state.Open? {
      NamedOctets(Ascii(reason));
      SendAndText(e, c.wsFd, c.net, Frame(CLOSE, Ascii(reason)));
    } else if c.state.Http? {
      Requests.RefusalIsSent(e, c.wsFd, c.net, reason);
    }
  }

  /**
   What the client of an open connection is sent, in octets, by the events that carry no data:
   the ping of the keep-alive timer, and close frames that say why.
   */
  lemma EventsInOctets(e: Env, c: Conn)
    requires Inv(c) && c.state.Open? && Reliable(e, c.net)
    ensures var d := Step(e, c, KeepAlive);
            && d == c.(net := d.net) && d.net.peer == c.net.peer
            && d.net.client == c.net.client + ([0x89, 4] + Ascii("PING"))
    ensures Told(c, Step(e, c, Interrupt), [0x88, 13] + Ascii("Shutting down"))
    ensures Told(c, Step(e, c, FromPeer(EndOfFile)), [0x88, 22] + Ascii("Peer closed connection"))
    ensures Told(c, Step(e, c, FromPeer(Failure)), [0x88, 22] + Ascii("Peer connection failed"))
    ensures Told(c, Step(e, c, ClientGone), [])
  {
    NamedOctets(Ascii("PING"));
    SendAndText(e, c.wsFd, c.net, PING_FRAME);
    ClosingInOctets(e, c, Reason.Shutdown, "Shutting down");
    ClosingInOctets(e, c, Normal, "Peer closed connection");
    ClosingInOctets(e, c, Unexpected, "Peer connection failed");
  }

  /** A run: each state comes from the one before by a possible event. */
  ghost predicate IsRun(e: Env, states: seq<Conn>, events: seq<Event>) {
    && |states| == |events| + 1
    && forall i :: 0 <= i < |events| ==> Follows(e, states[i], events[i], states[i + 1])
  }

  ghost predicate Follows(e: Env, c: Conn, event: Event, d: Conn) {
    Inv(c) ==> Possible(c, event) && d == Step(e, c, event)
  }

  /** A slot just filled. */
  predicate Accepted(c: Conn) {
    Fresh(c) && c.input == [] && |c.peerBuffer| == BUFFER_SIZE && c.peerOffset == 0 && c.peer.framing.None?
  }

  /** A keep-alive ping that does not get through closes the connection, and one that does leaves its state alone. */
  lemma PingFailureCloses(e: Env, c: Conn)
    requires Inv(c) && !c.state.Closed?
    ensures var d := Step(e, c, KeepAlive);
            if SendFrame(e, c.wsFd, c.net, Frame(9, Ascii("PING"))).failed then d.state.Closed? else d.state == c.state
  {
  }

  /** Closing leaves nothing behind for the next connection in the slot but the bytes of the peer's buffer. */
  lemma SlotIsReusable(e: Env, c: Conn, code: Reason, reason: Option<bytes>, fd: int)
    requires Inv(c) && fd >= 0
    ensures var d := CloseConn(e, c, code, reason).(state := New, wsFd := fd);
            && Accepted(d) && d.path == None && d.peer.host == None && d.peer.transport.Detect?
            && (c.peerFd >= 0 || c.framingData.NoData? ==> d.framingData == NoData)
  {
    CloseSettled(e, c, code, reason);
  }

  /**
   In every reachable state, whatever the client, the peer, the backend and the sockets do:
   open comes with a peer's descriptor and closed with none, the state only moves forward,
   a closed connection sends nothing any more, and both buffers keep within their bounds.
   */
  lemma {:induction false} RunKeeps(e: Env, states: seq<Conn>, events: seq<Event>, i: nat, j: nat)
    requires ProperEnv(e) && IsRun(e, states, events) && Accepted(states[0]) && i <= j < |states|
    ensures Inv(states[i]) && Inv(states[j]) && Forward(states[i], states[j])
    decreases j
  {
    if j == 0 {
      assert Inv(states[0]);
    } else if i == j {
      RunKeeps(e, states, events, j - 1, j - 1);
      assert Follows(e, states[j - 1], events[j - 1], states[j]);
      StepKeeps(e, states[j - 1], events[j - 1]);
    } else {
      RunKeeps(e, states, events, i, j - 1);
      assert Follows(e, states[j - 1], events[j - 1], states[j]);
      StepKeeps(e, states[j - 1], events[j - 1]);
    }
  }
}
