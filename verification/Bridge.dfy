/**
 Both directions at once: reads from the client and from the peer in any order and of any
 sizes on one open connection.
 */
module Bridge {
  import opened Bytes
  import opened Cutting
  import opened Frames
  import opened Connection
  import opened Inbound
  import opened PeerStream
  import opened PeerRuns

  datatype Input = Client(chunk: bytes) | Peer(data: bytes)

  /** What was said to the client: an answer to a ping, or a segment of the peer's stream. */
  datatype Said = Answer(frame: Frame) | Segment(frame: Frame)

  function Answers(log: seq<Said>): seq<Frame> {
    if log == [] then [] else (if log[0].Answer? then [log[0].frame] else []) + Answers(log[1..])
  }

  function Segments(log: seq<Said>): seq<Frame> {
    if log == [] then [] else (if log[0].Segment? then [log[0].frame] else []) + Segments(log[1..])
  }

  /** The frames on the client's wire; discarded segments are not. */
  function OnWire(log: seq<Said>): seq<Frame> {
    if log == [] then []
    else (if log[0].Segment? && log[0].frame.opcode == DISCARD then [] else [log[0].frame]) + OnWire(log[1..])
  }

  lemma {:induction false} LogAppend(a: seq<Said>, b: seq<Said>)
    ensures Answers(a + b) == Answers(a) + Answers(b)
    ensures Segments(a + b) == Segments(a) + Segments(b)
    ensures OnWire(a + b) == OnWire(a) + OnWire(b)
    decreases |a|
  {
    if a == [] {
      assert a + b == b;
    } else {
      assert (a + b)[1..] == a[1..] + b;
      LogAppend(a[1..], b);
      var x := [a[0].frame];
      Regroup(if a[0].Answer? then x else [], Answers(a[1..]), Answers(b));
      Regroup(if a[0].Segment? then x else [], Segments(a[1..]), Segments(b));
      Regroup(if a[0].Segment? && a[0].frame.opcode == DISCARD then [] else x, OnWire(a[1..]), OnWire(b));
    }
  }

  function AsAnswers(frames: seq<Frame>): seq<Said> {
    if frames == [] then [] else [Answer(frames[0])] + AsAnswers(frames[1..])
  }

  function AsSegments(frames: seq<Frame>): seq<Said> {
    if frames == [] then [] else [Segment(frames[0])] + AsSegments(frames[1..])
  }

  lemma {:induction false} AnswersOnly(frames: seq<Frame>)
    ensures Answers(AsAnswers(frames)) == frames && Segments(AsAnswers(frames)) == []
    ensures OnWire(AsAnswers(frames)) == frames
  {
    if frames != [] {
      AnswersOnly(frames[1..]);
      assert AsAnswers(frames)[1..] == AsAnswers(frames[1..]);
    }
  }

  lemma {:induction false} SegmentsOnly(frames: seq<Frame>)
    ensures Answers(AsSegments(frames)) == [] && Segments(AsSegments(frames)) == frames
    ensures OnWire(AsSegments(frames)) == Sent(frames)
  {
    if frames != [] {
      SegmentsOnly(frames[1..]);
      assert AsSegments(frames)[1..] == AsSegments(frames[1..]);
    }
  }

  /** The connection and the log after some reads; nothing is read once it is closed. */
  datatype Duplex = Duplex(conn: Conn, log: seq<Said>)

  predicate Fits(c: Conn, input: Input) {
    match input
    case Client(chunk) => 0 < |chunk| && |c.input + chunk| <= LIMIT
    case Peer(data) => FitsPeer(c, data)
  }

  function React(e: Env, c: Conn, input: Input): Duplex
    requires Bridged(c) && Fits(c, input)
  {
    match input
    case Client(chunk) =>
      Duplex(ReadOpen(e, c, chunk), AsAnswers(Pongs(Served(CutAll(Decode, c.input + chunk).items))))
    case Peer(data) =>
      var r := PeerData(e, c, Chunk(data));
      Duplex(r.conn, AsSegments(r.frames))
  }

  /** A read leaves the connection forwarding, or closes it. */
  lemma ReactKeeps(e: Env, c: Conn, input: Input)
    requires Bridged(c) && Fits(c, input)
    ensures Bridged(React(e, c, input).conn) || React(e, c, input).conn.state.Closed?
  {
    match input
    case Client(chunk) =>
      LoopKeepsRest(e, c.(input := c.input + chunk));
      OpenOrClosed(e, c.(input := c.input + chunk));
    case Peer(data) => PeerDataKeeps(e, c, data);
  }

  lemma {:induction false} OpenOrClosed(e: Env, c: Conn)
    requires c.state.Open?
    ensures HandleFrames(e, c).state.Open? || HandleFrames(e, c).state.Closed?
    decreases |c.input|
  {
    if Parse(c.input).Complete? {
      LoopGoesOn(e, c);
      if Next(e, c).state.Open? {
        OpenOrClosed(e, Next(e, c));
      }
    }
  }

  /** The stream of the client, and that of the peer, in these reads. */
  function FromClient(inputs: seq<Input>): bytes {
    if inputs == [] then [] else (if inputs[0].Client? then inputs[0].chunk else []) + FromClient(inputs[1..])
  }

  function FromPeer(inputs: seq<Input>): bytes {
    if inputs == [] then [] else (if inputs[0].Peer? then inputs[0].data else []) + FromPeer(inputs[1..])
  }

  /** The connection forwards, and its sends go through. */
  ghost predicate Ready(e: Env, c: Conn) {
    Bridged(c) && Reliable(e, c.net)
  }

  /**
   From `c` to `d` the client sent `a` and the peer `b`: the peer was sent the payloads of
   the client's frames, each ping was answered, the segments of the peer's stream and the
   residue make up what it sent, and all this is on the client's wire in the order of the log.
   */
  ghost predicate Accounts(e: Env, c: Conn, a: bytes, b: bytes, d: Conn, log: seq<Said>)
    requires Bridged(c)
  {
    && Ready(e, d) && Decode(d.input).Wait?
    && var cuts := CutAll(Decode, c.input + a);
    && cuts.end == Rest(d.input) && Served(cuts.items) == cuts.items
    && d.net.peer == c.net.peer + Payloads(cuts.items)
    && Answers(log) == Pongs(cuts.items)
    && Spoken(Segments(log)) + Residue(d) == Residue(c) + b
    && d.net.client == c.net.client + Wire(OnWire(log))
    && (forall f :: f in OnWire(log) ==> Sendable(f))
  }

  /** The same of the peer's side alone: what the client has sent is not looked at. */
  ghost predicate PeerAccounts(e: Env, c: Conn, b: bytes, d: Conn, log: seq<Said>)
    requires Bridged(c)
  {
    && Ready(e, d) && d.input == c.input && d.net.peer == c.net.peer && Answers(log) == []
    && Spoken(Segments(log)) + Residue(d) == Residue(c) + b
    && d.net.client == c.net.client + Wire(OnWire(log))
    && (forall f :: f in OnWire(log) ==> Sendable(f))
  }

  predicate HasClient(inputs: seq<Input>) {
    inputs != [] && (inputs[0].Client? || HasClient(inputs[1..]))
  }

  /** What the client has sent is looked at when it is read from; the handshake may have left complete frames. */
  predicate Looks(c: Conn, inputs: seq<Input>) {
    Decode(c.input).Wait? || HasClient(inputs)
  }

  ghost predicate AccountsFor(e: Env, c: Conn, inputs: seq<Input>, x: Duplex)
    requires Bridged(c)
  {
    if Looks(c, inputs) then Accounts(e, c, FromClient(inputs), FromPeer(inputs), x.conn, x.log)
    else PeerAccounts(e, c, FromPeer(inputs), x.conn, x.log)
  }

  lemma {:induction false} PayloadsAppend(a: seq<Frame>, b: seq<Frame>)
    ensures Payloads(a + b) == Payloads(a) + Payloads(b)
    decreases |a|
  {
    if a == [] {
      assert a + b == b;
    } else {
      assert (a + b)[1..] == a[1..] + b;
      PayloadsAppend(a[1..], b);
      var f := a[0];
      Regroup(if f.opcode == TEXT || f.opcode == BINARY then f.payload else [], Payloads(a[1..]), Payloads(b));
    }
  }

  lemma {:induction false} PongsAppend(a: seq<Frame>, b: seq<Frame>)
    ensures Pongs(a + b) == Pongs(a) + Pongs(b)
    decreases |a|
  {
    if a == [] {
      assert a + b == b;
    } else {
      assert (a + b)[1..] == a[1..] + b;
      PongsAppend(a[1..], b);
      Regroup(if a[0].opcode == PING then [Frame(PONG, a[0].payload)] else [], Pongs(a[1..]), Pongs(b));
    }
  }

  lemma {:induction false} ServedAll(frames: seq<Frame>)
    ensures Served(frames) == frames <==> forall f :: f in frames ==> !ClosesConn(f)
  {
    if frames != [] {
      ServedAll(frames[1..]);
      assert frames == [frames[0]] + frames[1..];
      assert frames[0] in frames;
      if !ClosesConn(frames[0]) {
        assert Served(frames) == [frames[0]] + Served(frames[1..]);
        assert Served(frames) == frames <==> Served(frames[1..]) == frames[1..];
      }
    }
  }

  lemma FramesAppend(a: seq<Frame>, b: seq<Frame>)
    requires Served(a) == a && Served(b) == b
    ensures Payloads(a + b) == Payloads(a) + Payloads(b) && Pongs(a + b) == Pongs(a) + Pongs(b)
    ensures Served(a + b) == a + b
  {
    PayloadsAppend(a, b);
    PongsAppend(a, b);
    ServedAll(a);
    ServedAll(b);
    ServedAll(a + b);
  }

  /** Accounts add up. */
  lemma AccountsAdd(e: Env, c: Conn, a: bytes, b: bytes, d: Conn, log: seq<Said>,
                    a2: bytes, b2: bytes, f: Conn, log2: seq<Said>)
    requires Bridged(c) && Accounts(e, c, a, b, d, log) && Accounts(e, d, a2, b2, f, log2)
    ensures Accounts(e, c, a + a2, b + b2, f, log + log2)
  {
    DecodeStable();
    Regroup(c.input, a, a2);
    CutAppend(Decode, c.input + a, a2);
    var x, y := CutAll(Decode, c.input + a), CutAll(Decode, d.input + a2);
    FramesAppend(x.items, y.items);
    LogAppend(log, log2);
    Regroup(c.net.peer, Payloads(x.items), Payloads(y.items));
    PrintAppend(ServerFrame, OnWire(log), OnWire(log2));
    Regroup(c.net.client, Wire(OnWire(log)), Wire(OnWire(log2)));
    SpokenAppend(Segments(log), Segments(log2));
    PeerAdds(Residue(c), b, b2, Spoken(Segments(log)), Residue(d), Spoken(Segments(log2)), Residue(f));
  }

  /** Reads from the peer in front of the first one from the client. */
  lemma PeerThenAccounts(e: Env, c: Conn, b: bytes, d: Conn, log: seq<Said>, a2: bytes, b2: bytes, f: Conn,
                         log2: seq<Said>)
    requires Bridged(c) && PeerAccounts(e, c, b, d, log) && Accounts(e, d, a2, b2, f, log2)
    ensures Accounts(e, c, a2, b + b2, f, log + log2)
  {
    LogsAdd(c, b, d, log, b2, f, log2);
    assert [] + Answers(log2) == Answers(log2);
  }

  lemma PeerThenPeer(e: Env, c: Conn, b: bytes, d: Conn, log: seq<Said>, b2: bytes, f: Conn, log2: seq<Said>)
    requires Bridged(c) && PeerAccounts(e, c, b, d, log) && PeerAccounts(e, d, b2, f, log2)
    ensures PeerAccounts(e, c, b + b2, f, log + log2)
  {
    LogsAdd(c, b, d, log, b2, f, log2);
  }

  /** The client's wire and the peer's stream over two parts of a run. */
  lemma LogsAdd(c: Conn, b: bytes, d: Conn, log: seq<Said>, b2: bytes, f: Conn, log2: seq<Said>)
    requires c.peerOffset <= |c.peerBuffer| && d.peerOffset <= |d.peerBuffer| && f.peerOffset <= |f.peerBuffer|
    requires Spoken(Segments(log)) + Residue(d) == Residue(c) + b
    requires Spoken(Segments(log2)) + Residue(f) == Residue(d) + b2
    requires d.net.client == c.net.client + Wire(OnWire(log)) && f.net.client == d.net.client + Wire(OnWire(log2))
    ensures Answers(log + log2) == Answers(log) + Answers(log2) && OnWire(log + log2) == OnWire(log) + OnWire(log2)
    ensures Spoken(Segments(log + log2)) + Residue(f) == Residue(c) + (b + b2)
    ensures f.net.client == c.net.client + Wire(OnWire(log + log2))
  {
    LogAppend(log, log2);
    PrintAppend(ServerFrame, OnWire(log), OnWire(log2));
    Regroup(c.net.client, Wire(OnWire(log)), Wire(OnWire(log2)));
    SpokenAppend(Segments(log), Segments(log2));
    PeerAdds(Residue(c), b, b2, Spoken(Segments(log)), Residue(d), Spoken(Segments(log2)), Residue(f));
  }

  lemma PeerAdds(had: bytes, b: bytes, b2: bytes, said: bytes, kept: bytes, more: bytes, left: bytes)
    requires said + kept == had + b && more + left == kept + b2
    ensures said + more + left == had + (b + b2)
  {
    Regroup(said, more, left);
    Regroup(said, kept, b2);
    Regroup(had, b, b2);
  }

  lemma {:induction false} PongsAreSmall(frames: seq<Frame>)
    requires forall f :: f in frames ==> |f.payload| <= LIMIT
    ensures forall f :: f in Pongs(frames) ==> Sendable(f)
  {
    if frames != [] {
      assert forall f :: f in frames[1..] ==> f in frames;
      PongsAreSmall(frames[1..]);
      assert frames[0] in frames;
    }
  }

  lemma {:induction false} DecodedAreSmall(s: bytes)
    ensures forall f :: f in CutAll(Decode, s).items ==> |f.payload| <= LIMIT
    decreases |s|
  {
    if Decode(s).Take? {
      DecodedAreSmall(s[Decode(s).size..]);
    }
  }

  /** A read from the client that leaves the connection open. */
  lemma ClientAccounts(e: Env, c: Conn, chunk: bytes)
    requires Ready(e, c) && Fits(c, Client(chunk)) && NoWrap(c.input + chunk)
    ensures var r := React(e, c, Client(chunk));
            r.conn.state.Open? ==> Accounts(e, c, chunk, [], r.conn, r.log)
  {
    var cuts := CutAll(Decode, c.input + chunk);
    var d := ReadOpen(e, c, chunk);
    if d.state.Open? {
      OpenRead(e, c, chunk, cuts);
      AnswersOnly(Pongs(cuts.items));
      DecodedAreSmall(c.input + chunk);
      PongsAreSmall(cuts.items);
      NothingFromPeer(Residue(c));
    }
  }

  lemma NothingFromPeer(had: bytes)
    ensures Spoken([]) + had == had + []
  {
  }

  lemma OpenRead(e: Env, c: Conn, chunk: bytes, cuts: Cuts<Frame, Fault>)
    requires Ready(e, c) && Fits(c, Client(chunk)) && NoWrap(c.input + chunk) && cuts == CutAll(Decode, c.input + chunk)
    requires ReadOpen(e, c, chunk).state.Open?
    ensures var d := ReadOpen(e, c, chunk);
            && cuts.end == Rest(d.input) && Served(cuts.items) == cuts.items && Ready(e, d) && Decode(d.input).Wait?
            && Residue(d) == Residue(c)
            && d.net.peer == c.net.peer + Payloads(cuts.items)
            && d.net.client == c.net.client + Wire(Pongs(cuts.items))
  {
    var s := c.input + chunk;
    ReadIsOnePass(e, c, chunk);
    var c0 := c.(input := []);
    Transparency(e, c0, cuts.items);
    ActAllSockets(e, c0, cuts.items);
    DecodeStable();
    if cuts.end.Rest? {
      CutRest(Decode, s);
    }
    var told := c.net.client + Wire(Pongs(cuts.items));
    assert told + [] == told;
  }

  /** A read from the peer that leaves the connection open. */
  lemma PeerReadAccounts(e: Env, c: Conn, data: bytes)
    requires Ready(e, c) && Fits(c, Peer(data))
    ensures var r := React(e, c, Peer(data));
            r.conn.state.Open? ==> PeerAccounts(e, c, data, r.conn, r.log)
  {
    ReadConserves(e, c, data);
    PeerDataKeeps(e, c, data);
    var frames := PeerData(e, c, Chunk(data)).frames;
    SegmentsOnly(frames);
    SentIsSmall(frames);
  }

  /** With no client frame complete in the buffer there is nothing to look at. */
  lemma NothingToLookAt(e: Env, c: Conn, b: bytes, d: Conn, log: seq<Said>)
    requires Bridged(c) && PeerAccounts(e, c, b, d, log) && Decode(c.input).Wait?
    ensures Accounts(e, c, [], b, d, log)
  {
    assert c.input + [] == c.input;
    assert CutAll(Decode, c.input) == Cuts([], Rest(c.input));
    assert c.net.peer + [] == c.net.peer;
  }

  function Drive(e: Env, c: Conn, inputs: seq<Input>): Duplex
    requires c.state.Open? ==> Bridged(c)
    requires DriveFits(e, c, inputs)
    decreases |inputs|
  {
    if inputs == [] || !c.state.Open? then Duplex(c, [])
    else
      ReactKeeps(e, c, inputs[0]);
      var first := React(e, c, inputs[0]);
      var rest := Drive(e, first.conn, inputs[1..]);
      Duplex(rest.conn, first.log + rest.log)
  }

  /** Every read fits the room that is left. */
  ghost predicate DriveFits(e: Env, c: Conn, inputs: seq<Input>)
    requires c.state.Open? ==> Bridged(c)
    decreases |inputs|
  {
    inputs == [] || !c.state.Open? ||
    (Fits(c, inputs[0]) &&
     (ReactKeeps(e, c, inputs[0]);
      DriveFits(e, React(e, c, inputs[0]).conn, inputs[1..])))
  }

  /**
   The bridge as a whole: however reads from the client and the peer are cut and in
   whichever order they come, as long as the connection is open at the end, the peer has got
   the payloads of the client's data frames, the client has got the peer's stream up to the
   residue, segment by segment, and an answer to each ping; nothing else was sent.  Frames that
   the handshake has left in the buffer are among the client's once the client is read from.
   */
  lemma {:induction false} BothWays(e: Env, c: Conn, inputs: seq<Input>)
    requires Ready(e, c) && DriveFits(e, c, inputs) && NoWrap(c.input + FromClient(inputs))
    requires Drive(e, c, inputs).conn.state.Open?
    ensures AccountsFor(e, c, inputs, Drive(e, c, inputs))
    decreases |inputs|
  {
    if inputs == [] {
      NothingAccounts(e, c);
    } else {
      var input, more := inputs[0], inputs[1..];
      assert inputs == [input] + more;
      FirstRead(e, c, input, more);
      var first := React(e, c, input);
      BothWays(e, first.conn, more);
      AccountsOn(e, c, input, first, more, Drive(e, first.conn, more));
    }
  }

  /** A read and those behind it. */
  lemma AccountsOn(e: Env, c: Conn, input: Input, first: Duplex, more: seq<Input>, rest: Duplex)
    requires Bridged(c) && AccountsFor(e, c, [input], first) && AccountsFor(e, first.conn, more, rest)
    ensures AccountsFor(e, c, [input] + more, Duplex(rest.conn, first.log + rest.log))
  {
    var a, b := FromClient([input]), FromPeer([input]);
    FirstOf(input, more);
    if Looks(c, [input]) {
      AccountsAdd(e, c, a, b, first.conn, first.log, FromClient(more), FromPeer(more), rest.conn, rest.log);
    } else {
      assert a + FromClient(more) == FromClient(more);
      if Looks(first.conn, more) {
        PeerThenAccounts(e, c, b, first.conn, first.log, FromClient(more), FromPeer(more), rest.conn, rest.log);
      } else {
        PeerThenPeer(e, c, b, first.conn, first.log, FromPeer(more), rest.conn, rest.log);
      }
    }
  }

  lemma NothingAccounts(e: Env, c: Conn)
    requires Ready(e, c)
    ensures AccountsFor(e, c, [], Duplex(c, []))
  {
    assert Wire([]) == [] && c.net.client + [] == c.net.client;
    assert Spoken([]) + Residue(c) == Residue(c) + [];
    if Decode(c.input).Wait? {
      NothingToLookAt(e, c, [], c, []);
    }
  }

  lemma StreamGoesOn(had: bytes, a: bytes, a2: bytes, left: bytes)
    requires NoWrap(had + (a + a2)) && CutAll(Decode, had + a).end == Rest(left)
    ensures NoWrap(had + a) && NoWrap(left + a2)
  {
    DecodeStable();
    Regroup(had, a, a2);
    CutAppend(Decode, had + a, a2);
  }

  /** What the last read of a connection does, which closes it with this farewell. */
  ghost predicate Ends(e: Env, c: Conn, input: Input, x: Duplex, bye: Frame)
    requires Bridged(c)
  {
    && x.conn.state.Closed? && Sendable(bye) && (forall f :: f in OnWire(x.log) ==> Sendable(f))
    && x.conn.net.client == c.net.client + Wire(OnWire(x.log)) + ServerFrame(bye)
    && match input
       case Client(chunk) =>
         var cuts := CutAll(Decode, c.input + chunk);
         && Goodbye(cuts.items, cuts.end) == ServerFrame(bye) && Segments(x.log) == []
         && x.conn.net.peer == c.net.peer + Payloads(Served(cuts.items)) && Answers(x.log) == Pongs(Served(cuts.items))
       case Peer(data) =>
         && bye == Frame(CLOSE, Ascii("Internal error")) && Answers(x.log) == []
         && x.conn.net.peer == c.net.peer && Spoken(Segments(x.log)) <= Residue(c) + data
  }

  lemma ClientEnds(e: Env, c: Conn, chunk: bytes) returns (bye: Frame)
    requires Ready(e, c) && Fits(c, Client(chunk)) && NoWrap(c.input + chunk) && ReadOpen(e, c, chunk).state.Closed?
    ensures Ends(e, c, Client(chunk), React(e, c, Client(chunk)), bye)
  {
    var cuts := CutAll(Decode, c.input + chunk);
    OneChunk(e, c, chunk);
    RunIsTransparent(e, c, [chunk]);
    AnswersOnly(Pongs(Served(cuts.items)));
    DecodedAreSmall(c.input + chunk);
    assert forall f :: f in Served(cuts.items) ==> f in cuts.items;
    PongsAreSmall(Served(cuts.items));
    bye := GoodbyeIsFrame(cuts.items, cuts.end);
  }

  lemma OneChunk(e: Env, c: Conn, chunk: bytes)
    requires c.state.Open? && Fits(c, Client(chunk))
    ensures ReadsFit(e, c, [chunk]) && RunOpen(e, c, [chunk]) == ReadOpen(e, c, chunk) && Concat([chunk]) == chunk
  {
    assert [chunk][0] == chunk && [chunk][1..] == [];
    assert Concat([]) == [] && chunk + [] == chunk;
    var d := ReadOpen(e, c, chunk);
    assert RunOpen(e, d, []) == d && ReadsFit(e, d, []);
  }

  lemma GoodbyeIsFrame(frames: seq<Frame>, end: End<Fault>) returns (bye: Frame)
    requires (Served(frames) != frames || end.Halted?) && end != Halted(WrappedSize)
    ensures Goodbye(frames, end) == ServerFrame(bye) && Sendable(bye)
  {
    if Served(frames) != frames {
      bye := GoodbyeFor(frames[|Served(frames)|]);
    } else if end.reason.TooLong? {
      bye := Frame(CLOSE, Ascii("Receive size limit exceeded"));
    } else {
      bye := Frame(CLOSE, Ascii("Unmasked client frame"));
    }
  }

  lemma PeerEnds(e: Env, c: Conn, data: bytes) returns (bye: Frame)
    requires Ready(e, c) && Fits(c, Peer(data)) && PeerData(e, c, Chunk(data)).conn.state.Closed?
    ensures Ends(e, c, Peer(data), React(e, c, Peer(data)), bye)
  {
    ReadConserves(e, c, data);
    var frames := PeerData(e, c, Chunk(data)).frames;
    SegmentsOnly(frames);
    SentIsSmall(frames);
    bye := Frame(CLOSE, Ascii("Internal error"));
  }

  /** The run that closes consists of `done`, accounted for up to `d`, and of `last`, which closes `d`. */
  ghost predicate Closes(e: Env, c: Conn, inputs: seq<Input>, x: Duplex,
                         done: seq<Input>, last: Input, d: Conn, log: seq<Said>, bye: Frame)
    requires Bridged(c)
  {
    && done + [last] <= inputs && AccountsFor(e, c, done, Duplex(d, log))
    && Fits(d, last) && Ends(e, d, last, React(e, d, last), bye)
    && x == Duplex(React(e, d, last).conn, log + React(e, d, last).log)
  }

  /**
   A run that closes: up to its last read it is accounted for like one that stays open, and
   the last read sends what stands in front of the fault, and then one farewell.
   */
  lemma {:induction false} BothWaysClosing(e: Env, c: Conn, inputs: seq<Input>)
    returns (done: seq<Input>, last: Input, d: Conn, log: seq<Said>, bye: Frame)
    requires Ready(e, c) && DriveFits(e, c, inputs) && NoWrap(c.input + FromClient(inputs))
    requires Drive(e, c, inputs).conn.state.Closed?
    ensures Closes(e, c, inputs, Drive(e, c, inputs), done, last, d, log, bye)
    decreases |inputs|
  {
    var input, more := inputs[0], inputs[1..];
    assert inputs == [input] + more;
    FirstRead(e, c, input, more);
    var first := React(e, c, input);
    if first.conn.state.Open? {
      done, last, d, log, bye := BothWaysClosing(e, first.conn, more);
      ClosesOn(e, c, input, more, first, Drive(e, first.conn, more), done, last, d, log, bye);
      done, log := [input] + done, first.log + log;
    } else {
      bye := ClosesNow(e, c, input, more);
      done, last, d, log := [], input, c, [];
      assert first.log + [] == first.log;
    }
  }

  /** The first read of a run. */
  lemma FirstRead(e: Env, c: Conn, input: Input, more: seq<Input>)
    requires Ready(e, c) && Fits(c, input) && NoWrap(c.input + FromClient([input] + more))
    ensures NoWrap(c.input + FromClient([input]))
    ensures var x := React(e, c, input);
            && (Bridged(x.conn) || x.conn.state.Closed?)
            && (x.conn.state.Open? ==>
                  && AccountsFor(e, c, [input], x)
                  && NoWrap(x.conn.input + FromClient(more)))
  {
    var a, a2 := FromClient([input]), FromClient(more);
    FirstOf(input, more);
    OnePassAppend(e, c, c.input + a, a2) by { Regroup(c.input, a, a2); }
    ReactKeeps(e, c, input);
    if React(e, c, input).conn.state.Open? {
      FirstAccounts(e, c, input);
      if input.Client? {
        StreamGoesOn(c.input, a, a2, React(e, c, input).conn.input);
      } else {
        PeerReadAccounts(e, c, input.data);
        assert a + a2 == a2;
      }
    }
  }

  lemma {:induction false} ClosesNow(e: Env, c: Conn, input: Input, more: seq<Input>) returns (bye: Frame)
    requires Ready(e, c) && Fits(c, input) && NoWrap(c.input + FromClient([input]))
    requires React(e, c, input).conn.state.Closed?
    ensures Closes(e, c, [input] + more, React(e, c, input), [], input, c, [], bye)
  {
    NothingAccounts(e, c);
    assert [] + [input] <= [input] + more && [] + React(e, c, input).log == React(e, c, input).log;
    bye := LastEnds(e, c, input);
  }

  lemma {:induction false} ClosesOn(e: Env, c: Conn, input: Input, more: seq<Input>, first: Duplex, x: Duplex,
                                    done: seq<Input>, last: Input, d: Conn, log: seq<Said>, bye: Frame)
    requires Bridged(c) && AccountsFor(e, c, [input], first) && Bridged(first.conn)
    requires Closes(e, first.conn, more, x, done, last, d, log, bye)
    ensures Closes(e, c, [input] + more, Duplex(x.conn, first.log + x.log), [input] + done, last, d, first.log + log, bye)
  {
    AccountsOn(e, c, input, first, done, Duplex(d, log));
    Regroup(first.log, log, React(e, d, last).log);
    Regroup([input], done, [last]);
    LongerFront([input], done + [last], more);
  }

  lemma FirstOf(input: Input, more: seq<Input>)
    ensures FromClient([input] + more) == FromClient([input]) + FromClient(more)
    ensures FromPeer([input] + more) == FromPeer([input]) + FromPeer(more)
    ensures FromClient([input]) == if input.Client? then input.chunk else []
    ensures FromPeer([input]) == if input.Peer? then input.data else []
    ensures HasClient([input] + more) <==> input.Client? || HasClient(more)
    ensures HasClient([input]) <==> input.Client?
  {
    assert ([input] + more)[1..] == more && [input][1..] == [];
  }

  lemma FirstAccounts(e: Env, c: Conn, input: Input)
    requires Ready(e, c) && Fits(c, input) && NoWrap(c.input + FromClient([input]))
    requires React(e, c, input).conn.state.Open?
    ensures AccountsFor(e, c, [input], React(e, c, input))
  {
    FirstOf(input, []);
    match input
    case Client(chunk) => ClientAccounts(e, c, chunk);
    case Peer(data) =>
      PeerReadAccounts(e, c, data);
      if Decode(c.input).Wait? {
        NothingToLookAt(e, c, data, React(e, c, input).conn, React(e, c, input).log);
      }
  }

  lemma LastEnds(e: Env, c: Conn, input: Input) returns (bye: Frame)
    requires Ready(e, c) && Fits(c, input) && NoWrap(c.input + FromClient([input]))
    requires React(e, c, input).conn.state.Closed?
    ensures Ends(e, c, input, React(e, c, input), bye)
  {
    FirstOf(input, []);
    match input
    case Client(chunk) => bye := ClientEnds(e, c, chunk);
    case Peer(data) => bye := PeerEnds(e, c, data);
  }

  /** What a conforming client reads from its wire: the log, and the farewell if there was one. */
  lemma ClientReads(e: Env, c: Conn, inputs: seq<Input>) returns (byes: seq<Frame>)
    requires Ready(e, c) && DriveFits(e, c, inputs) && NoWrap(c.input + FromClient(inputs))
    ensures var d := Drive(e, c, inputs);
            && c.net.client <= d.conn.net.client && |byes| == (if d.conn.state.Open? then 0 else 1)
            && CutAll(Receive, d.conn.net.client[|c.net.client|..]) == Cuts(OnWire(d.log) + byes, Rest([]))
  {
    var x := Drive(e, c, inputs);
    var said := c.net.client + Wire(OnWire(x.log));
    DriveKeeps(e, c, inputs);
    if x.conn.state.Open? {
      BothWays(e, c, inputs);
      byes := [];
      assert said + Wire([]) == said;
    } else {
      var done, last, d, log, bye := BothWaysClosing(e, c, inputs);
      byes := [bye];
      ClosingWire(e, c, inputs, x, done, last, d, log, bye);
    }
    WireOfRun(c.net.client, x.conn.net.client, OnWire(x.log), byes);
  }

  lemma {:induction false} ClosingWire(e: Env, c: Conn, inputs: seq<Input>, x: Duplex,
                                       done: seq<Input>, last: Input, d: Conn, log: seq<Said>, bye: Frame)
    requires Bridged(c) && Closes(e, c, inputs, x, done, last, d, log, bye)
    ensures x.conn.net.client == c.net.client + Wire(OnWire(x.log)) + Wire([bye])
    ensures forall f :: f in OnWire(x.log) + [bye] ==> Sendable(f)
  {
    var y := React(e, d, last);
    WireOne(bye);
    LogAppend(log, y.log);
    PrintAppend(ServerFrame, OnWire(log), OnWire(y.log));
    Regroup(c.net.client, Wire(OnWire(log)), Wire(OnWire(y.log)));
  }

  lemma {:induction false} DriveKeeps(e: Env, c: Conn, inputs: seq<Input>)
    requires (c.state.Open? ==> Bridged(c)) && (c.state.Open? || c.state.Closed?) && DriveFits(e, c, inputs)
    ensures Drive(e, c, inputs).conn.state.Open? || Drive(e, c, inputs).conn.state.Closed?
    decreases |inputs|
  {
    if inputs != [] && c.state.Open? {
      ReactKeeps(e, c, inputs[0]);
      DriveKeeps(e, React(e, c, inputs[0]).conn, inputs[1..]);
    }
  }
}
