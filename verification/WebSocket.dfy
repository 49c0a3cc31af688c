/**
 The connection record as the program keeps it: buffers that are filled, unmasked and
 shifted in place, and handlers that update the record.  Each handler is proved to do what
 the connection as a value does.
 */
module WebSockets {
  import opened Bytes
  import opened Memory
  import opened Frames
  import opened FrameHeader
  import opened Connection
  import opened Inbound
  import opened PeerStream
  import opened PeerRuns
  import opened Handshake
  import opened HeaderLines
  import opened PeerAddress

  class WebSocket {
    var state: State
    var wsFd: int
    const readBuffer: array<byte>
    var readOffset: nat
    var headers: seq<HttpHeader>
    var requestPath: Option<bytes>
    var version: nat
    var socketKey: Option<bytes>
    var wantUpgrade: bool
    var wantConnection: bool
    var protocols: seq<bytes>
    var peer: PeerInfo
    var peerFd: int
    const peerBuffer: array<byte>
    var peerOffset: nat
    var framingData: FramingData
    /** What has gone out on the two sockets. */
    var net: Net

    ghost predicate Valid()
      reads this
    {
      && readBuffer.Length == BUFFER_SIZE && peerBuffer.Length == BUFFER_SIZE && readBuffer != peerBuffer
      && readOffset <= LIMIT && peerOffset <= LIMIT
    }

    /** The value that the record stands for. */
    ghost function Abs(): Conn
      reads this, readBuffer, peerBuffer
      requires Valid()
    {
      Conn(state, wsFd, peerFd, readBuffer[..readOffset], peerBuffer[..], peerOffset, framingData,
           headers, protocols, requestPath, version, socketKey, wantUpgrade, wantConnection, peer, net)
    }

    /** Accepting a connection into a slot. */
    constructor (fd: int)
      ensures Valid() && fresh(readBuffer) && fresh(peerBuffer)
      ensures state == New && wsFd == fd && peerFd == -1 && readOffset == 0 && peerOffset == 0
      ensures headers == [] && protocols == [] && requestPath == None && socketKey == None
      ensures version == 0 && !wantUpgrade && !wantConnection && peer == NO_PEER && framingData == NoData
      ensures net == Net([], [], 0)
    {
      state, wsFd, peerFd := New, fd, -1;
      readBuffer := new byte[BUFFER_SIZE];
      peerBuffer := new byte[BUFFER_SIZE];
      readOffset, peerOffset := 0, 0;
      headers, protocols, requestPath, socketKey := [], [], None, None;
      version, wantUpgrade, wantConnection := 0, false, false;
      peer, framingData, net := NO_PEER, NoData, Net([], [], 0);
    }

    /** Sending to the client. */
    method Send(e: Env, data: bytes) returns (failed: bool)
      modifies this`net
      ensures Sending(net, failed) == SendClient(e, wsFd, old(net), data)
    {
      var n := Passed(e, wsFd, net.calls, data);
      net := Net(net.client + data[..n], net.peer, net.calls + 1);
      return n < |data|;
    }

    method Forward(e: Env, data: bytes) returns (failed: bool)
      modifies this`net
      ensures Sending(net, failed) == SendPeer(e, peerFd, old(net), data)
    {
      var n := Passed(e, peerFd, net.calls, data);
      net := Net(net.client, net.peer + data[..n], net.calls + 1);
      return n < |data|;
    }

    method SendFrame(e: Env, opcode: Opcode, data: bytes) returns (failed: bool)
      modifies this`net
      ensures Sending(net, failed) == Connection.SendFrame(e, wsFd, old(net), Frame(opcode, data))
    {
      var header, size := BuildHeader(opcode, |data|);
      failed := Send(e, header[..size]);
      if !failed {
        failed := Send(e, data);
      }
    }

    /** The client is told only in the states in which it can be, and only with a reason. */
    method SayGoodbye(e: Env, code: Reason, reason: Option<bytes>)
      modifies this`net
      ensures net == Farewell(e, state, wsFd, old(net), code, reason)
    {
      if state.Open? && reason.Some? {
        var failed := SendFrame(e, CLOSE, reason.value);
      } else if state.Http? && code.HttpError? && reason.Some? {
        var failed := Send(e, Ascii("HTTP/1.1 "));
        failed := Send(e, reason.value);
        failed := Send(e, Ascii("\r\n\r\n"));
      }
    }

    /** Both descriptors are closed; the framing function frees its data with the peer's. */
    method CloseSockets()
      modifies this`wsFd, this`peerFd, this`framingData
      ensures wsFd == if old(wsFd) >= 0 then -1 else old(wsFd)
      ensures peerFd == if old(peerFd) >= 0 then -1 else old(peerFd)
      ensures framingData == if old(peerFd) >= 0 then NoData else old(framingData)
    {
      if wsFd >= 0 {
        wsFd := -1;
      }
      if peerFd >= 0 {
        peerFd := -1;
        framingData := NoData;
      }
    }

    /** Everything learnt during the handshake is forgotten. */
    method ForgetRequest()
      modifies this`headers, this`protocols, this`requestPath, this`socketKey, this`version
      modifies this`wantUpgrade, this`wantConnection
      ensures headers == [] && protocols == [] && requestPath == None && socketKey == None
      ensures version == 0 && !wantUpgrade && !wantConnection
    {
      headers, protocols, requestPath, socketKey := [], [], None, None;
      version, wantUpgrade, wantConnection := 0, false, false;
    }

    /** Closing tells the client, gives up both descriptors and resets the record. */
    method Close(e: Env, code: Reason, reason: Option<bytes>)
      requires Valid()
      modifies this
      ensures Valid() && Abs() == CloseConn(e, old(Abs()), code, reason)
      ensures readOffset == 0
    {
      SayGoodbye(e, code, reason);
      Reset();
    }

    method Reset()
      requires Valid()
      modifies this
      ensures Valid() && Abs() == Shut(old(Abs()), net)
      ensures readOffset == 0 && net == old(net)
    {
      CloseSockets();
      ForgetRequest();
      state, readOffset, peerOffset, peer := Closed, 0, 0, NO_PEER;
      assert readBuffer[..0] == [];
    }

    /** What is done about an unmasked frame. */
    method Act(e: Env, opcode: Opcode, payload: bytes)
      requires Valid() && state.Open?
      modifies this
      ensures Valid() && Abs() == Inbound.Act(e, old(Abs()), Frame(opcode, payload))
    {
      if opcode == TEXT || opcode == BINARY {
        if peerFd >= 0 {
          var failed := Forward(e, payload);
          if failed {
            Close(e, Unexpected, Some(Ascii("Failed to forward")));
          }
        }
      } else if opcode == CLOSE {
        Close(e, Normal, Some(Ascii("Client requested termination")));
      } else if opcode == PING {
        var failed := SendFrame(e, PONG, payload);
        if failed {
          Close(e, Unexpected, Some(Ascii("Failed to send pong")));
        }
      } else if opcode == PONG {
      } else {
        Close(e, Protocol, Some(Ascii("Invalid opcode")));
      }
    }

    /**
     One frame at the head of the receive buffer, unmasked where it lies.  Returns the bytes
     dealt with; an incomplete frame leaves everything as it was.
     */
    method HandleFrame(e: Env) returns (n: nat)
      requires Valid() && state.Open? && !Parse(readBuffer[..readOffset]).Wrapped?
      modifies this, readBuffer
      ensures Valid()
      ensures FrameHandled(e, old(Abs()), Abs(), n)
    {
      n := 0;
      ghost var c := Abs();
      var h := ReadHeader(readBuffer, readOffset);
      if h.Header? && readOffset >= (h.size + h.length) % TWO_TO_64 {
        if !h.masked {
          Close(e, Protocol, Some(Ascii("Unmasked client frame")));
        } else {
          n := h.size + h.length;
          ghost var f := UnmaskHead(h, n);
          ghost var input := readBuffer[..readOffset];
          Act(e, h.opcode, readBuffer[h.size..n]);
          ActElsewhere(e, c, f, input);
        }
      }
    }

    /** The payload of the frame at the head of the buffer, in the clear; what lies behind it stays. */
    method UnmaskHead(h: Header, n: nat) returns (ghost f: Frame)
      requires Valid() && h == ParseHeader(readBuffer[..readOffset]) && h.Header? && h.masked
      requires n == h.size + h.length <= readOffset && n < TWO_TO_64
      modifies readBuffer
      ensures Parse(old(readBuffer[..readOffset])) == Complete(f, n)
      ensures f == Frame(h.opcode, readBuffer[h.size..n])
      ensures readBuffer[..readOffset][n..] == old(readBuffer[..readOffset][n..])
    {
      ghost var s := readBuffer[..readOffset];
      f := Frame(h.opcode, Mask(s[h.size - 4..h.size], s[h.size..n]));
      InBuffer(readBuffer, readOffset, h.size - 4, h.size);
      InBuffer(readBuffer, readOffset, h.size, n);
      TailOf(readBuffer, readOffset, n);
      Unmask(readBuffer, h.size, h.length);
      TailOf(readBuffer, readOffset, n);
    }

    /** New bytes go behind those already there, and a NUL behind them. */
    method Fill(buffer: array<byte>, offset: nat, chunk: bytes)
      requires offset + |chunk| < buffer.Length
      modifies buffer
      ensures buffer[..] == Filled(old(buffer[..]), offset, chunk)
    {
      ghost var had := buffer[..];
      MemCpy(buffer, offset, chunk);
      buffer[offset + |chunk|] := 0;
      assert buffer[..offset] == had[..offset] && buffer[offset..offset + |chunk|] == chunk;
      assert buffer[offset + |chunk| + 1..] == had[offset + |chunk| + 1..];
      assert buffer[..] == buffer[..offset] + buffer[offset..offset + |chunk|] + [0] + buffer[offset + |chunk| + 1..];
    }

    /** All frames that are complete, one after another. */
    method HandleAllFrames(e: Env)
      requires Valid() && state.Open? && NoWrap(readBuffer[..readOffset])
      modifies this, readBuffer
      ensures Valid() && Abs() == HandleFrames(e, old(Abs()))
    {
      ghost var all := Abs();
      NoWrapHere(all.input);
      var n: nat := HandleFrame(e);
      GoesOn(e, all, Abs(), n);
      while n > 0 && readOffset > 0
        invariant Valid() && HandleFrames(e, all) == Rest(e, Abs(), n)
        invariant n > 0 && readOffset > 0 ==> state.Open? && n <= readOffset && NoWrap(readBuffer[..readOffset][n..])
        decreases readOffset
      {
        ghost var tail := readBuffer[..readOffset][n..];
        NoWrapHere(tail);
        Shift(n);
        ghost var before := Abs();
        n := HandleFrame(e);
        GoesOn(e, before, Abs(), n);
      }
      assert readOffset == 0 ==> readBuffer[..readOffset] == [];
    }

    /** A read in state open: the bytes are taken in, the frames handled, and the size limit enforced. */
    method ReadFrames(e: Env, chunk: bytes)
      requires Valid() && state.Open? && readOffset + |chunk| <= LIMIT
      requires NoWrap(readBuffer[..readOffset] + chunk)
      modifies this, readBuffer
      ensures Valid() && Abs() == ReadOpen(e, old(Abs()), chunk)
    {
      ghost var had := readBuffer[..];
      Fill(readBuffer, readOffset, chunk);
      assert had[..readOffset] == old(readBuffer[..readOffset]);
      readOffset := readOffset + |chunk|;
      assert readBuffer[..readOffset] == readBuffer[..][..readOffset];
      HandleAllFrames(e);
      if readOffset > BUFFER_SIZE - 2 {
        Close(e, SizeLimit, Some(Ascii("Receive size limit exceeded")));
      }
    }

    /** The bytes behind the frame move to the front of the buffer. */
    method Shift(n: nat)
      requires Valid() && 0 < n <= readOffset
      modifies readBuffer, this`readOffset
      ensures Valid() && readOffset == old(readOffset) - n
      ensures readBuffer[..readOffset] == old(readBuffer[..readOffset][n..])
    {
      ghost var tail := readBuffer[..readOffset][n..];
      assert tail == readBuffer[n..readOffset];
      MemMove(readBuffer, 0, n, readOffset - n);
      readOffset := readOffset - n;
      assert readBuffer[..readOffset] == readBuffer[0..0 + readOffset];
    }

    /** The loop state over the peer buffer. */
    ghost function Scanned(read: nat, opcode: Opcode): Scan
      reads this, peerBuffer
    {
      Scan(peerBuffer[..], peerOffset, read, opcode, framingData)
    }

    /** The buffer and its offset after a segment of `framed` bytes; `left` tells what the loop condition sees of it. */
    method CutSegment(framed: nat, read: nat, ghost s: Scan) returns (newRead: nat, left: nat)
      requires Valid() && 0 < framed <= peerOffset + read <= peerBuffer.Length
      requires s.buf == peerBuffer[..] && s.off == peerOffset && s.read == read
      modifies peerBuffer, this`peerOffset
      ensures Valid() && CutOff(s, framed) == s.(buf := peerBuffer[..], off := peerOffset, read := newRead)
      ensures left == 0 <==> framed == old(peerOffset)
    {
      var total := peerOffset + read;
      ghost var had := peerBuffer[..];
      MemMove(peerBuffer, 0, framed, total - framed);
      assert peerBuffer[..] == peerBuffer[0..0 + (total - framed)] + peerBuffer[0 + (total - framed)..];
      assert had[framed..total] == old(peerBuffer[framed..framed + (total - framed)]);
      newRead, left := read, framed;
      if framed < peerOffset {
        peerOffset := peerOffset - framed;
      } else {
        left := framed - peerOffset;
        newRead := read - left;
        peerOffset := 0;
      }
    }

    /** A segment goes out, or is dropped. */
    method EmitSegment(e: Env, opcode: Opcode, n: nat) returns (failed: bool)
      requires Valid() && n <= peerBuffer.Length
      modifies this`net
      ensures Sending(net, failed) == Emit(e, wsFd, old(net), Frame(opcode, peerBuffer[..][..n]))
    {
      failed := false;
      if opcode != DISCARD {
        assert peerBuffer[..][..n] == peerBuffer[..n];
        failed := SendFrame(e, opcode, peerBuffer[..n]);
      }
    }

    /** Acting on the framing function's answer; tells whether to go on, and how it ended if not. */
    method SettleAnswer(e: Env, framed: Framed, read: nat, ghost s: Scan) returns (more: bool, how: How, newRead: nat)
      requires Valid() && 0 < peerOffset + read <= peerBuffer.Length && framed.length >= 0
      requires s.buf == peerBuffer[..] && s.off == peerOffset && s.read == read
      requires framingData == framed.data
      modifies peerBuffer, this`peerOffset, this`net
      ensures Valid()
      ensures RoundDone(Settle(e, wsFd, old(net), s, framed), Scanned(newRead, framed.opcode), net, more, how)
    {
      newRead, how, more := read, Waits, false;
      if framed.length > peerOffset + read {
        how := Overran;
      } else if framed.length > 0 {
        var failed := EmitSegment(e, framed.opcode, framed.length);
        if failed {
          how := SendFailed;
        } else {
          var left;
          newRead, left := CutSegment(framed.length, read, s.(opcode := framed.opcode, data := framed.data));
          more := left != 0 && peerOffset + newRead > 0;
        }
      }
    }

    /** One round of the loop. */
    method PeerRound(e: Env, framing: Framing, read: nat, opcode: Opcode)
      returns (more: bool, how: How, newRead: nat, newOpcode: Opcode)
      requires Valid() && 0 < peerOffset + read <= peerBuffer.Length
      requires Answer(framing, peerBuffer[..], peerOffset + read, read, opcode, framingData).length >= 0
      modifies peerBuffer, this`peerOffset, this`framingData, this`net
      ensures Valid()
      ensures RoundDone(Round(e, framing, wsFd, old(net), old(Scanned(read, opcode))),
                        Scanned(newRead, newOpcode), net, more, how)
    {
      ghost var s := Scanned(read, opcode);
      var framed := Answer(framing, peerBuffer[..], peerOffset + read, read, opcode, framingData);
      framingData, newOpcode := framed.data, framed.opcode;
      more, how, newRead := SettleAnswer(e, framed, read, s);
    }

    /** Rounds until one ends the loop. */
    method CutSegments(e: Env, framing: Framing, got: nat) returns (how: How, read: nat)
      requires Valid() && 0 < peerOffset + got <= LIMIT && NonNegative(framing)
      modifies peerBuffer, this`peerOffset, this`framingData, this`net
      ensures Valid() && peerOffset + read <= LIMIT
      ensures var x := PeerLoop(e, framing, wsFd, old(net), old(Scanned(got, BINARY)));
              && x.scan == Scanned(read, x.scan.opcode) && x.net == net && x.how == how
    {
      ghost var x := PeerLoop(e, framing, wsFd, net, Scanned(got, BINARY));
      read, how := got, Waits;
      var opcode: Opcode, more := BINARY, true;
      while more
        invariant Valid() && peerOffset + read <= LIMIT
        invariant more ==> 0 < peerOffset + read && EndsAs(PeerLoop(e, framing, wsFd, net, Scanned(read, opcode)), x)
        invariant !more ==> x.scan == Scanned(read, opcode) && x.net == net && x.how == how
        decreases more, peerOffset + read
      {
        LoopRound(e, framing, wsFd, net, Scanned(read, opcode));
        more, how, read, opcode := PeerRound(e, framing, read, opcode);
      }
    }

    /** A read from the peer, segment by segment. */
    method ReadPeer(e: Env, chunk: bytes) returns (rv: nat)
      requires Valid() && Bridged(Abs()) && FitsPeer(Abs(), chunk)
      modifies this, peerBuffer
      ensures Valid()
      ensures var r := PeerData(e, old(Abs()), Chunk(chunk)); Abs() == r.conn && rv == r.rv
    {
      ghost var c := Abs();
      ghost var x := PeerLoop(e, c.peer.framing.value, c.wsFd, c.net, Loaded(c, chunk));
      Fill(peerBuffer, peerOffset, chunk);
      assert Scanned(|chunk|, BINARY) == Loaded(c, chunk);
      var how, read := CutSegments(e, peer.framing.value, |chunk|);
      assert Abs() == c.(peerBuffer := x.scan.buf, peerOffset := x.scan.off, framingData := x.scan.data, net := x.net);
      assert PeerData(e, c, Chunk(chunk)) == PeerRuns.Stored(e, c, x);
      rv := 0;
      match how
      case Waits => peerOffset := peerOffset + read;
      case SendFailed => rv := 1;
      case Overran => Close(e, Unexpected, Some(Ascii("Internal error")));
    }

    /** The peer's descriptor is readable: bytes, the end of its stream, or a failure. */
    method PeerReadable(e: Env, input: PeerInput) returns (rv: nat)
      requires Valid() && Bridged(Abs()) && (input.Chunk? ==> FitsPeer(Abs(), input.data))
      modifies this, peerBuffer
      ensures Valid()
      ensures var r := PeerData(e, old(Abs()), input); Abs() == r.conn && rv == r.rv
    {
      rv := 0;
      match input
      case Failure => Close(e, Unexpected, Some(Ascii("Peer connection failed")));
      case EndOfFile => Close(e, Normal, Some(Ascii("Peer closed connection")));
      case Chunk(data) => rv := ReadPeer(e, data);
    }

    /** The request line; `u` runs over the path. */
    method HandleNew(line: bytes) returns (failed: bool)
      requires Valid()
      modifies this`state, this`requestPath
      ensures Abs() == Handshake.HandleNew(old(Abs()), line) && failed == !IsRequest(line)
    {
      failed := true;
      if StartsAt(line, 0, Ascii("GET ")) {
        var u := 4;
        while u < |line| && line[u] != 0 && !IsSpace(line[u])
          invariant 4 <= u <= |line| && PathEnd(line, 4) == PathEnd(line, u)
        {
          u := u + 1;
        }
        if u < |line| && StartsAt(line, u + 1, Ascii("HTTP/")) {
          state, requestPath := Http, Some(line[4..u]);
          failed := false;
        }
      }
    }

    /** Asking the backend and connecting to the peer it names. */
    method ConnectPeer(e: Env) returns (failed: bool)
      requires Valid() && CHosts(e)
      modifies this`peer, this`peerFd
      ensures Abs() == ClientConnect(e, old(Abs())) && failed == !Connects(e, old(Abs()))
    {
      peer := ResolvePeer(Queried(e, requestPath, protocols, headers));
      if !Reachable(peer) {
        return true;
      }
      var fd := Connected(e, net.calls);
      peerFd := if fd < 0 then -1 else fd;
      return peerFd == -1;
    }

    /** Several sends, up to the first that fails. */
    method SendTexts(e: Env, texts: seq<bytes>) returns (failed: bool)
      modifies this`net
      ensures Sending(net, failed) == SendAll(e, wsFd, old(net), texts)
    {
      var i := 0;
      failed := false;
      while i < |texts| && !failed
        invariant i <= |texts|
        invariant SendAll(e, wsFd, old(net), texts)
               == if failed then Sending(net, true) else SendAll(e, wsFd, net, texts[i..])
      {
        failed := Send(e, texts[i]);
        i := i + 1;
      }
    }

    /** The response, in pieces; the connection is open when the last one has gone out. */
    method AnswerUpgrade(e: Env, key: bytes)
      requires Valid()
      modifies this
      ensures Valid() && Abs() == Answered(e, old(Abs()), key)
    {
      var failed := SendTexts(e, Response(e, key, protocols, peer.protocol));
      if failed {
        Close(e, HttpError, None);
      } else {
        state := Open;
      }
    }

    /** The end of the header: connect the peer and answer, or refuse. */
    method UpgradeHttp(e: Env)
      requires Valid() && CHosts(e)
      modifies this
      ensures Valid() && Abs() == Upgrade(e, old(Abs()))
    {
      if version == 13 && socketKey.Some? && wantUpgrade && wantConnection {
        var failed := ConnectPeer(e);
        if failed {
          Close(e, HttpError, Some(Ascii("500 Peer connection failed")));
          return;
        }
        AnswerUpgrade(e, socketKey.value);
      } else if version != 13 {
        Close(e, HttpError, Some(Ascii("426 Unsupported protocol version")));
      }
    }

    /** New offers are appended, those already there are not repeated. */
    method AddProtocols(offers: seq<bytes>)
      modifies this`protocols
      ensures protocols == AddOffers(old(protocols), offers)
    {
      var i := 0;
      while i < |offers|
        invariant i <= |offers| && AddOffers(protocols, offers[i..]) == AddOffers(old(protocols), offers)
      {
        var p := 0;
        while p < |protocols| && protocols[p] != offers[i]
          invariant p <= |protocols| && offers[i] !in protocols[..p]
        {
          p := p + 1;
        }
        if p == |protocols| {
          protocols := protocols + [offers[i]];
        }
        i := i + 1;
      }
    }

    /** A header line, or the empty line behind the last one. */
    method HandleHttp(e: Env, line: bytes)
      requires Valid() && CHosts(e)
      modifies this
      ensures Valid() && Abs() == Handshake.HandleHttp(e, old(Abs()), line)
    {
      var parsed := ParseLine(line);
      match parsed
      case Empty => UpgradeHttp(e);
      case Folded => Close(e, HttpError, Some(Ascii("500 Header folding")));
      case Malformed => Close(e, HttpError, Some(Ascii("500 Header format")));
      case HeaderLine(field) => NoteField(e, field);
    }

    method NoteField(e: Env, field: Field)
      requires Valid()
      modifies this`version, this`socketKey, this`wantUpgrade, this`wantConnection, this`protocols, this`headers
      ensures Abs() == Note(e, old(Abs()), field)
    {
      match field
      case Version(text) => version := ParsedVersion(e, text);
      case TheKey(key) => socketKey := Some(key);
      case WantsUpgrade => wantUpgrade := true;
      case WantsConnection => wantConnection := true;
      case Offers(offers) => AddProtocols(offers);
      case Stored(header) =>
        if |headers| < HEADER_LIMIT {
          headers := headers + [header];
        }
    }

    /** The lines of one read; whatever happens to the connection meanwhile, all are handled. */
    method HandleAllLines(e: Env, lines: seq<bytes>)
      requires Valid() && CHosts(e)
      modifies this
      ensures Valid() && Abs() == HandleLines(e, old(Abs()), lines)
    {
      var n := 0;
      while n < |lines|
        invariant n <= |lines| && Valid() && Abs() == HandleLines(e, old(Abs()), lines[..n])
      {
        assert lines[..n + 1][..n] == lines[..n];
        if state.New? {
          var failed := HandleNew(lines[n]);
        } else {
          HandleHttp(e, lines[n]);
        }
        n := n + 1;
      }
      assert lines[..n] == lines;
    }
  }

  ghost predicate RoundDone(p: Progress, s: Scan, net: Net, more: bool, how: How) {
    match p
    case Again(t, m, _) => more && t == s && m == net
    case Stop(x) => !more && x.scan == s && x.net == net && x.how == how
  }

  ghost predicate EndsAs(x: Ended, y: Ended) {
    x.scan == y.scan && x.net == y.net && x.how == y.how
  }

  lemma LoopRound(e: Env, framing: Framing, fd: int, net: Net, s: Scan)
    requires Holds(s) && NonNegative(framing)
    ensures match Round(e, framing, fd, net, s)
            case Stop(x) => PeerLoop(e, framing, fd, net, s) == x
            case Again(t, m, _) =>
              && t.off + t.read < s.off + s.read
              && EndsAs(PeerLoop(e, framing, fd, net, s), PeerLoop(e, framing, fd, m, t))
    ensures var t := LeftBy(Round(e, framing, fd, net, s)); |t.buf| == |s.buf| && t.off + t.read <= s.off + s.read
  {
    RoundCuts(e, framing, fd, net, s);
    if Round(e, framing, fd, net, s).Again? {
      RoundShrinks(e, framing, fd, net, s);
    }
  }

  /** What is still to do when a call dealt with `n` bytes. */
  function Rest(e: Env, c: Conn, n: nat): Conn {
    if n == 0 || c.input == [] then c
    else if n <= |c.input| then HandleFrames(e, c.(input := c.input[n..]))
    else c
  }

  lemma NoWrapHere(s: bytes)
    requires NoWrap(s) && |s| <= LIMIT
    ensures !Parse(s).Wrapped?
  {
    assert s[..|s|] == s;
  }

  lemma NoWrapBehind(s: bytes, n: nat)
    requires NoWrap(s) && |s| <= LIMIT && Parse(s).Complete? && n == Parse(s).size
    ensures NoWrap(s[n..])
  {
    assert s[..|s|] == s;
  }

  lemma GoesOn(e: Env, c: Conn, d: Conn, n: nat)
    requires FrameHandled(e, c, d, n) && c.state.Open? && NoWrap(c.input) && |c.input| <= LIMIT
    ensures HandleFrames(e, c) == Rest(e, d, n)
    ensures n > 0 && d.input != [] ==> d.state.Open? && n <= |d.input| && NoWrap(d.input[n..])
  {
    if Parse(c.input).Complete? {
      LoopGoesOn(e, c);
      NoWrapBehind(c.input, n);
      if d.state.Open? {
        assert Next(e, c) == d.(input := d.input[n..]);
      }
    }
  }

  lemma InBuffer(a: array<byte>, length: nat, i: nat, j: nat)
    requires i <= j <= length <= a.Length
    ensures a[..length][i..j] == a[i..j]
  {
  }

  lemma TailOf(a: array<byte>, length: nat, n: nat)
    requires n <= length <= a.Length
    ensures a[..length][n..] == a[n..][..length - n]
  {
  }

  /** What one frame at the head of the buffer does to the connection, and how much is dealt with. */
  ghost predicate FrameHandled(e: Env, c: Conn, d: Conn, n: nat) {
    match Parse(c.input)
    case Incomplete => d == c && n == 0
    case Wrapped => false
    case Unmasked => d == CloseConn(e, c, Protocol, Some(Ascii("Unmasked client frame"))) && n == 0
    case Complete(f, size) =>
      && n == size
      && var acted := Inbound.Act(e, c, f);
      if acted.state.Open? then
        d.(input := []) == acted.(input := []) && |d.input| == |c.input| && d.input[n..] == c.input[n..]
      else d == acted
  }
}
