/**
 A bridged connection as a value: the fields of the connection record, the two sockets as
 logs of what went out on them, and the operations every handler uses.

 The outside world is an environment of oracles: whether and where a send breaks off, what
 the discovery backend answers, which descriptor a connection attempt yields.
 */
module Connection {
  import opened Bytes
  import opened Frames

  /** Size of both buffers; one byte of each is kept for a terminator. */
  const BUFFER_SIZE: nat := 16384
  const LIMIT: nat := BUFFER_SIZE - 1

  const DISCARD: Opcode := 11

  datatype State = New | Http | Open | Closed

  datatype Reason = HttpError | Normal | Shutdown | Protocol | SizeLimit | Unexpected

  /** What a framing function keeps between calls; nothing before the first and after the last. */
  datatype FramingData =
    | NoData
    | Separator(separator: bytes)
    | BlockSize(size: nat)
    | Dynamic32(offset: nat, fixed: int, big: bool)
    | Other(words: seq<int>)

  datatype Framed = Framed(length: int, opcode: Opcode, data: FramingData)

  /**
   A framing function, with its configuration filled in: it sees the whole peer buffer, the
   number of valid bytes, how many of them the last read brought, the current frame type and
   its own data.
   */
  type Framing = (bytes, nat, nat, Opcode, FramingData) -> Framed

  datatype Transport = Detect | TcpClient | UdpClient | FifoTx | FifoRx | UnixStream | UnixDgram

  datatype PeerInfo = PeerInfo(transport: Transport, host: Option<bytes>, port: Option<bytes>,
                               framing: Option<Framing>, protocol: nat)

  const NO_PEER: PeerInfo := PeerInfo(Detect, None, None, None, 0)

  datatype HttpHeader = HttpHeader(tag: bytes, value: bytes)

  /** The sockets: what the client and the peer were sent, and how many sends were made. */
  datatype Net = Net(client: bytes, peer: bytes, calls: nat)

  /** A send goes through, or breaks off after so many bytes. */
  datatype Luck = Sends | Breaks(after: nat)

  type Query = (Option<bytes>, seq<bytes>, seq<HttpHeader>) -> PeerInfo

  datatype Env = Env(luck: nat -> Luck, query: Query, connect: nat -> int, version: bytes -> nat, accept: bytes -> bytes)

  datatype Conn = Conn(
    state: State, wsFd: int, peerFd: int,
    input: bytes,
    peerBuffer: bytes, peerOffset: nat, framingData: FramingData,
    headers: seq<HttpHeader>, offers: seq<bytes>,
    path: Option<bytes>, version: nat, key: Option<bytes>, upgrade: bool, connection: bool,
    peer: PeerInfo, net: Net)

  /** How many bytes of `data` a send on `fd` gets out; nothing on a closed descriptor. */
  function Passed(e: Env, fd: int, calls: nat, data: bytes): (n: nat)
    ensures n <= |data|
    ensures fd < 0 ==> n == 0
  {
    if fd < 0 then 0
    else
      match e.luck(calls)
      case Sends => |data|
      case Breaks(after) => Min(after, |data|)
  }

  datatype Sending = Sending(net: Net, failed: bool)

  function SendClient(e: Env, fd: int, net: Net, data: bytes): Sending {
    var n := Passed(e, fd, net.calls, data);
    Sending(Net(net.client + data[..n], net.peer, net.calls + 1), n < |data|)
  }

  function SendPeer(e: Env, fd: int, net: Net, data: bytes): Sending {
    var n := Passed(e, fd, net.calls, data);
    Sending(Net(net.client, net.peer + data[..n], net.calls + 1), n < |data|)
  }

  /** Header and payload are sent separately; without the header no payload. */
  function SendFrame(e: Env, fd: int, net: Net, f: Frame): Sending {
    var h := SendClient(e, fd, net, ServerHeader(f.opcode, |f.payload|));
    if h.failed then h else SendClient(e, fd, h.net, f.payload)
  }

  function SendThree(e: Env, fd: int, net: Net, a: bytes, b: bytes, c: bytes): Net {
    SendClient(e, fd, SendClient(e, fd, SendClient(e, fd, net, a).net, b).net, c).net
  }

  /** The part of closing that tells the client; its failures are ignored. */
  function Farewell(e: Env, state: State, fd: int, net: Net, code: Reason, reason: Option<bytes>): Net {
    if reason.None? then net
    else if state.Open? then SendFrame(e, fd, net, Frame(CLOSE, reason.value)).net
    else if state.Http? && code.HttpError? then
      SendThree(e, fd, net, Ascii("HTTP/1.1 "), reason.value, Ascii("\r\n\r\n"))
    else net
  }

  /** Both descriptors go and everything is reset. */
  function Shut(c: Conn, net: Net): Conn {
    Conn(Closed, if c.wsFd >= 0 then -1 else c.wsFd, if c.peerFd >= 0 then -1 else c.peerFd,
         [],
         c.peerBuffer, 0, if c.peerFd >= 0 then NoData else c.framingData,
         [], [],
         None, 0, None, false, false,
         NO_PEER, net)
  }

  function CloseConn(e: Env, c: Conn, code: Reason, reason: Option<bytes>): Conn {
    Shut(c, Farewell(e, c.state, c.wsFd, c.net, code, reason))
  }

  /** All sends from here on go through. */
  ghost predicate Reliable(e: Env, net: Net) {
    forall i :: net.calls <= i ==> e.luck(i).Sends?
  }

  /** Logs and counter only grow. */
  ghost predicate Grows(n: Net, m: Net) {
    n.calls <= m.calls && n.client <= m.client && n.peer <= m.peer
  }

  lemma SendFrameGrows(e: Env, fd: int, net: Net, f: Frame)
    ensures Grows(net, SendFrame(e, fd, net, f).net)
    ensures SendFrame(e, fd, net, f).net.peer == net.peer
  {
  }

  /** A frame that goes out is on the wire as a whole, behind everything sent before. */
  lemma SendFrameText(e: Env, fd: int, net: Net, f: Frame)
    requires !SendFrame(e, fd, net, f).failed
    ensures SendFrame(e, fd, net, f).net.client == net.client + ServerFrame(f)
  {
    var h := ServerHeader(f.opcode, |f.payload|);
    assert h[..|h|] == h && f.payload[..|f.payload|] == f.payload;
    assert net.client + h + f.payload == net.client + (h + f.payload);
  }

  lemma ReliableSends(e: Env, fd: int, net: Net, f: Frame)
    requires Reliable(e, net) && fd >= 0
    ensures !SendFrame(e, fd, net, f).failed && Reliable(e, SendFrame(e, fd, net, f).net)
  {
  }

  lemma SendAndText(e: Env, fd: int, net: Net, f: Frame)
    requires fd >= 0 && Reliable(e, net)
    ensures var s := SendFrame(e, fd, net, f);
            !s.failed && Reliable(e, s.net) && s.net.client == net.client + ServerFrame(f) && s.net.peer == net.peer
  {
    ReliableSends(e, fd, net, f);
    SendFrameText(e, fd, net, f);
    SendFrameGrows(e, fd, net, f);
  }

  /** Nothing gets out on a closed descriptor. */
  lemma ClosedSendsFail(e: Env, fd: int, net: Net, f: Frame)
    requires fd < 0
    ensures SendFrame(e, fd, net, f).failed && SendFrame(e, fd, net, f).net.client == net.client
  {
    assert ServerHeader(f.opcode, |f.payload|) != [];
    assert net.client + [] == net.client;
  }
}
