/**
 The HTTP side of a connection, line by line: request line, header lines, upgrade, and the
 connection to the peer that the discovery backend names.
 */
module Handshake {
  import opened Bytes
  import opened Memory
  import opened Connection
  import Separators

  const HEADER_LIMIT: nat := 10

  function ToLower(b: byte): byte {
    if 65 <= b <= 90 then b + 32 else b
  }

  function Lower(s: bytes): bytes {
    seq(|s|, i requires 0 <= i < |s| => ToLower(s[i]))
  }

  /** A line as a C string: up to its first NUL. */
  function CText(line: bytes): bytes {
    if line == [] || line[0] == 0 then [] else [line[0]] + CText(line[1..])
  }

  predicate Contains(s: bytes, word: bytes) {
    exists i :: 0 <= i <= |s| && StartsAt(s, i, word)
  }

  function LTrim(s: bytes): bytes {
    if s != [] && IsSpace(s[0]) then LTrim(s[1..]) else s
  }

  function RTrim(s: bytes): bytes {
    if s != [] && IsSpace(s[|s| - 1]) then RTrim(s[..|s| - 1]) else s
  }

  /** The end of the path in a request line: a blank, a NUL or the end of the line. */
  function PathEnd(line: bytes, i: nat): (r: nat)
    requires i <= |line|
    ensures i <= r <= |line|
    decreases |line| - i
  {
    if i < |line| && line[i] != 0 && !IsSpace(line[i]) then PathEnd(line, i + 1) else i
  }

  predicate IsRequest(line: bytes) {
    StartsAt(line, 0, Ascii("GET ")) && PathEnd(line, 4) < |line| && StartsAt(line, PathEnd(line, 4) + 1, Ascii("HTTP/"))
  }

  /** What stands between the method and the blank behind the path. */
  function PathOf(line: bytes): bytes
    requires IsRequest(line)
  {
    line[4..PathEnd(line, 4)]
  }

  /** The first line must be a request; anything else is passed over. */
  function HandleNew(c: Conn, line: bytes): Conn {
    if IsRequest(line) then c.(state := Http, path := Some(PathOf(line))) else c
  }

  datatype Detected = Detected(transport: Transport, host: bytes)

  /** What a transport is announced with in front of a host. */
  function Prefix(t: Transport): bytes {
    match t
    case TcpClient => Ascii("tcp://")
    case UdpClient => Ascii("udp://")
    case FifoTx => Ascii("fifotx://")
    case FifoRx => Ascii("fiforx://")
    case UnixStream => Ascii("unix://")
    case UnixDgram => Ascii("unix-dgram://")
    case Detect => []
  }

  predicate Announces(address: bytes, t: Transport) {
    !t.Detect? && StartsAt(address, 0, Prefix(t))
  }

  function Behind(address: bytes, t: Transport): Detected
    requires Announces(address, t)
  {
    Detected(t, address[|Prefix(t)|..])
  }

  function DetectTransport(host: bytes): Detected {
    if Announces(host, TcpClient) then Behind(host, TcpClient)
    else if Announces(host, UdpClient) then Behind(host, UdpClient)
    else if Announces(host, FifoTx) then Behind(host, FifoTx)
    else if Announces(host, FifoRx) then Behind(host, FifoRx)
    else if Announces(host, UnixStream) then Behind(host, UnixStream)
    else if Announces(host, UnixDgram) then Behind(host, UnixDgram)
    else Detected(TcpClient, host)
  }

  predicate NeedsPort(t: Transport) {
    t.TcpClient? || t.UdpClient?
  }

  /** The address split at its first colon, if its transport needs a port that is not given. */
  function WithPort(p: PeerInfo, host: bytes): PeerInfo {
    var colon := IndexOf(host, 0, COLON);
    if NeedsPort(p.transport) && p.port.None? && colon < |host| then
      p.(host := Some(host[..colon]), port := Some(host[colon + 1..]))
    else p.(host := Some(host))
  }

  function WithTransport(p: PeerInfo, host: bytes): PeerInfo {
    if p.transport.Detect? then
      var d := DetectTransport(host);
      WithPort(p.(transport := d.transport), d.host)
    else WithPort(p, host)
  }

  function WithFraming(p: PeerInfo): PeerInfo {
    if p.framing.None? then p.(framing := Some(Separators.Auto())) else p
  }

  /** The peer as the backend gave it, with framing function, transport and port filled in. */
  function Resolve(p: PeerInfo): (r: PeerInfo)
    ensures r.host.Some? == p.host.Some? && r.protocol == p.protocol && (p.host.Some? ==> r.framing.Some?)
  {
    if p.host.None? then p else WithTransport(WithFraming(p), p.host.value)
  }

  /** There is an address for this transport, and the transport is implemented. */
  predicate Reachable(p: PeerInfo) {
    && p.host.Some? && (NeedsPort(p.transport) ==> p.port.Some?)
    && !p.transport.FifoTx? && !p.transport.FifoRx? && !p.transport.Detect?
  }

  /** What the backend says about this request. */
  function Queried(e: Env, path: Option<bytes>, offers: seq<bytes>, headers: seq<HttpHeader>): PeerInfo {
    e.query(path, offers, headers)
  }

  /** The same, completed. */
  function PeerFor(e: Env, path: Option<bytes>, offers: seq<bytes>, headers: seq<HttpHeader>): PeerInfo {
    Resolve(Queried(e, path, offers, headers))
  }

  /** The descriptor of the connection made at this point of the run, or a negative number. */
  function Connected(e: Env, calls: nat): int {
    e.connect(calls)
  }

  function ParsedVersion(e: Env, text: bytes): nat {
    e.version(text)
  }

  /** Asking the backend and connecting; the connection has a peer afterwards exactly if this succeeds. */
  function ClientConnect(e: Env, c: Conn): Conn {
    var p, fd := PeerFor(e, c.path, c.offers, c.headers), Connected(e, c.net.calls);
    if Reachable(p) then c.(peer := p, peerFd := if fd < 0 then -1 else fd)
    else c.(peer := p)
  }

  predicate Connects(e: Env, c: Conn) {
    Reachable(PeerFor(e, c.path, c.offers, c.headers)) && Connected(e, c.net.calls) >= 0
  }

  /** One send after another, up to the first that fails. */
  function SendAll(e: Env, fd: int, net: Net, texts: seq<bytes>): Sending
    decreases |texts|
  {
    if texts == [] then Sending(net, false)
    else
      var s := SendClient(e, fd, net, texts[0]);
      if s.failed then s else SendAll(e, fd, s.net, texts[1..])
  }

  /** The line that announces a subprotocol, if the backend chose one of those offered. */
  function Announcement(offers: seq<bytes>, protocol: nat): seq<bytes> {
    if protocol < |offers| then [Ascii("Sec-WebSocket-Protocol: "), offers[protocol], Ascii("\r\n")] else []
  }

  /** The response to an upgrade, in the pieces it is sent in. */
  function Response(e: Env, key: bytes, offers: seq<bytes>, protocol: nat): seq<bytes> {
    [Ascii("HTTP/1.1 101 Upgrading\r\n"), Ascii("Upgrade: websocket\r\n"), Ascii("Connection: Upgrade\r\n"),
     Ascii("Sec-WebSocket-Accept: "), e.accept(key) + Ascii("\r\n")]
    + Announcement(offers, protocol) + [Ascii("\r\n")]
  }

  /** The response is sent to a client whose peer is connected. */
  function Answered(e: Env, c: Conn, key: bytes): Conn {
    var s := SendAll(e, c.wsFd, c.net, Response(e, key, c.offers, c.peer.protocol));
    if s.failed then CloseConn(e, c.(net := s.net), HttpError, None) else c.(state := Open, net := s.net)
  }

  /** The empty line: upgrade if the request was complete; without version 13 refuse; otherwise nothing. */
  function Upgrade(e: Env, c: Conn): Conn {
    if c.version == 13 && c.key.Some? && c.upgrade && c.connection then
      var d := ClientConnect(e, c);
      if !Connects(e, c) then CloseConn(e, d, HttpError, Some(Ascii("500 Peer connection failed")))
      else Answered(e, d, c.key.value)
    else if c.version != 13 then CloseConn(e, c, HttpError, Some(Ascii("426 Unsupported protocol version")))
    else c
  }

  /** The tokens of `strtok`: what stands between commas, without the empty ones. */
  function Tokens(s: bytes): seq<bytes>
    decreases |s|
  {
    if s == [] then []
    else
      var n := IndexOf(s, 0, COMMA);
      (if n == 0 then [] else [s[..n]]) + (if n == |s| then [] else Tokens(s[n + 1..]))
  }

  function Trimmed(tokens: seq<bytes>): seq<bytes> {
    if tokens == [] then [] else [RTrim(LTrim(tokens[0]))] + Trimmed(tokens[1..])
  }

  function AddOffer(offers: seq<bytes>, offer: bytes): seq<bytes> {
    if offer in offers then offers else offers + [offer]
  }

  function AddOffers(offers: seq<bytes>, more: seq<bytes>): seq<bytes>
    decreases |more|
  {
    if more == [] then offers else AddOffers(AddOffer(offers, more[0]), more[1..])
  }

  /** What a header line says to the handshake. */
  datatype Field =
    | Version(text: bytes)
    | TheKey(key: bytes)
    | WantsUpgrade
    | WantsConnection
    | Offers(offers: seq<bytes>)
    | Stored(header: HttpHeader)

  function FieldOf(tag: bytes, value: bytes): Field {
    if tag == Ascii("Sec-WebSocket-Version") then Version(value)
    else if tag == Ascii("Sec-WebSocket-Key") then TheKey(RTrim(value))
    else if tag == Ascii("Upgrade") && Lower(value) == Ascii("websocket") then WantsUpgrade
    else if tag == Ascii("Connection") then
      if Contains(Lower(value), Ascii("upgrade")) then WantsConnection else Stored(HttpHeader(tag, Lower(value)))
    else if tag == Ascii("Sec-WebSocket-Protocol") then Offers(Trimmed(Tokens(value)))
    else Stored(HttpHeader(tag, value))
  }

  datatype Line = Empty | Folded | Malformed | HeaderLine(field: Field)

  function LineOf(line: bytes): Line {
    var s := CText(line);
    if s == [] then Empty
    else if IsSpace(s[0]) then Folded
    else
      var colon := IndexOf(s, 0, COLON);
      if colon == |s| then Malformed else HeaderLine(FieldOf(s[..colon], LTrim(s[colon + 1..])))
  }

  function Note(e: Env, c: Conn, f: Field): Conn {
    match f
    case Version(text) => c.(version := ParsedVersion(e, text))
    case TheKey(key) => c.(key := Some(key))
    case WantsUpgrade => c.(upgrade := true)
    case WantsConnection => c.(connection := true)
    case Offers(offers) => c.(offers := AddOffers(c.offers, offers))
    case Stored(header) => if |c.headers| < HEADER_LIMIT then c.(headers := c.headers + [header]) else c
  }

  function HandleHttp(e: Env, c: Conn, line: bytes): Conn {
    match LineOf(line)
    case Empty => Upgrade(e, c)
    case Folded => CloseConn(e, c, HttpError, Some(Ascii("500 Header folding")))
    case Malformed => CloseConn(e, c, HttpError, Some(Ascii("500 Header format")))
    case HeaderLine(field) => Note(e, c, field)
  }

  /** Lines keep being handled whatever became of the connection in the meantime. */
  function Handle(e: Env, c: Conn, line: bytes): Conn {
    if c.state.New? then HandleNew(c, line) else HandleHttp(e, c, line)
  }

  function HandleLines(e: Env, c: Conn, lines: seq<bytes>): Conn
    decreases |lines|
  {
    if lines == [] then c else Handle(e, HandleLines(e, c, lines[..|lines| - 1]), lines[|lines| - 1])
  }

  /** What header lines amount to, told from the lines alone. */
  datatype Facts = Facts(key: Option<bytes>, upgrade: bool, connection: bool, version: nat,
                         offers: seq<bytes>, headers: seq<HttpHeader>)

  predicate Says(line: bytes, f: Field -> bool) {
    LineOf(line).HeaderLine? && f(LineOf(line).field)
  }

  predicate SomeSays(lines: seq<bytes>, f: Field -> bool) {
    lines != [] && (Says(lines[|lines| - 1], f) || SomeSays(lines[..|lines| - 1], f))
  }

  /** The key after a line that may bring one. */
  function KeyAfter(line: bytes, before: Option<bytes>): Option<bytes> {
    var l := LineOf(line);
    if l.HeaderLine? && l.field.TheKey? then Some(l.field.key) else before
  }

  /** The key on the latest key line. */
  function LatestKey(lines: seq<bytes>): Option<bytes> {
    if lines == [] then None else KeyAfter(lines[|lines| - 1], LatestKey(lines[..|lines| - 1]))
  }

  /** The version after a line that may state one. */
  function VersionAfter(e: Env, line: bytes, before: nat): nat {
    var l := LineOf(line);
    if l.HeaderLine? && l.field.Version? then ParsedVersion(e, l.field.text) else before
  }

  /** The version on the latest version line. */
  function LatestVersion(e: Env, lines: seq<bytes>): nat {
    if lines == [] then 0 else VersionAfter(e, lines[|lines| - 1], LatestVersion(e, lines[..|lines| - 1]))
  }

  function OffersOn(line: bytes): seq<bytes> {
    var l := LineOf(line);
    if l.HeaderLine? && l.field.Offers? then l.field.offers else []
  }

  /** All offers on all lines, in order. */
  function AllOffers(lines: seq<bytes>): seq<bytes> {
    if lines == [] then [] else AllOffers(lines[..|lines| - 1]) + OffersOn(lines[|lines| - 1])
  }

  function StoredOn(line: bytes): seq<HttpHeader> {
    var l := LineOf(line);
    if l.HeaderLine? && l.field.Stored? then [l.field.header] else []
  }

  /** All other headers on all lines, in order. */
  function AllStored(lines: seq<bytes>): seq<HttpHeader> {
    if lines == [] then [] else AllStored(lines[..|lines| - 1]) + StoredOn(lines[|lines| - 1])
  }

  /** As many of them as are kept. */
  function Kept(headers: seq<HttpHeader>): seq<HttpHeader> {
    headers[..Min(|headers|, HEADER_LIMIT)]
  }

  /** The first occurrences, in order. */
  function Distinct(offers: seq<bytes>): seq<bytes> {
    if offers == [] then [] else AddOffer(Distinct(offers[..|offers| - 1]), offers[|offers| - 1])
  }

  function FactsOn(e: Env, lines: seq<bytes>): Facts {
    Facts(LatestKey(lines),
          SomeSays(lines, (f: Field) => f.WantsUpgrade?), SomeSays(lines, (f: Field) => f.WantsConnection?),
          LatestVersion(e, lines), Distinct(AllOffers(lines)), Kept(AllStored(lines)))
  }

  function FactsOf(c: Conn): Facts {
    Facts(c.key, c.upgrade, c.connection, c.version, c.offers, c.headers)
  }

  /** The connection in state http knows what the lines behind its request line say. */
  ghost predicate Knows(e: Env, c: Conn, lines: seq<bytes>) {
    FactsOf(c) == FactsOn(e, lines)
  }
}
