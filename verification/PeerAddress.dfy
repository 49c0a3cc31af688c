/** How the address that the discovery backend gives is taken apart, in place, and what it amounts to. */
module PeerAddress {
  import opened Bytes
  import opened Memory
  import opened Connection
  import opened Handshake
  import Separators

  /** An address with everything in it. */
  function Address(t: Transport, host: bytes, port: bytes): bytes {
    Prefix(t) + if t in {TcpClient, UdpClient} then host + [0x3A] + port else host
  }

  /** The prefixes exclude each other. */
  lemma OnlyOnePrefix(s: bytes, t: Transport, u: Transport)
    requires Announces(s, t) && Announces(s, u)
    ensures u == t
  {
    assert s[0] == s[0..|Prefix(t)|][0] == Prefix(t)[0] && s[0] == s[0..|Prefix(u)|][0] == Prefix(u)[0];
    assert s[4] == s[0..|Prefix(t)|][4] == Prefix(t)[4] && s[4] == s[0..|Prefix(u)|][4] == Prefix(u)[4];
  }

  /** What is detected is the transport announced, and the rest is the host; without a prefix it is TCP. */
  lemma DetectionMeans(s: bytes)
    ensures forall t :: Announces(s, t) ==> DetectTransport(s) == Detected(t, s[|Prefix(t)|..])
    ensures (forall t :: !Announces(s, t)) ==> DetectTransport(s) == Detected(TcpClient, s)
  {
    forall t | Announces(s, t) ensures DetectTransport(s) == Detected(t, s[|Prefix(t)|..]) {
      DetectedAs(s, t);
    }
    if forall t :: !Announces(s, t) {
      NoneDetected(s);
    }
  }

  lemma PrefixDetected(t: Transport, rest: bytes)
    requires !t.Detect?
    ensures DetectTransport(Prefix(t) + rest) == Detected(t, rest)
  {
    PrefixOfAddress(t, rest);
    DetectionMeans(Prefix(t) + rest);
  }

  /** The prefixes by name. */
  lemma SchemesByName(rest: bytes)
    ensures DetectTransport(Ascii("tcp://") + rest) == Detected(TcpClient, rest)
    ensures DetectTransport(Ascii("udp://") + rest) == Detected(UdpClient, rest)
    ensures DetectTransport(Ascii("fifotx://") + rest) == Detected(FifoTx, rest)
    ensures DetectTransport(Ascii("fiforx://") + rest) == Detected(FifoRx, rest)
    ensures DetectTransport(Ascii("unix://") + rest) == Detected(UnixStream, rest)
    ensures DetectTransport(Ascii("unix-dgram://") + rest) == Detected(UnixDgram, rest)
  {
    PrefixDetected(TcpClient, rest);
    PrefixDetected(UdpClient, rest);
    PrefixDetected(FifoTx, rest);
    PrefixDetected(FifoRx, rest);
    PrefixDetected(UnixStream, rest);
    PrefixDetected(UnixDgram, rest);
  }

  lemma DetectedAs(s: bytes, t: Transport)
    requires Announces(s, t)
    ensures DetectTransport(s) == Detected(t, s[|Prefix(t)|..])
  {
    Earlier(s, t, TcpClient);
    Earlier(s, t, UdpClient);
    Earlier(s, t, FifoTx);
    Earlier(s, t, FifoRx);
    Earlier(s, t, UnixStream);
    Earlier(s, t, UnixDgram);
  }

  lemma NoneDetected(s: bytes)
    requires forall t :: !Announces(s, t)
    ensures DetectTransport(s) == Detected(TcpClient, s)
  {
    assert !Announces(s, TcpClient) && !Announces(s, UdpClient) && !Announces(s, FifoTx);
    assert !Announces(s, FifoRx) && !Announces(s, UnixStream) && !Announces(s, UnixDgram);
  }

  lemma Earlier(s: bytes, t: Transport, u: Transport)
    requires Announces(s, t)
    ensures Announces(s, u) <==> u == t
  {
    if Announces(s, u) {
      OnlyOnePrefix(s, t, u);
    }
  }

  /** The host and the port that are found behind the prefix. */
  lemma PortFound(host: bytes, port: bytes)
    ensures var s := host + [COLON] + port;
            var colon := IndexOf(s, 0, COLON);
            colon <= |host| && (s[..colon] == host && s[colon + 1..] == port <==> COLON !in host)
  {
    var s := host + [COLON] + port;
    assert s[|host|] == COLON;
    IndexIsFirst(s, 0, |host|);
    var colon := IndexOf(s, 0, COLON);
    assert colon < |host| ==> host[colon] == s[colon] == COLON;
    if colon == |host| {
      assert s[..|host|] == host && s[|host| + 1..] == port;
      assert forall k :: 0 <= k < |host| ==> host[k] == s[k];
    }
  }

  lemma {:induction false} IndexIsFirst(s: bytes, i: nat, j: nat)
    requires i <= j < |s| && s[j] == COLON
    ensures IndexOf(s, i, COLON) <= j
    ensures forall k :: i <= k < IndexOf(s, i, COLON) ==> s[k] != COLON
    decreases j - i
  {
    if s[i] != COLON {
      IndexIsFirst(s, i + 1, j);
    }
  }

  lemma PrefixOfAddress(t: Transport, rest: bytes)
    requires !t.Detect?
    ensures Announces(Prefix(t) + rest, t) && (Prefix(t) + rest)[|Prefix(t)|..] == rest
  {
    assert (Prefix(t) + rest)[0..|Prefix(t)|] == Prefix(t);
  }

  /**
   An address names the transport, the host and the port it was made of.  Where a port
   belongs to it, that is so if and only if the host has no colon: an IPv6 address does not
   come through.
   */
  lemma AddressRoundTrip(p: PeerInfo, t: Transport, host: bytes, port: bytes)
    requires !t.Detect? && p.transport.Detect? && p.port.None? && p.host == Some(Address(t, host, port))
    ensures var r := Resolve(p);
            && r.transport == t && r.protocol == p.protocol
            && r.framing == (if p.framing.None? then Some(Separators.Auto()) else p.framing)
            && if t in {TcpClient, UdpClient} then
                 r.port.Some? && (r.host == Some(host) && r.port == Some(port) <==> 0x3A !in host)
               else r.host == Some(host) && r.port == None
  {
    var rest := if NeedsPort(t) then host + [COLON] + port else host;
    PrefixDetected(t, rest);
    if NeedsPort(t) {
      PortFound(host, port);
    }
  }

  /** A transport that the backend gives is not looked for in the address, and a port that it gives not either. */
  lemma GivenIsKept(p: PeerInfo, host: bytes)
    requires p.host == Some(host) && !p.transport.Detect?
    ensures var r := Resolve(p);
            && r.transport == p.transport
            && (p.port.Some? || p.transport !in {TcpClient, UdpClient} ==> r.host == p.host && r.port == p.port)
            && (p.port.None? && p.transport in {TcpClient, UdpClient} && 0x3A !in host ==>
                  r.host == p.host && r.port == None)
  {
    if COLON !in host {
      IndexOfNone(host, 0, COLON);
    }
  }

  /** Without a prefix the address is one for TCP. */
  lemma BareAddress(p: PeerInfo, host: bytes, port: bytes)
    requires p.transport.Detect? && p.port.None? && p.host == Some(host + [COLON] + port)
    requires COLON !in host && (forall t :: !Announces(host + [COLON] + port, t))
    ensures Resolve(p).transport == TcpClient && Resolve(p).host == Some(host) && Resolve(p).port == Some(port)
  {
    DetectionMeans(host + [COLON] + port);
    PortFound(host, port);
  }

  /** The rest of the string moves to the front, its terminator with it. */
  method DropPrefix(a: array<byte>, n: nat, ghost s: bytes)
    requires CString(a, s) && n <= |s|
    modifies a
    ensures CString(a, s[n..])
  {
    var size := StrLen(a, s);
    ghost var before := a[..];
    assert before[n..size + 1] == s[n..] + [0];
    MemMove(a, 0, n, size - n + 1);
    ghost var rest := s[n..];
    assert a[0..size - n + 1] == rest + [0];
    assert a[..|rest|] == rest && a[|rest|] == (rest + [0])[|rest|];
  }

  /** A known prefix is taken off the host. */
  method TakePrefix(host: array<byte>, t: Transport, ghost s: bytes) returns (found: bool)
    requires CString(host, s) && !t.Detect?
    modifies host
    ensures found <==> Announces(s, t)
    ensures CString(host, if found then s[|Prefix(t)|..] else s)
  {
    PrefixIsText(t);
    found := StrNCmp(host, 0, Prefix(t), s);
    if found {
      DropPrefix(host, |Prefix(t)|, s);
    }
  }

  method DetectInPlace(host: array<byte>, ghost s: bytes) returns (t: Transport)
    requires CString(host, s)
    modifies host
    ensures t == DetectTransport(s).transport && CString(host, DetectTransport(s).host)
  {
    DetectionMeans(s);
    var found := TakePrefix(host, TcpClient, s);
    if found {
      return TcpClient;
    }
    found := TakePrefix(host, UdpClient, s);
    if found {
      return UdpClient;
    }
    found := TakePrefix(host, FifoTx, s);
    if found {
      return FifoTx;
    }
    found := TakePrefix(host, FifoRx, s);
    if found {
      return FifoRx;
    }
    found := TakePrefix(host, UnixStream, s);
    if found {
      return UnixStream;
    }
    found := TakePrefix(host, UnixDgram, s);
    if found {
      return UnixDgram;
    }
    NoneAnnounced(s);
    return TcpClient;
  }

  lemma TextHasNoNul(text: string)
    requires forall c :: c in text ==> ' ' <= c <= '~'
    ensures NoNul(Ascii(text))
  {
    assert forall i :: 0 <= i < |text| ==> text[i] in text;
  }

  lemma PrefixIsText(t: Transport)
    ensures NoNul(Prefix(t))
  {
    match t
    case TcpClient => TextHasNoNul("tcp://");
    case UdpClient => TextHasNoNul("udp://");
    case FifoTx => TextHasNoNul("fifotx://");
    case FifoRx => TextHasNoNul("fiforx://");
    case UnixStream => TextHasNoNul("unix://");
    case UnixDgram => TextHasNoNul("unix-dgram://");
    case Detect =>
  }

  lemma NoneAnnounced(s: bytes)
    requires !Announces(s, TcpClient) && !Announces(s, UdpClient) && !Announces(s, FifoTx) && !Announces(s, FifoRx)
    requires !Announces(s, UnixStream) && !Announces(s, UnixDgram)
    ensures forall t :: !Announces(s, t)
  {
  }

  /** The port is what follows the first colon, which becomes the end of the host. */
  method DetectPort(host: array<byte>, ghost s: bytes) returns (port: Option<bytes>)
    requires CString(host, s)
    modifies host
    ensures var colon := IndexOf(s, 0, COLON);
            if colon == |s| then port == None && CString(host, s)
            else port == Some(s[colon + 1..]) && CString(host, s[..colon])
  {
    var u := 0;
    while host[u] != 0
      invariant u <= |s| && CString(host, s) && IndexOf(s, 0, COLON) == IndexOf(s, u, COLON)
      decreases |s| - u
    {
      assert host[u] == s[u];
      if host[u] == COLON {
        var size := StrLen(host, s);
        port := Some(host[u + 1..size]);
        assert host[..size][u + 1..] == host[u + 1..size];
        host[u] := 0;
        assert host[..u] == s[..u];
        return;
      }
      u := u + 1;
    }
    assert u == |s|;
    port := None;
  }

  predicate CHost(p: PeerInfo) {
    p.host.Some? ==> NoNul(p.host.value)
  }

  /** The backend's hosts are C strings. */
  ghost predicate CHosts(e: Env) {
    forall path: Option<bytes>, offers: seq<bytes>, headers: seq<HttpHeader> {:trigger Queried(e, path, offers, headers)} ::
      CHost(Queried(e, path, offers, headers))
  }

  /** The steps by which the peer of the backend is completed. */
  method ResolvePeer(p: PeerInfo) returns (r: PeerInfo)
    requires CHost(p)
    ensures r == Resolve(p)
  {
    if p.host.None? {
      return p;
    }
    var host := Duplicate(p.host.value);
    r := p;
    if r.framing.None? {
      r := r.(framing := Some(Separators.Auto()));
    }
    r := ResolveTransport(r, host, p.host.value);
  }

  method ResolveTransport(p: PeerInfo, host: array<byte>, ghost s: bytes) returns (r: PeerInfo)
    requires CString(host, s)
    modifies host
    ensures r == WithTransport(p, s)
  {
    if p.transport.Detect? {
      var t := DetectInPlace(host, s);
      r := ResolvePort(p.(transport := t), host, DetectTransport(s).host);
    } else {
      r := ResolvePort(p, host, s);
    }
  }

  /** The port of an address that needs one and has none; the rest is the host. */
  method ResolvePort(p: PeerInfo, host: array<byte>, ghost s: bytes) returns (r: PeerInfo)
    requires CString(host, s)
    modifies host
    ensures r == WithPort(p, s)
  {
    ghost var rest := s;
    r := p;
    if NeedsPort(p.transport) && p.port.None? {
      var port := DetectPort(host, s);
      r := r.(port := port);
      rest := s[..IndexOf(s, 0, COLON)];
      assert IndexOf(s, 0, COLON) == |s| ==> rest == s;
    }
    var size := StrLen(host, rest);
    r := r.(host := Some(host[..size]));
  }
}
