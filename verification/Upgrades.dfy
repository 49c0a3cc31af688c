/**
 What it takes to get a connection open: the handshake's requirements told from the handled
 lines alone, the states over any sequence of lines, and the choice of a subprotocol.
 */
module Upgrades {
  import opened Bytes
  import opened Connection
  import opened Handshake

  lemma SaysMore(lines: seq<bytes>, line: bytes, f: Field -> bool)
    ensures SomeSays(lines + [line], f) <==> SomeSays(lines, f) || Says(line, f)
  {
    assert (lines + [line])[..|lines|] == lines;
  }

  predicate SaysAt(lines: seq<bytes>, f: Field -> bool, i: nat) {
    i < |lines| && Says(lines[i], f)
  }

  /** Some line says it, the last one or one in front of it. */
  lemma {:induction false} SomeSaysMeans(lines: seq<bytes>, f: Field -> bool)
    ensures SomeSays(lines, f) <==> exists i: nat :: SaysAt(lines, f, i)
  {
    if lines != [] {
      var n := |lines| - 1;
      SomeSaysMeans(lines[..n], f);
      assert forall i: nat :: i < n ==> SaysAt(lines[..n], f, i) == SaysAt(lines, f, i);
      assert SaysAt(lines, f, n) == Says(lines[n], f);
    }
  }

  lemma {:induction false} DistinctMore(a: seq<bytes>, b: seq<bytes>)
    ensures AddOffers(Distinct(a), b) == Distinct(a + b)
    decreases |b|
  {
    if b == [] {
      assert a + b == a;
    } else {
      var a1 := a + [b[0]];
      assert a1[..|a|] == a;
      DistinctMore(a1, b[1..]);
      assert a1 + b[1..] == a + b;
    }
  }

  lemma LinesMore(e: Env, lines: seq<bytes>, line: bytes)
    ensures LatestVersion(e, lines + [line]) == VersionAfter(e, line, LatestVersion(e, lines))
    ensures LatestKey(lines + [line]) == KeyAfter(line, LatestKey(lines))
    ensures AllStored(lines + [line]) == AllStored(lines) + StoredOn(line)
    ensures AllOffers(lines + [line]) == AllOffers(lines) + OffersOn(line)
  {
    assert (lines + [line])[..|lines|] == lines;
  }

  /** What taking a field down changes. */
  lemma NoteSays(e: Env, c: Conn, f: Field)
    ensures var d := Note(e, c, f);
            && d.key == (if f.TheKey? then Some(f.key) else c.key)
            && d.headers == (if f.Stored? && |c.headers| < HEADER_LIMIT then c.headers + [f.header] else c.headers)
            && (d.upgrade <==> c.upgrade || f.WantsUpgrade?)
            && (d.connection <==> c.connection || f.WantsConnection?)
            && d.version == (if f.Version? then ParsedVersion(e, f.text) else c.version)
            && d.offers == AddOffers(c.offers, if f.Offers? then f.offers else [])
  {
  }

  lemma KeptMore(headers: seq<HttpHeader>, more: seq<HttpHeader>)
    requires |more| <= 1
    ensures Kept(headers + more) == if |Kept(headers)| < HEADER_LIMIT then Kept(headers) + more else Kept(headers)
  {
  }

  lemma KnowsField(e: Env, c: Conn, lines: seq<bytes>, line: bytes, f: Field)
    requires Knows(e, c, lines) && LineOf(line) == HeaderLine(f)
    ensures Knows(e, Note(e, c, f), lines + [line])
  {
    SaysMore(lines, line, (f: Field) => f.WantsUpgrade?);
    SaysMore(lines, line, (f: Field) => f.WantsConnection?);
    LinesMore(e, lines, line);
    DistinctMore(AllOffers(lines), OffersOn(line));
    KeptMore(AllStored(lines), StoredOn(line));
    NoteSays(e, c, f);
  }

  lemma KnowsEmpty(e: Env, c: Conn, lines: seq<bytes>, line: bytes)
    requires Knows(e, c, lines) && LineOf(line).Empty?
    ensures Knows(e, c, lines + [line])
  {
    SaysMore(lines, line, (f: Field) => f.WantsUpgrade?);
    SaysMore(lines, line, (f: Field) => f.WantsConnection?);
    LinesMore(e, lines, line);
    DistinctMore(AllOffers(lines), []);
    KeptMore(AllStored(lines), []);
  }

  /** A line that leaves the connection in state http is taken down, or says nothing. */
  lemma KnowsMore(e: Env, c: Conn, lines: seq<bytes>, line: bytes)
    requires Knows(e, c, lines) && c.state.Http? && HandleHttp(e, c, line).state.Http?
    ensures Knows(e, HandleHttp(e, c, line), lines + [line])
  {
    match LineOf(line)
    case Empty =>
      KnowsEmpty(e, c, lines, line);
      UpgradeWaits(e, c);
    case HeaderLine(f) => KnowsField(e, c, lines, line, f);
    case _ => assert false;
  }

  /** An empty line that leaves the connection in state http changed nothing. */
  lemma UpgradeWaits(e: Env, c: Conn)
    requires c.state.Http? && Upgrade(e, c).state.Http?
    ensures Upgrade(e, c) == c
  {
  }

  /** A request line that is refused changes nothing. */
  lemma RefusedChangesNothing(e: Env, c: Conn, line: bytes)
    requires c.state.New?
    ensures Handle(e, c, line) == c <==> !IsRequest(line)
  {
  }

  /**
   An empty line changes nothing exactly if the version is 13 and something else is missing.
   Without version 13 it closes with 426, whatever else has been said; otherwise it asks for
   the peer.
   */
  lemma EmptyLineExact(e: Env, c: Conn, line: bytes)
    requires c.state.Http? && LineOf(line).Empty?
    ensures var complete := c.key.Some? && c.upgrade && c.connection;
            var d := HandleHttp(e, c, line);
            && (c.version == 13 && !complete ==> d == c)
            && (c.version != 13 ==> d == CloseConn(e, c, HttpError, Some(Ascii("426 Unsupported protocol version"))))
            && (c.version == 13 && complete ==> d.state.Open? || d.state.Closed?)
            && (d.state.Http? <==> c.version == 13 && !complete)
  {
  }

  /** A connection that was just accepted. */
  predicate Fresh(c: Conn) {
    && c.state.New? && c.wsFd >= 0 && c.peerFd < 0
    && c.key.None? && !c.upgrade && !c.connection && c.version == 0 && c.offers == [] && c.headers == []
  }

  function Rank(s: State): nat {
    match s
    case New => 0
    case Http => 1
    case Open => 2
    case Closed => 3
  }

  /** Between two calls of a handler. */
  ghost predicate Settled(c: Conn) {
    && (c.state.Open? <==> c.peerFd >= 0)
    && (c.state.Closed? <==> c.wsFd < 0)
    && (c.state.Open? ==> c.peer.framing.Some?)
    && |c.headers| <= HEADER_LIMIT
  }

  lemma {:induction false} SendAllFails(e: Env, fd: int, net: Net, texts: seq<bytes>)
    requires fd < 0 && texts != [] && texts[0] != []
    ensures var s := SendAll(e, fd, net, texts); s.failed && s.net.client == net.client && s.net.peer == net.peer
  {
    assert net.client + [] == net.client;
  }

  lemma UpgradeSettled(e: Env, c: Conn)
    requires Settled(c) && !c.state.New?
    ensures var d := Upgrade(e, c);
            && Settled(d) && Rank(d.state) >= Rank(c.state) && (d.state.Http? ==> d == c)
            && (c.state.Closed? ==> d.net.client == c.net.client && d.net.peer == c.net.peer)
  {
    if c.version == 13 && c.key.Some? && c.upgrade && c.connection && Connects(e, c) {
      var d := ClientConnect(e, c);
      if c.state.Closed? {
        SendAllFails(e, d.wsFd, d.net, Response(e, c.key.value, d.offers, d.peer.protocol));
      }
    }
  }

  lemma CloseSettled(e: Env, c: Conn, code: Reason, reason: Option<bytes>)
    requires Settled(c)
    ensures var d := CloseConn(e, c, code, reason);
            && Settled(d) && d.state.Closed?
            && (c.state.Closed? ==> d.net.client == c.net.client && d.net.peer == c.net.peer)
  {
  }

  /**
   Whatever a line does, whichever sends fail and wherever the connection was: the state
   only moves forward; closed stays closed, and nothing is sent any more; open comes with a
   peer, and closed without descriptors.
   */
  lemma HandleForward(e: Env, c: Conn, line: bytes)
    requires Settled(c)
    ensures var d := Handle(e, c, line);
            && Settled(d) && Rank(d.state) >= Rank(c.state) && (d.state.New? ==> d == c)
            && (c.state.Closed? ==> d.net.client == c.net.client && d.net.peer == c.net.peer)
  {
    if !c.state.New? {
      match LineOf(line)
      case Empty => UpgradeSettled(e, c);
      case Folded => CloseSettled(e, c, HttpError, Some(Ascii("500 Header folding")));
      case Malformed => CloseSettled(e, c, HttpError, Some(Ascii("500 Header format")));
      case HeaderLine(field) => NoteSettled(e, c, field);
    }
  }

  lemma NoteSettled(e: Env, c: Conn, f: Field)
    requires Settled(c)
    ensures var d := Note(e, c, f); Settled(d) && d.state == c.state && d.net == c.net
  {
  }

  lemma {:induction false} LinesForward(e: Env, c: Conn, lines: seq<bytes>)
    requires Settled(c)
    ensures var d := HandleLines(e, c, lines);
            && Settled(d) && Rank(d.state) >= Rank(c.state)
            && (c.state.Closed? ==> d.net.client == c.net.client && d.net.peer == c.net.peer)
    decreases |lines|
  {
    if lines != [] {
      LinesForward(e, c, lines[..|lines| - 1]);
      HandleForward(e, HandleLines(e, c, lines[..|lines| - 1]), lines[|lines| - 1]);
    }
  }

  lemma LastLine(lines: seq<bytes>, i: nat)
    requires i < |lines|
    ensures lines[..|lines| - 1][i..] + [lines[|lines| - 1]] == lines[i..]
  {
  }

  /** Line `r` is the request, whose path is kept, and the lines behind it are known. */
  ghost predicate KnowsFrom(e: Env, d: Conn, lines: seq<bytes>, r: nat) {
    r < |lines| && IsRequest(lines[r]) && d.path == Some(PathOf(lines[r])) && Knows(e, d, lines[r + 1..])
  }

  /** In state http the connection knows the path of its request line and exactly what the lines behind it say. */
  lemma {:induction false} HttpKnows(e: Env, c: Conn, lines: seq<bytes>) returns (r: nat)
    requires Fresh(c) && HandleLines(e, c, lines).state.Http?
    ensures KnowsFrom(e, HandleLines(e, c, lines), lines, r)
    decreases |lines|
  {
    var n := |lines| - 1;
    var front, last := lines[..n], lines[n];
    var d := HandleLines(e, c, front);
    LinesForward(e, c, front);
    HandleForward(e, d, last);
    if d.state.New? {
      NewIsFresh(e, c, front);
      PathIsTaken(e, c, lines, n);
      r := n;
    } else {
      r := HttpKnows(e, c, front);
      KnowsNext(e, c, lines, d, r);
    }
  }

  lemma PathStays(e: Env, c: Conn, line: bytes)
    requires c.state.Http? && HandleHttp(e, c, line).state.Http?
    ensures HandleHttp(e, c, line).path == c.path
  {
    match LineOf(line)
    case Empty => UpgradeWaits(e, c);
    case HeaderLine(f) => PathIsNoted(e, c, f);
    case _ =>
  }

  lemma PathIsNoted(e: Env, c: Conn, f: Field)
    ensures Note(e, c, f).path == c.path
  {
  }

  lemma PathIsTaken(e: Env, c: Conn, lines: seq<bytes>, n: nat)
    requires Fresh(c) && n + 1 == |lines| && Handle(e, c, lines[n]).state.Http?
    ensures KnowsFrom(e, Handle(e, c, lines[n]), lines, n)
  {
    assert lines[n + 1..] == [];
  }

  lemma {:induction false} KnowsNext(e: Env, c: Conn, lines: seq<bytes>, d: Conn, r: nat)
    requires lines != [] && d == HandleLines(e, c, lines[..|lines| - 1]) && d.state.Http?
    requires KnowsFrom(e, d, lines[..|lines| - 1], r) && HandleLines(e, c, lines).state.Http?
    ensures KnowsFrom(e, HandleLines(e, c, lines), lines, r)
  {
    var last := lines[|lines| - 1];
    PathStays(e, d, last);
    KnowsMore(e, d, lines[..|lines| - 1][r + 1..], last);
    LastLine(lines, r + 1);
  }

  /** Before the request line nothing is taken down. */
  lemma {:induction false} NewIsFresh(e: Env, c: Conn, lines: seq<bytes>)
    requires Fresh(c) && HandleLines(e, c, lines).state.New?
    ensures HandleLines(e, c, lines) == c
    decreases |lines|
  {
    if lines != [] {
      LinesForward(e, c, lines[..|lines| - 1]);
      HandleForward(e, HandleLines(e, c, lines[..|lines| - 1]), lines[|lines| - 1]);
      NewIsFresh(e, c, lines[..|lines| - 1]);
    }
  }

  /** The request was complete: section 4.2.1 of RFC 6455. */
  ghost predicate AllAsked(e: Env, lines: seq<bytes>) {
    && LatestKey(lines).Some?
    && SomeSays(lines, (f: Field) => f.WantsUpgrade?)
    && SomeSays(lines, (f: Field) => f.WantsConnection?)
    && LatestVersion(e, lines) == 13
  }

  /**
   Open is reached from http on an empty line only, and only if the lines behind the request
   line hold a key, an upgrade and a connection token, and the latest version on them is 13.
   If so, and if the backend's peer can be connected and all sends go through, it is reached.
   */
  lemma OpenExactly(e: Env, c: Conn, lines: seq<bytes>, line: bytes) returns (r: nat)
    requires Fresh(c) && HandleLines(e, c, lines).state.Http?
    ensures r < |lines| && IsRequest(lines[r])
    ensures var d := HandleLines(e, c, lines);
            HandleHttp(e, d, line).state.Open? <==>
              && LineOf(line).Empty? && AllAsked(e, lines[r + 1..]) && Connects(e, d)
              && !SendAll(e, d.wsFd, d.net, Answer(e, d)).failed
  {
    r := HttpKnows(e, c, lines);
    LinesForward(e, c, lines);
    OpensWhen(e, HandleLines(e, c, lines), line);
  }

  lemma OpensWhen(e: Env, d: Conn, line: bytes)
    requires Settled(d) && d.state.Http?
    ensures HandleHttp(e, d, line).state.Open? <==>
      && LineOf(line).Empty? && d.key.Some? && d.upgrade && d.connection && d.version == 13 && Connects(e, d)
      && !SendAll(e, d.wsFd, d.net, Answer(e, d)).failed
  {
    if LineOf(line).HeaderLine? {
      NoteSettled(e, d, LineOf(line).field);
    }
  }

  /** The response that an upgrade of this connection sends. */
  function Answer(e: Env, c: Conn): seq<bytes> {
    var d := ClientConnect(e, c);
    Response(e, if c.key.Some? then c.key.value else [], d.offers, d.peer.protocol)
  }

  lemma {:induction false} SendAllText(e: Env, fd: int, net: Net, texts: seq<bytes>)
    requires fd >= 0 && Reliable(e, net)
    ensures var s := SendAll(e, fd, net, texts);
            !s.failed && Reliable(e, s.net) && s.net.client == net.client + Concat(texts) && s.net.peer == net.peer
    decreases |texts|
  {
    if texts == [] {
      assert net.client + [] == net.client;
    } else {
      var s := SendClient(e, fd, net, texts[0]);
      assert texts[0][..|texts[0]|] == texts[0];
      SendAllText(e, fd, s.net, texts[1..]);
      Regroup(net.client, texts[0], Concat(texts[1..]));
    }
  }

  /** Whatever fails, a prefix of the texts goes out, and all of them unless a send fails. */
  lemma {:induction false} SendAllPrefix(e: Env, fd: int, net: Net, texts: seq<bytes>)
    ensures var s := SendAll(e, fd, net, texts);
            && s.net.client <= net.client + Concat(texts) && s.net.peer == net.peer
            && (!s.failed ==> s.net.client == net.client + Concat(texts))
    decreases |texts|
  {
    if texts == [] {
      assert net.client + [] == net.client;
    } else {
      var s := SendClient(e, fd, net, texts[0]);
      Regroup(net.client, texts[0], Concat(texts[1..]));
      if s.failed {
        LongerFront(net.client, s.net.client[|net.client|..], texts[0] + Concat(texts[1..]));
      } else {
        assert texts[0][..|texts[0]|] == texts[0];
        SendAllPrefix(e, fd, s.net, texts[1..]);
      }
    }
  }

  /**
   An upgrade whose peer is connected sends the whole response if the connection opens, a prefix
   of it if a send fails, and nothing else.
   */
  lemma UpgradeSends(e: Env, c: Conn)
    requires Settled(c) && c.state.Http? && c.version == 13 && c.key.Some? && c.upgrade && c.connection && Connects(e, c)
    ensures var d := Upgrade(e, c);
            && (d.state.Open? || d.state.Closed?) && d.net.peer == c.net.peer
            && d.net.client <= c.net.client + Concat(Answer(e, c))
            && (d.state.Open? ==> d.net.client == c.net.client + Concat(Answer(e, c)))
  {
    var d := ClientConnect(e, c);
    SendAllPrefix(e, d.wsFd, d.net, Answer(e, c));
  }

  /** Offers are stored once each. */
  lemma {:induction false} DistinctIsDistinct(offers: seq<bytes>)
    ensures forall i, j :: 0 <= i < j < |Distinct(offers)| ==> Distinct(offers)[i] != Distinct(offers)[j]
    ensures forall x :: x in Distinct(offers) <==> x in offers
  {
    if offers != [] {
      var front, last := offers[..|offers| - 1], offers[|offers| - 1];
      DistinctIsDistinct(front);
      assert offers == front + [last];
    }
  }

  /** They are in the order in which they were first made: dropping later offers drops a suffix. */
  lemma {:induction false} DistinctIsOrdered(a: seq<bytes>, b: seq<bytes>)
    ensures Distinct(a) <= Distinct(a + b)
    decreases |b|
  {
    if b == [] {
      assert a + b == a;
    } else {
      var front := b[..|b| - 1];
      DistinctIsOrdered(a, front);
      assert (a + b)[..|a + b| - 1] == a + front;
    }
  }

  /** The announced subprotocol, whatever the backend, is one that the client offered. */
  lemma AnnouncedIsOffered(e: Env, c: Conn, lines: seq<bytes>) returns (r: nat)
    requires Fresh(c) && HandleLines(e, c, lines).state.Http?
    ensures r < |lines|
    ensures var d := HandleLines(e, c, lines);
            var chosen := ClientConnect(e, d).peer.protocol;
            && (Announcement(d.offers, chosen) != [] <==> chosen < |d.offers|)
            && (chosen < |d.offers| ==>
                  Announcement(d.offers, chosen)[1] == d.offers[chosen] && d.offers[chosen] in AllOffers(lines[r + 1..]))
  {
    r := HttpKnows(e, c, lines);
    DistinctIsDistinct(AllOffers(lines[r + 1..]));
  }

  /** The first offer that equals the configured subprotocol up to letter case. */
  function Matching(offers: seq<bytes>, configured: bytes, p: nat): (r: nat)
    requires p <= |offers|
    ensures p <= r <= |offers|
    decreases |offers| - p
  {
    if p < |offers| && Lower(offers[p]) != Lower(configured) then Matching(offers, configured, p + 1) else p
  }

  /** The choice of the default backend: the configured subprotocol, the first one for `*`, or none. */
  function DefaultChoice(offers: seq<bytes>, configured: Option<bytes>): nat {
    match configured
    case None => |offers|
    case Some(name) => if name == Ascii("*") then 0 else Matching(offers, name, 0)
  }

  function DefaultPeer(peer: PeerInfo, configured: Option<bytes>): Query {
    (path: Option<bytes>, offers: seq<bytes>, headers: seq<HttpHeader>) => peer.(protocol := DefaultChoice(offers, configured))
  }

  /** With the default backend the peer's subprotocol is its choice among the offers. */
  lemma DefaultChooses(e: Env, c: Conn, peer: PeerInfo, configured: Option<bytes>)
    requires e.query == DefaultPeer(peer, configured)
    ensures ClientConnect(e, c).peer.protocol == DefaultChoice(c.offers, configured)
  {
  }

  method DefaultPeerQuery(peer: PeerInfo, configured: Option<bytes>, offers: seq<bytes>) returns (result: PeerInfo)
    ensures result == peer.(protocol := DefaultChoice(offers, configured))
  {
    result := peer.(protocol := |offers|);
    if configured.Some? {
      var p := 0;
      while p < |offers| && Lower(offers[p]) != Lower(configured.value)
        invariant p <= |offers| && Matching(offers, configured.value, 0) == Matching(offers, configured.value, p)
      {
        p := p + 1;
      }
      result := result.(protocol := p);
      if configured.value == Ascii("*") {
        result := result.(protocol := 0);
      }
    }
  }

  /** The same letter, small or capital, or the same octet. */
  predicate SameLetter(a: byte, b: byte) {
    || a == b
    || (0x41 <= a <= 0x5A && b as int == a as int + 0x20)
    || (0x41 <= b <= 0x5A && a as int == b as int + 0x20)
  }

  predicate SameWord(a: bytes, b: bytes) {
    |a| == |b| && forall i :: 0 <= i < |a| ==> SameLetter(a[i], b[i])
  }

  /** Lower case is compared as letters are. */
  lemma LowerAgrees(a: bytes, b: bytes)
    ensures Lower(a) == Lower(b) <==> SameWord(a, b)
  {
    var x, y := Lower(a), Lower(b);
    if |a| == |b| {
      forall i | 0 <= i < |a| ensures x[i] == y[i] <==> SameLetter(a[i], b[i]) {
      }
    }
  }

  lemma {:induction false} MatchingIsFirst(offers: seq<bytes>, configured: bytes, p: nat)
    requires p <= |offers|
    ensures var r := Matching(offers, configured, p);
            && (forall i :: p <= i < r ==> !SameWord(offers[i], configured))
            && (r < |offers| ==> SameWord(offers[r], configured))
    decreases |offers| - p
  {
    if p < |offers| {
      LowerAgrees(offers[p], configured);
      if !SameWord(offers[p], configured) {
        MatchingIsFirst(offers, configured, p + 1);
      }
    }
  }

  /** What the default backend chooses: for `*` the first offer, otherwise the first that is the configured one. */
  lemma DefaultIsFirst(offers: seq<bytes>, configured: Option<bytes>)
    ensures var r := DefaultChoice(offers, configured);
            && (configured.None? ==> r == |offers|)
            && (configured == Some(Ascii("*")) ==> r == 0)
            && (configured.Some? && configured.value != Ascii("*") ==>
                  && r <= |offers|
                  && (forall i :: 0 <= i < r ==> !SameWord(offers[i], configured.value))
                  && (r < |offers| ==> SameWord(offers[r], configured.value)))
  {
    if configured.Some? {
      MatchingIsFirst(offers, configured.value, 0);
    }
  }

  /**
   When the default backend announces a subprotocol: for `*` whenever one is offered, and
   otherwise exactly if the configured one is, up to letter case.  Without configuration it
   announces none and refuses nobody, whatever is offered.
   */
  lemma DefaultAnnounces(offers: seq<bytes>, configured: Option<bytes>)
    ensures Announcement(offers, DefaultChoice(offers, configured)) != [] <==>
      && configured.Some?
      && if configured.value == Ascii("*") then offers != []
         else exists i :: 0 <= i < |offers| && SameWord(offers[i], configured.value)
  {
    if configured.Some? {
      MatchingIsFirst(offers, configured.value, 0);
    }
  }
}
