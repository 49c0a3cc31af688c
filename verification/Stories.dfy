/** How a connection came to be open, told from all lines handled on it over a whole run. */
module Stories {
  import opened Bytes
  import opened Connection
  import opened PeerRuns
  import opened Handshake
  import opened Upgrades
  import opened Runs

  ghost predicate Unheard(c: Conn) {
    c.key.None? && !c.upgrade && !c.connection && c.version == 0 && c.offers == [] && c.headers == []
  }

  /** Some line is a request, and the lines from there on are known to the connection. */
  ghost predicate Requested(e: Env, c: Conn, lines: seq<bytes>) {
    exists r :: 0 <= r < |lines| && IsRequest(lines[r]) && Knows(e, c, lines[r + 1..])
  }

  /** There is a request, an empty line behind it, and in between all that the handshake asks for. */
  ghost predicate WasComplete(e: Env, lines: seq<bytes>) {
    exists r, m :: 0 <= r < m < |lines| && AskedAt(e, lines, r, m)
  }

  ghost predicate AskedAt(e: Env, lines: seq<bytes>, r: nat, m: nat)
    requires r < m < |lines|
  {
    IsRequest(lines[r]) && LineOf(lines[m]).Empty? && AllAsked(e, lines[r + 1..m])
  }

  /** What the state says about the lines handled so far. */
  ghost predicate Story(e: Env, c: Conn, lines: seq<bytes>) {
    match c.state
    case New => Unheard(c)
    case Http => Requested(e, c, lines)
    case Open => WasComplete(e, lines)
    case Closed => true
  }

  lemma CompleteStays(e: Env, lines: seq<bytes>, line: bytes)
    requires WasComplete(e, lines)
    ensures WasComplete(e, lines + [line])
  {
    var r, m :| 0 <= r < m < |lines| && AskedAt(e, lines, r, m);
    assert (lines + [line])[r + 1..m] == lines[r + 1..m];
    assert AskedAt(e, lines + [line], r, m);
  }

  lemma RequestGoesOn(e: Env, c: Conn, lines: seq<bytes>, line: bytes)
    requires Settled(c) && c.state.Http? && Requested(e, c, lines)
    ensures Story(e, HandleHttp(e, c, line), lines + [line])
  {
    var r :| 0 <= r < |lines| && IsRequest(lines[r]) && Knows(e, c, lines[r + 1..]);
    HandleForward(e, c, line);
    var d := HandleHttp(e, c, line);
    if d.state.Http? {
      RequestStays(e, c, d, lines, line, r);
    } else if d.state.Open? {
      RequestOpens(e, c, lines, line, r);
    }
  }

  lemma RequestStays(e: Env, c: Conn, d: Conn, lines: seq<bytes>, line: bytes, r: nat)
    requires c.state.Http? && d == HandleHttp(e, c, line) && d.state.Http?
    requires r < |lines| && IsRequest(lines[r]) && Knows(e, c, lines[r + 1..])
    ensures Requested(e, d, lines + [line])
  {
    var all := lines + [line];
    assert all[r + 1..] == lines[r + 1..] + [line] && all[r] == lines[r];
    KnowsMore(e, c, lines[r + 1..], line);
  }

  lemma RequestOpens(e: Env, c: Conn, lines: seq<bytes>, line: bytes, r: nat)
    requires Settled(c) && c.state.Http? && HandleHttp(e, c, line).state.Open?
    requires r < |lines| && IsRequest(lines[r]) && Knows(e, c, lines[r + 1..])
    ensures WasComplete(e, lines + [line])
  {
    var all := lines + [line];
    OpensWhen(e, c, line);
    assert all[r + 1..|lines|] == lines[r + 1..] && all[r] == lines[r];
    assert AskedAt(e, all, r, |lines|);
  }

  lemma LineTells(e: Env, c: Conn, lines: seq<bytes>, line: bytes)
    requires Settled(c) && Story(e, c, lines)
    ensures Story(e, Handle(e, c, line), lines + [line])
  {
    HandleForward(e, c, line);
    match c.state
    case New =>
      var all := lines + [line];
      assert all[|lines|] == line && all[|lines| + 1..] == [];
    case Http => RequestGoesOn(e, c, lines, line);
    case Open => CompleteStays(e, lines, line);
    case Closed =>
  }

  lemma {:induction false} LinesTell(e: Env, c: Conn, lines: seq<bytes>, more: seq<bytes>)
    requires Settled(c) && Story(e, c, lines)
    ensures Story(e, HandleLines(e, c, more), lines + more)
    decreases |more|
  {
    if more == [] {
      assert lines + more == lines;
    } else {
      var front, last := more[..|more| - 1], more[|more| - 1];
      LinesTell(e, c, lines, front);
      LinesForward(e, c, front);
      LineTells(e, HandleLines(e, c, front), lines + front, last);
      FrontAndLast(lines, more, front, last);
    }
  }

  lemma FrontAndLast(lines: seq<bytes>, more: seq<bytes>, front: seq<bytes>, last: bytes)
    requires more != [] && front == more[..|more| - 1] && last == more[|more| - 1]
    ensures lines + front + [last] == lines + more
  {
  }

  function LinesIn(event: Event): seq<bytes> {
    if event.HttpRead? then event.lines else []
  }

  function AllLines(events: seq<Event>): seq<bytes> {
    if events == [] then [] else AllLines(events[..|events| - 1]) + LinesIn(events[|events| - 1])
  }

  /** Other events change nothing that the story is about, or close. */
  lemma OthersKeepStory(e: Env, c: Conn, event: Event)
    requires Inv(c) && Possible(c, event) && !event.HttpRead?
    ensures var d := Step(e, c, event);
            d.state.Closed? || (d.state == c.state && FactsOf(d) == FactsOf(c))
  {
    match event
    case FrameRead(chunk) => FramesAreSafe(e, c.(input := c.input + chunk));
    case FromPeer(input) => PeerKeepsFacts(e, c, input);
    case _ =>
  }

  lemma PeerKeepsFacts(e: Env, c: Conn, input: PeerInput)
    requires Inv(c) && c.state.Open? && (input.Chunk? ==> FitsPeer(c, input.data))
    ensures var d := PeerData(e, c, input).conn;
            d.state.Closed? || (d.state == c.state && FactsOf(d) == FactsOf(c))
  {
  }

  lemma SameStory(e: Env, c: Conn, d: Conn, lines: seq<bytes>)
    requires Story(e, c, lines) && d.state == c.state && FactsOf(d) == FactsOf(c)
    ensures Story(e, d, lines)
  {
    if c.state.Http? {
      var r :| 0 <= r < |lines| && IsRequest(lines[r]) && Knows(e, c, lines[r + 1..]);
      assert Knows(e, d, lines[r + 1..]);
    }
  }

  lemma StepTells(e: Env, c: Conn, event: Event, lines: seq<bytes>)
    requires ProperEnv(e) && Inv(c) && Possible(c, event) && Story(e, c, lines)
    ensures Story(e, Step(e, c, event), lines + LinesIn(event))
  {
    if event.HttpRead? {
      LinesTell(e, c, lines, event.lines);
      var d := HandleLines(e, c, event.lines);
      if !Step(e, c, event).state.Closed? {
        SameStory(e, d, Step(e, c, event), lines + event.lines);
      }
    } else {
      OthersKeepStory(e, c, event);
      assert lines + [] == lines;
      var d := Step(e, c, event);
      if !d.state.Closed? {
        SameStory(e, c, d, lines);
      }
    }
  }

  /**
   Over every run: an open connection has handled a request line and then, up to an empty
   line, a key, an upgrade and a connection token, and 13 as the latest version.
   */
  lemma {:induction false} OpenWasAskedFor(e: Env, states: seq<Conn>, events: seq<Event>, i: nat)
    requires ProperEnv(e) && IsRun(e, states, events) && Accepted(states[0]) && i < |states|
    ensures Story(e, states[i], AllLines(events[..i]))
    decreases i
  {
    if i > 0 {
      OpenWasAskedFor(e, states, events, i - 1);
      RunKeeps(e, states, events, i - 1, i - 1);
      assert Follows(e, states[i - 1], events[i - 1], states[i]);
      StepTells(e, states[i - 1], events[i - 1], AllLines(events[..i - 1]));
      assert events[..i][..i - 1] == events[..i - 1];
    }
  }
}
