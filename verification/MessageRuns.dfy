/**
 Runs of reads that bring several messages, cut anywhere, for a framing function of which it
 is known what it does with one read.
 */
module MessageRuns {
  import opened Bytes
  import opened Frames
  import opened Connection
  import opened PeerStream
  import opened PeerRuns
  import opened Messages

  /** The message that `n` bytes, from the start of the `i`-th one on, end in. */
  function EndsIn(texts: seq<bytes>, i: nat, n: nat): (j: nat)
    requires i <= |texts|
    ensures i <= j <= |texts|
    decreases |texts| - i
  {
    if i == |texts| || n < |texts[i]| then i else EndsIn(texts, i + 1, n - |texts[i]|)
  }

  /** What such bytes have of that message. */
  function PartOf(texts: seq<bytes>, i: nat, had: bytes): bytes
    requires i <= |texts|
    decreases |texts| - i
  {
    if i == |texts| || |had| < |texts[i]| then had else PartOf(texts, i + 1, had[|texts[i]|..])
  }

  lemma {:induction false} EndsThen(texts: seq<bytes>, i: nat, had: bytes, more: bytes)
    requires i <= |texts|
    ensures var j, part := EndsIn(texts, i, |had|), PartOf(texts, i, had);
            && EndsIn(texts, i, |had + more|) == EndsIn(texts, j, |part + more|)
            && PartOf(texts, i, had + more) == PartOf(texts, j, part + more)
    decreases |texts| - i
  {
    if i < |texts| && |had| >= |texts[i]| {
      var n := |texts[i]|;
      assert (had + more)[n..] == had[n..] + more;
      EndsThen(texts, i + 1, had[n..], more);
    }
  }

  /** The bytes are the beginning of these messages, one behind the other. */
  predicate BeginsAt(texts: seq<bytes>, i: nat, had: bytes)
    requires i <= |texts|
    decreases |texts| - i
  {
    if i == |texts| then had == []
    else if |had| < |texts[i]| then had <= texts[i]
    else texts[i] <= had && BeginsAt(texts, i + 1, had[|texts[i]|..])
  }

  lemma {:induction false} BeginsMeans(texts: seq<bytes>, i: nat, had: bytes)
    requires i <= |texts|
    ensures BeginsAt(texts, i, had) <==> had <= Concat(texts[i..])
    decreases |texts| - i
  {
    if i < |texts| {
      var t, more := texts[i], Concat(texts[i + 1..]);
      assert texts[i..] == [t] + texts[i + 1..];
      ConcatOne(t, texts[i + 1..]);
      if |had| >= |t| {
        BeginsMeans(texts, i + 1, had[|t|..]);
        SplitAt(had, |t|);
        PrefixInTwo(had, t, more);
      } else {
        assert (t + more)[..|had|] == t[..|had|];
      }
    }
  }

  lemma PrefixInTwo(had: bytes, t: bytes, more: bytes)
    requires |had| >= |t|
    ensures had <= t + more <==> t <= had && had[|t|..] <= more
  {
    if had <= t + more {
      assert had == (t + more)[..|had|];
      assert had[..|t|] == t && had[|t|..] == more[..|had| - |t|];
    }
  }

  lemma {:induction false} BeginsThen(texts: seq<bytes>, i: nat, had: bytes, more: bytes)
    requires i <= |texts| && BeginsAt(texts, i, had + more)
    ensures BeginsAt(texts, i, had)
    ensures BeginsAt(texts, EndsIn(texts, i, |had|), PartOf(texts, i, had) + more)
    decreases |texts| - i
  {
    if i < |texts| && |had| >= |texts[i]| {
      var n := |texts[i]|;
      assert (had + more)[n..] == had[n..] + more;
      assert (had + more)[..n] == had[..n];
      BeginsThen(texts, i + 1, had[n..], more);
    } else if i < |texts| && |had + more| >= |texts[i]| {
      assert had == (had + more)[..|had|] == texts[i][..|had|];
    }
  }

  /** They are the complete ones and a proper part of the next. */
  lemma {:induction false} Divides(texts: seq<bytes>, i: nat, had: bytes)
    requires i <= |texts| && BeginsAt(texts, i, had)
    ensures var j, part := EndsIn(texts, i, |had|), PartOf(texts, i, had);
            && had == Concat(texts[i..j]) + part
            && if j == |texts| then part == [] else part < texts[j]
    decreases |texts| - i
  {
    if i < |texts| && |had| >= |texts[i]| {
      Divides(texts, i + 1, had[|texts[i]|..]);
      FirstThenRest(texts, i, EndsIn(texts, i, |had|), had, PartOf(texts, i, had));
    } else {
      assert texts[i..i] == [] && [] + had == had;
    }
  }

  lemma FirstThenRest(texts: seq<bytes>, i: nat, j: nat, had: bytes, part: bytes)
    requires i < j <= |texts| && texts[i] <= had && had[|texts[i]|..] == Concat(texts[i + 1..j]) + part
    ensures had == Concat(texts[i..j]) + part
  {
    assert texts[i..j] == [texts[i]] + texts[i + 1..j];
    ConcatOne(texts[i], texts[i + 1..j]);
    Regroup(texts[i], Concat(texts[i + 1..j]), part);
    SplitAt(had, |texts[i]|);
  }

  /** The connection waits for the `i`-th message, a proper part of it in its buffer. */
  ghost predicate Expects(framing: Framing, texts: seq<bytes>, e: Env, c: Conn, i: nat) {
    && Bridged(c) && c.peer.framing == Some(framing) && Reliable(e, c.net) && i <= |texts|
    && if i == |texts| then c.peerOffset == 0 else Residue(c) < texts[i]
  }

  /** A test of reads, made when so many messages are complete. */
  type SafeTest = (Conn, bytes, nat) -> bool

  /** What a read does that is not safe: it closes, or sends the part as if it were a message. */
  predicate Spoils(r: PeerResult, n: nat, part: bytes) {
    r.conn.state.Closed? || (part != [] && |r.frames| == n + 1 && r.frames[n].payload == part)
  }

  /** What a read does after which `had` is there from the `i`-th message on. */
  ghost predicate ReadTold(framing: Framing, texts: seq<bytes>, safe: bool, e: Env, i: nat, had: bytes, r: PeerResult)
    requires i <= |texts|
  {
    var j, part := EndsIn(texts, i, |had|), PartOf(texts, i, had);
    if safe then
      r.frames == AsText(texts[i..j]) && Expects(framing, texts, e, r.conn, j) && Residue(r.conn) == part
    else j < |texts| && part < texts[j] && Spoils(r, j - i, part)
  }

  /** The test tells what this read does. */
  ghost predicate TellsRead(framing: Framing, texts: seq<bytes>, test: SafeTest, e: Env, c: Conn, data: bytes, i: nat) {
    Expects(framing, texts, e, c, i) && FitsPeer(c, data) && BeginsAt(texts, i, Residue(c) + data) ==>
      ReadTold(framing, texts, test(c, data, i), e, i, Residue(c) + data, PeerData(e, c, Chunk(data)))
  }

  ghost predicate TellsReads(framing: Framing, texts: seq<bytes>, test: SafeTest) {
    forall e: Env, c: Conn, data: bytes, i: nat {:trigger TellsRead(framing, texts, test, e, c, data, i)} ::
      TellsRead(framing, texts, test, e, c, data, i)
  }

  /** Every read of the run passes the test. */
  ghost predicate AllPass(texts: seq<bytes>, test: SafeTest, e: Env, c: Conn, i: nat, chunks: seq<bytes>)
    requires c.state.Open? ==> Bridged(c)
    requires PeerReadsFit(e, c, chunks) && i <= |texts|
    decreases |chunks|
  {
    chunks == [] || !c.state.Open? ||
    (test(c, chunks[0], i) &&
     (PeerDataKeeps(e, c, chunks[0]);
      var j := EndsIn(texts, i, c.peerOffset + |chunks[0]|);
      AllPass(texts, test, e, PeerData(e, c, Chunk(chunks[0])).conn, j, chunks[1..])))
  }

  /** What a run tells and keeps after which `had` is there from the `i`-th message on. */
  predicate RunTold(texts: seq<bytes>, safe: bool, i: nat, had: bytes, r: PeerResult)
    requires i <= |texts|
  {
    var told := AsText(texts[i..EndsIn(texts, i, |had|)]);
    if safe then
      && r.frames == told && r.conn.state.Open?
      && r.conn.peerOffset <= |r.conn.peerBuffer| && Residue(r.conn) == PartOf(texts, i, had)
    else r.frames != told || r.conn.state.Closed?
  }

  lemma {:induction false} AsTextAppend(a: seq<bytes>, b: seq<bytes>)
    ensures AsText(a + b) == AsText(a) + AsText(b)
    decreases |a|
  {
    if a == [] {
      assert a + b == b;
    } else {
      AsTextAppend(a[1..], b);
      FirstOfBoth(a, b);
      Regroup([Frame(TEXT, a[0])], AsText(a[1..]), AsText(b));
    }
  }

  lemma {:induction false} AsTextAt(texts: seq<bytes>, k: nat)
    requires k < |texts|
    ensures AsText(texts)[k].payload == texts[k]
  {
    if k > 0 {
      AsTextAt(texts[1..], k - 1);
    }
  }

  lemma SlicesJoin(texts: seq<bytes>, i: nat, j: nat, k: nat)
    requires i <= j <= k <= |texts|
    ensures texts[i..j] + texts[j..k] == texts[i..k] && AsText(texts[i..k]) == AsText(texts[i..j]) + AsText(texts[j..k])
  {
    AsTextAppend(texts[i..j], texts[j..k]);
  }

  /** A safe read and the rest of the run. */
  lemma ToldOn(framing: Framing, texts: seq<bytes>, e: Env, i: nat, had: bytes, more: bytes, first: PeerResult,
               safe: bool, rest: PeerResult, r: PeerResult)
    requires i <= |texts| && ReadTold(framing, texts, true, e, i, had, first)
    requires RunTold(texts, safe, EndsIn(texts, i, |had|), PartOf(texts, i, had) + more, rest)
    requires r.frames == first.frames + rest.frames && r.conn == rest.conn
    ensures RunTold(texts, safe, i, had + more, r)
  {
    var j, part := EndsIn(texts, i, |had|), PartOf(texts, i, had);
    var k := EndsIn(texts, j, |part + more|);
    EndsThen(texts, i, had, more);
    SlicesJoin(texts, i, j, k);
    SameFront(first.frames, rest.frames, AsText(texts[j..k]));
  }

  /** A read that is not safe spoils the run. */
  lemma SpoiltRun(framing: Framing, texts: seq<bytes>, e: Env, i: nat, had: bytes, more: bytes, first: PeerResult,
                  rest: PeerResult, r: PeerResult)
    requires i <= |texts| && ReadTold(framing, texts, false, e, i, had, first)
    requires r.frames == first.frames + rest.frames && r.conn == rest.conn
    requires first.conn.state.Closed? ==> rest.conn == first.conn
    ensures RunTold(texts, false, i, had + more, r)
  {
    var j, part := EndsIn(texts, i, |had|), PartOf(texts, i, had);
    EndsThen(texts, i, had, more);
    if !first.conn.state.Closed? {
      SpoiltFrames(texts, i, j, EndsIn(texts, i, |had + more|), part, first.frames, rest.frames);
    }
  }

  lemma SpoiltFrames(texts: seq<bytes>, i: nat, j: nat, k: nat, part: bytes, frames: seq<Frame>, more: seq<Frame>)
    requires i <= j <= k <= |texts| && j < |texts| && part < texts[j]
    requires |frames| == j - i + 1 && frames[j - i].payload == part
    ensures frames + more != AsText(texts[i..k])
  {
    var all, told := frames + more, AsText(texts[i..k]);
    assert |all| > j - i && all[j - i] == frames[j - i];
    if j < k {
      AsTextAt(texts[i..k], j - i);
      assert told[j - i].payload == texts[j];
    }
  }

  /** The first read of a run: what is there after it, and what becomes of the connection. */
  lemma FirstRead(framing: Framing, texts: seq<bytes>, test: SafeTest, e: Env, c: Conn, i: nat, chunks: seq<bytes>)
    returns (safe: bool, had: bytes, first: PeerResult)
    requires TellsReads(framing, texts, test) && Expects(framing, texts, e, c, i)
    requires chunks != [] && PeerReadsFit(e, c, chunks) && BeginsAt(texts, i, Residue(c) + Concat(chunks))
    ensures had + Concat(chunks[1..]) == Residue(c) + Concat(chunks) && ReadTold(framing, texts, safe, e, i, had, first)
    ensures (first.conn.state.Open? ==> Bridged(first.conn)) && PeerReadsFit(e, first.conn, chunks[1..])
    ensures var r, rest := PeerRun(e, c, chunks), PeerRun(e, first.conn, chunks[1..]);
            r.frames == first.frames + rest.frames && r.conn == rest.conn
    ensures AllPass(texts, test, e, c, i, chunks) <==>
      safe && AllPass(texts, test, e, first.conn, EndsIn(texts, i, |had|), chunks[1..])
  {
    RunStep(e, c, chunks);
    first := PeerData(e, c, Chunk(chunks[0]));
    safe, had := test(c, chunks[0], i), Residue(c) + chunks[0];
    Regroup(Residue(c), chunks[0], Concat(chunks[1..]));
    BeginsThen(texts, i, had, Concat(chunks[1..]));
    assert TellsRead(framing, texts, test, e, c, chunks[0], i);
  }

  /**
   Several messages, cut into reads anywhere, the last of which may stop anywhere: the client
   is sent each message that is complete as one text frame, and the part of the next one
   stays in the buffer, if and only if every read passes the test.
   */
  lemma {:induction false} RunIsTold(framing: Framing, texts: seq<bytes>, test: SafeTest, e: Env, c: Conn, i: nat,
                                     chunks: seq<bytes>)
    requires TellsReads(framing, texts, test) && Expects(framing, texts, e, c, i)
    requires PeerReadsFit(e, c, chunks) && BeginsAt(texts, i, Residue(c) + Concat(chunks))
    ensures RunTold(texts, AllPass(texts, test, e, c, i, chunks), i, Residue(c) + Concat(chunks), PeerRun(e, c, chunks))
    decreases |chunks|
  {
    if chunks == [] {
      assert Residue(c) + [] == Residue(c) && AsText(texts[i..i]) == [];
    } else {
      var safe, had, first := FirstRead(framing, texts, test, e, c, i, chunks);
      var more, rest := Concat(chunks[1..]), PeerRun(e, first.conn, chunks[1..]);
      if safe {
        var j := EndsIn(texts, i, |had|);
        BeginsThen(texts, i, had, more);
        RunIsTold(framing, texts, test, e, first.conn, j, chunks[1..]);
        ToldOn(framing, texts, e, i, had, more, first,
               AllPass(texts, test, e, first.conn, j, chunks[1..]), rest, PeerRun(e, c, chunks));
      } else {
        SpoiltRun(framing, texts, e, i, had, more, first, rest, PeerRun(e, c, chunks));
      }
    }
  }
}
