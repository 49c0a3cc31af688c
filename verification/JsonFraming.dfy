/** The `json` framing function on the peer's stream: what it does for whole documents, and where it fails. */
module JsonFraming {
  import opened Bytes
  import opened Frames
  import opened Connection
  import opened PeerStream
  import opened PeerRuns
  import opened JsonScan
  import opened JsonTree
  import opened JsonPlaces
  import opened JsonComplete
  import opened JsonPrefix
  import opened JsonScanner
  import opened Messages

  /** A document is sent as text; what is no document is dumped with the type it has. */
  function JsonCall(buf: bytes, length: nat, opcode: Opcode, data: FramingData): Framed {
    var n := JsonLength(buf, 0, length);
    if n > 0 then Framed(n, TEXT, data) else if n == 0 then Framed(0, opcode, data) else Framed(length, opcode, data)
  }

  function Json(): Framing {
    (buf: bytes, length: nat, read: nat, opcode: Opcode, data: FramingData) => JsonCall(buf, length, opcode, data)
  }

  method FramingJson(data: array<byte>, length: nat, opcode: Opcode, kept: FramingData, ghost z: nat)
    returns (framed: Framed)
    requires length <= z < data.Length && data[z] == NUL
    ensures framed == JsonCall(data[..], length, opcode, kept)
    ensures 0 <= framed.length <= z
  {
    ghost var d := data[..];
    var n := ScanJson(data, 0, length, d, z);
    if n > 0 {
      framed := Framed(n, TEXT, kept);
    } else if n == 0 {
      framed := Framed(0, opcode, kept);
    } else {
      framed := Framed(length, opcode, kept);
    }
  }

  lemma JsonAnswers()
    ensures NonNegative(Json())
  {
  }

  /** A document with the blanks in front of it. */
  datatype Document = Document(blank: bytes, json: JsonTree.Json)

  predicate Sound(x: Document) {
    Blank(x.blank) && WellFormed(x.json) && Scannable(x.json) && Bracketed(x.json)
  }

  function Text(x: Document): bytes {
    x.blank + Render(x.json)
  }

  /** The prefix of this length ends right behind a comma between entries. */
  predicate CommaAt(x: Document, n: nat) {
    n > |x.blank| && EndsAtComma(x.json, |x.blank|, n)
  }

  lemma {:induction false} ReadsText(d: bytes, i: nat, s: bytes, n: nat)
    requires n <= |d| && forall k :: i <= k < n && k < i + |s| ==> d[k] == s[k - i]
    ensures Reads(d, i, s, n)
    decreases |s|
  {
    if s != [] {
      assert i < n ==> d[i] == s[0];
      assert forall k :: i + 1 <= k < n && k < i + |s| ==> d[k] == s[1..][k - i - 1];
      ReadsText(d, i + 1, s[1..], n);
    }
  }

  lemma ReadsPart(buf: bytes, n: nat, t: bytes)
    requires n <= |t| && n <= |buf| && buf[..n] == t[..n]
    ensures Reads(buf, 0, t, n)
  {
    assert forall k :: 0 <= k < n ==> buf[k] == buf[..n][k] == t[..n][k] == t[k];
    ReadsText(buf, 0, t, n);
  }

  /** A document at the start of the data is found at its length, whatever follows it. */
  lemma FoundWhole(buf: bytes, n: nat, x: Document)
    requires Sound(x) && |Text(x)| <= n <= |buf| && buf[..|Text(x)|] == Text(x)
    ensures JsonLength(buf, 0, n) == |Text(x)| > 0
  {
    var t := Text(x);
    assert forall k :: 0 <= k < |t| ==> buf[k] == buf[..|t|][k];
    ReadsText(buf, 0, t, n);
    DocumentLength(buf, 0, x.blank, x.json, n);
    NotEmpty(x);
  }

  lemma NotEmpty(x: Document)
    requires Sound(x)
    ensures |Render(x.json)| > 0
  {
  }

  /** A proper prefix followed by a NUL is incomplete, or dumped if it ends behind a comma. */
  lemma FoundPart(buf: bytes, n: nat, x: Document)
    requires Sound(x) && n < |Text(x)| && n < |buf| && buf[..n] == Text(x)[..n] && buf[n] == NUL
    ensures JsonLength(buf, 0, n) == if CommaAt(x, n) then -1 else 0
  {
    var t := Text(x);
    ReadsPart(buf, n, t);
    DocumentPrefix(buf, 0, x.blank, x.json, n);
  }

  function Commas(x: Document): Unsafe {
    (n: nat) => CommaAt(x, n)
  }

  /** Sound documents are messages; they must not be cut right behind a comma between entries. */
  lemma DocumentIsMessage(x: Document)
    requires Sound(x)
    ensures Recognises(Json(), Text(x), Commas(x))
  {
    var t := Text(x);
    NotEmpty(x);
    forall buf: bytes, n: nat | |t| <= n <= |buf| && buf[..|t|] == t ensures JsonLength(buf, 0, n) == |t| > 0 {
      FoundWhole(buf, n, x);
    }
    forall buf: bytes, n: nat | n < |t| && n < |buf| && buf[..n] == t[..n] && buf[n] == NUL
      ensures JsonLength(buf, 0, n) == if Commas(x)(n) then -1 else 0
    {
      FoundPart(buf, n, x);
    }
  }

  lemma NoCommaAtEnd(x: Document)
    ensures !CommaAt(x, |Text(x)|)
  {
    RenderSize(x.json);
    if EndsAtComma(x.json, |x.blank|, |Text(x)|) {
      CommaIsInside(x.json, |x.blank|, |Text(x)|);
    }
  }

  /**
   One document in any number of reads: the client is sent exactly the document, as one text
   frame, if and only if no read ends right behind a comma between entries.
   */
  lemma DocumentInReads(e: Env, c: Conn, chunks: seq<bytes>, x: Document)
    requires Bridged(c) && c.peer.framing == Some(Json()) && Reliable(e, c.net) && PeerReadsFit(e, c, chunks)
    requires Sound(x) && c.peerOffset == 0 && Concat(chunks) == Text(x)
    ensures var r := PeerRun(e, c, chunks);
            if CutSafely(Commas(x), 0, chunks)
            then r.frames == [Frame(TEXT, Text(x))] && r.conn.state.Open? && r.conn.peerOffset == 0
            else r.frames != [Frame(TEXT, Text(x))]
  {
    DocumentIsMessage(x);
    NoCommaAtEnd(x);
    assert Residue(c) == [] && [] + Concat(chunks) == Concat(chunks);
    MessageInReads(e, c, chunks, Text(x), Commas(x));
  }

  function AllTexts(docs: seq<Document>): seq<bytes> {
    if docs == [] then [] else [Text(docs[0])] + AllTexts(docs[1..])
  }

  predicate AllSound(docs: seq<Document>) {
    docs == [] || (Sound(docs[0]) && AllSound(docs[1..]))
  }

  lemma {:induction false} DocumentsAreMessages(docs: seq<Document>)
    requires AllSound(docs)
    ensures TakesEach(Json(), AllTexts(docs))
  {
    if docs != [] {
      DocumentIsMessage(docs[0]);
      DocumentsAreMessages(docs[1..]);
    }
  }

  /**
   A read that ends where a document ends: the rest of a document begun earlier and any
   further documents are sent as one text frame each, and nothing stays behind.
   */
  lemma DocumentsInRead(e: Env, c: Conn, data: bytes, docs: seq<Document>)
    requires Bridged(c) && c.peer.framing == Some(Json()) && FitsPeer(c, data) && Reliable(e, c.net)
    requires docs != [] && AllSound(docs) && Residue(c) + data == Concat(AllTexts(docs))
    requires c.peerOffset < |Text(docs[0])|
    ensures var r := PeerData(e, c, Chunk(data));
            r.frames == AsText(AllTexts(docs)) && r.conn.state.Open? && r.conn.peerOffset == 0
  {
    DocumentsAreMessages(docs);
    MessagesInRead(e, c, data, AllTexts(docs));
  }

  /** What a document of which the first `n` bytes are there lacks; none in the blanks in front of it. */
  function LackingAt(x: Document, n: nat): Option<bytes> {
    if n <= |x.blank| then None else Lacking(x.json, |x.blank|, n)
  }

  /** Behind `n` bytes of the document the buffer goes on with all that the document lacks. */
  predicate Completed(buf: bytes, x: Document, n: nat) {
    LackingAt(x, n).Some? && Stands(buf, n, LackingAt(x, n).value)
  }

  /** A proper prefix, whatever comes behind it. */
  lemma {:induction false} FoundCut(buf: bytes, n: nat, x: Document)
    requires Sound(x) && 0 < n < |Text(x)| && n <= |buf| && buf[..n] == Text(x)[..n]
    ensures var r := JsonLength(buf, 0, n);
            && (Completed(buf, x, n) <==> r > 0) && (r > 0 ==> r > n)
            && (r < 0 <==> CommaAt(x, n) && !InnermostStands(buf, x, n))
  {
    var t := Text(x);
    ReadsPart(buf, n, t);
    if n <= |x.blank| {
      BlanksCut(buf, 0, x.blank, x.json, n);
    } else {
      DocumentCut(buf, 0, x.blank, x.json, n);
      if Lacking(x.json, |x.blank|, n).Some? {
        LackingIsVisible(x.json, |x.blank|, n);
      }
      if CommaAt(x, n) {
        CommaLacks(x.json, |x.blank|, n);
      }
    }
  }

  /** The closer of the innermost container stands right behind the data. */
  predicate InnermostStands(buf: bytes, x: Document, n: nat) {
    LackingAt(x, n).Some? && LackingAt(x, n).value != [] && At(buf, n) == LackingAt(x, n).value[0]
  }

  /** What becomes of the last, unfinished document of a read. */
  lemma {:induction false} PartRound(e: Env, fd: int, net: Net, t: Scan, x: Document)
    requires NonNegative(Json()) && Holds(t) && t.off == 0 && t.opcode == TEXT && fd >= 0 && Reliable(e, net)
    requires Sound(x) && Contents(t) < Text(x)
    ensures var y, n := PeerLoop(e, Json(), fd, net, t), t.read;
            if Completed(t.buf, x, n) then y.how.Overran? && y.frames == []
            else
              && y.how.Waits?
              && if CommaAt(x, n) && !InnermostStands(t.buf, x, n)
                 then y.frames == [Frame(TEXT, Contents(t))] && y.scan.off + y.scan.read == 0
                 else y.frames == [] && Contents(y.scan) == Contents(t)
  {
    assert t.buf[..t.read] == Text(x)[..t.read];
    FoundCut(t.buf, t.read, x);
    RoundSends(e, Json(), fd, net, t);
  }

  /** What a read tells that brought a part of a document last, with this behind the part in the buffer. */
  predicate PartTold(r: PeerResult, whole: seq<Frame>, left: bytes, x: Document, part: bytes) {
    && (r.conn.state.Closed? <==> Completed(left, x, |part|))
    && if r.conn.state.Closed? then r.frames == whole
       else
         && r.conn.peerOffset <= |r.conn.peerBuffer|
         && if CommaAt(x, |part|) && !InnermostStands(left, x, |part|)
            then r.frames == whole + [Frame(TEXT, part)] && r.conn.peerOffset == 0
            else r.frames == whole && Residue(r.conn) == part
  }

  lemma {:induction false} PartStored(e: Env, c: Conn, y: Ended, z: Ended, whole: seq<Frame>, left: bytes,
                                      x: Document, part: bytes)
    requires Bridged(c) && y.scan.off + y.scan.read <= |y.scan.buf| && z == y.(frames := whole + y.frames)
    requires if Completed(left, x, |part|) then y.how.Overran? && y.frames == []
             else
               && y.how.Waits?
               && if CommaAt(x, |part|) && !InnermostStands(left, x, |part|)
                  then y.frames == [Frame(TEXT, part)] && y.scan.off + y.scan.read == 0
                  else y.frames == [] && Contents(y.scan) == part
    ensures PartTold(Stored(e, c, z), whole, left, x, part)
  {
    assert whole + [] == whole;
  }

  /**
   A read that brings complete documents and a part of another one.  The complete ones are
   sent as one text frame each.  Behind the part, the buffer holds what the last cut left
   there.  If that begins with the closing bytes that the part lacks, innermost first, the
   connection is closed, and only then.  Otherwise the part waits in the buffer, or, right
   behind a comma that no closer follows, it is dumped.
   */
  lemma {:induction false} DocumentsThenPart(e: Env, c: Conn, data: bytes, docs: seq<Document>, x: Document,
                                             part: bytes)
    returns (left: bytes)
    requires Bridged(c) && c.peer.framing == Some(Json()) && FitsPeer(c, data) && Reliable(e, c.net)
    requires docs != [] && AllSound(docs) && Sound(x) && part != [] && part < Text(x)
    requires Residue(c) + data == Concat(AllTexts(docs)) + part && c.peerOffset < |Text(docs[0])|
    ensures |Concat(AllTexts(docs))| <= c.peerOffset + |data| && left == LeftBehind(c, data, docs)
    ensures PartTold(PeerData(e, c, Chunk(data)), AsText(AllTexts(docs)), left, x, part)
  {
    DocumentsAreMessages(docs);
    var texts := AllTexts(docs);
    var s := Loaded(c, data);
    var t, m := LoopTakesThen(e, Json(), c.wsFd, c.net, s, texts, part);
    left := t.buf;
    PartEnds(e, c, m, t, PeerLoop(e, Json(), c.wsFd, c.net, s), AsText(texts), x, part);
  }

  lemma {:induction false} PartEnds(e: Env, c: Conn, m: Net, t: Scan, z: Ended, whole: seq<Frame>, x: Document,
                                    part: bytes)
    requires Bridged(c) && c.peer.framing == Some(Json()) && Reliable(e, m)
    requires Holds(t) && t.off == 0 && t.opcode == TEXT && Contents(t) == part && Sound(x) && part < Text(x)
    requires var y := PeerLoop(e, Json(), c.wsFd, m, t); z == y.(frames := whole + y.frames)
    ensures PartTold(Stored(e, c, z), whole, t.buf, x, part)
  {
    PartRound(e, c.wsFd, m, t, x);
    LoopConserves(e, Json(), c.wsFd, m, t);
    PartStored(e, c, PeerLoop(e, Json(), c.wsFd, m, t), z, whole, t.buf, x, part);
  }

  /** The buffer once the documents have been cut off. */
  function LeftBehind(c: Conn, data: bytes, docs: seq<Document>): bytes
    requires |c.peerBuffer| == BUFFER_SIZE && FitsPeer(c, data)
    requires |Concat(AllTexts(docs))| <= c.peerOffset + |data|
  {
    AfterCuts(Filled(c.peerBuffer, c.peerOffset, data), c.peerOffset + |data|, AllTexts(docs))
  }

  /** It can be told from the read: behind the part it goes on with the end of the last document and of the part. */
  lemma {:induction false} LeftBehindIsKnown(c: Conn, data: bytes, docs: seq<Document>, part: bytes)
    requires |c.peerBuffer| == BUFFER_SIZE && FitsPeer(c, data) && docs != []
    requires c.peerBuffer[..c.peerOffset] + data == Concat(AllTexts(docs)) + part
    ensures |Concat(AllTexts(docs))| <= c.peerOffset + |data|
    ensures var left, last := LeftBehind(c, data, docs), Text(docs[|docs| - 1]);
            |part| + |last| <= |left| && left[..|part|] == part && left[|part|..|part| + |last|] == (last + part)[|part|..]
  {
    LastText(docs);
    BehindCuts(Filled(c.peerBuffer, c.peerOffset, data), c.peerOffset + |data|, AllTexts(docs), part);
  }

  lemma {:induction false} StandsIn(d: bytes, n: nat, s: bytes, behind: bytes)
    requires n + |behind| <= |d| && d[n..n + |behind|] == behind && |s| <= |behind|
    ensures Stands(d, n, s) <==> s <= behind
    decreases |s|
  {
    if s != [] {
      assert d[n] == d[n..n + |behind|][0] == behind[0];
      assert d[n + 1..n + |behind|] == d[n..n + |behind|][1..];
      StandsIn(d, n + 1, s[1..], behind[1..]);
      assert s <= behind <==> s[0] == behind[0] && s[1..] <= behind[1..] by {
        HeadAndRest(s, behind);
      }
    }
  }

  lemma HeadAndRest(s: bytes, t: bytes)
    requires 0 < |s| <= |t|
    ensures s <= t <==> s[0] == t[0] && s[1..] <= t[1..]
  {
    assert s == [s[0]] + s[1..] && t == [t[0]] + t[1..];
    if s[0] == t[0] && s[1..] <= t[1..] {
      assert s[1..] == t[1..][..|s| - 1];
      assert s == t[..|s|];
    }
  }

  /** A part that lacks no more bytes than the document in front of it has: the two texts decide. */
  lemma {:induction false} TextsDecide(c: Conn, data: bytes, docs: seq<Document>, x: Document, part: bytes)
    requires |c.peerBuffer| == BUFFER_SIZE && FitsPeer(c, data) && docs != []
    requires c.peerBuffer[..c.peerOffset] + data == Concat(AllTexts(docs)) + part
    requires LackingAt(x, |part|).Some? && |LackingAt(x, |part|).value| <= |Text(docs[|docs| - 1])|
    ensures |Concat(AllTexts(docs))| <= c.peerOffset + |data|
    ensures var lacking, behind := LackingAt(x, |part|).value, (Text(docs[|docs| - 1]) + part)[|part|..];
            Completed(LeftBehind(c, data, docs), x, |part|) <==> lacking <= behind
  {
    LeftBehindIsKnown(c, data, docs, part);
    var left, last := LeftBehind(c, data, docs), Text(docs[|docs| - 1]);
    var lacking, behind := LackingAt(x, |part|).value, (last + part)[|part|..];
    StandsIn(left, |part|, lacking, behind);
  }

  lemma {:induction false} LastText(docs: seq<Document>)
    requires docs != []
    ensures |AllTexts(docs)| == |docs| && AllTexts(docs)[|docs| - 1] == Text(docs[|docs| - 1])
  {
    if |docs| > 1 {
      LastText(docs[1..]);
    }
  }

  /** Two arrays in one read, the second incomplete. */
  const ARRAY_AND_HALF: bytes := [OPEN_ARRAY, 0x31, CLOSE_ARRAY, OPEN_ARRAY, 0x31]

  /** What is in the buffer when the first array has been moved out: a stale bracket, not a NUL. */
  lemma StaleBracketRead(buf: bytes)
    requires |buf| >= 3 && buf[0] == OPEN_ARRAY && buf[1] == 0x31 && buf[2] == CLOSE_ARRAY
    ensures JsonLength(buf, 0, 2) == 3
  {
    Dispatch(buf, 0, 2);
    assert Skip(buf, 1, 2) == 1 && !IsSpace(buf[1]);
    Dispatch(buf, 1, 2);
    assert NumberStop(buf, 2, 2) == 2;
    assert JsonLength(buf, 1, 2) == 1;
    StepAtValue(buf, 0, 1, true, 2, false, 1);
    assert AfterValue(buf, 0, 2, 2, false) == Step.Stop(3);
  }

  /**
   The terminator is not moved with the data: when a complete array and the first two bytes
   of another arrive in one read, the scanner finds the bracket of the first array behind
   the second and answers with more bytes than there are; the connection is closed.
   */
  lemma StaleBracketCloses(e: Env, c: Conn)
    requires Bridged(c) && c.peer.framing == Some(Json()) && c.peerOffset == 0 && Reliable(e, c.net)
    ensures var r := PeerData(e, c, Chunk(ARRAY_AND_HALF));
            && r.conn.state.Closed? && |r.frames| == 1 && r.frames[0].payload == ARRAY_AND_HALF[..3]
            && r.conn.net.client == c.net.client + Wire(r.frames) + ServerFrame(Frame(CLOSE, Ascii("Internal error")))
  {
    var s := Loaded(c, ARRAY_AND_HALF);
    StaleRounds(e, c.wsFd, c.net, s);
    ReadConserves(e, c, ARRAY_AND_HALF);
    SentOne(PeerData(e, c, Chunk(ARRAY_AND_HALF)).frames[0], []);
  }

  lemma StaleRounds(e: Env, fd: int, net: Net, s: Scan)
    requires s.off == 0 && s.read == 5 && |s.buf| > 5 && Contents(s) == ARRAY_AND_HALF
    requires NonNegative(Json()) && fd >= 0 && Reliable(e, net)
    ensures var x := PeerLoop(e, Json(), fd, net, s);
            x.how.Overran? && |x.frames| == 1 && x.frames[0].payload == ARRAY_AND_HALF[..3] && x.frames[0].opcode == TEXT
  {
    assert forall k :: 0 <= k < 5 ==> s.buf[k] == Contents(s)[k];
    FirstArray(s.buf);
    RoundSends(e, Json(), fd, net, s);
    var p := Round(e, Json(), fd, net, s);
    assert s.buf[..3] == ARRAY_AND_HALF[..3];
    var t := p.scan;
    assert t.buf[0] == s.buf[3] && t.buf[1] == s.buf[4] && t.buf[2] == s.buf[2];
    StaleBracketRead(t.buf);
  }

  lemma FirstArray(buf: bytes)
    requires |buf| > 5 && buf[0] == OPEN_ARRAY && buf[1] == 0x31 && buf[2] == CLOSE_ARRAY
    ensures JsonLength(buf, 0, 5) == 3
  {
    Dispatch(buf, 0, 5);
    assert Skip(buf, 1, 5) == 1 && !IsSpace(buf[1]);
    Dispatch(buf, 1, 5);
    assert NumberStop(buf, 2, 5) == 2;
    assert JsonLength(buf, 1, 5) == 1;
    StepAtValue(buf, 0, 1, true, 5, false, 1);
    assert Skip(buf, 2, 5) == 2;
    assert AfterValue(buf, 0, 2, 5, false) == Step.Stop(3);
  }
}
