/** Runs of reads that bring several JSON documents, cut anywhere. */
module JsonRuns {
  import opened Bytes
  import opened Connection
  import opened PeerStream
  import opened PeerRuns
  import opened Messages
  import opened MessageRuns
  import opened JsonFraming

  lemma {:induction false} TextOf(docs: seq<Document>, i: nat)
    requires i < |docs|
    ensures |AllTexts(docs)| == |docs| && AllTexts(docs)[i] == Text(docs[i])
    decreases |docs|
  {
    if i > 0 {
      TextOf(docs[1..], i - 1);
    } else {
      CountTexts(docs);
    }
  }

  lemma {:induction false} CountTexts(docs: seq<Document>)
    ensures |AllTexts(docs)| == |docs|
  {
    if docs != [] {
      CountTexts(docs[1..]);
    }
  }

  lemma TextsOf(docs: seq<Document>, i: nat, j: nat)
    requires i <= j <= |docs|
    ensures |AllTexts(docs)| == |docs| && AllTexts(docs[i..j]) == AllTexts(docs)[i..j]
  {
    CountTexts(docs);
    CountTexts(docs[i..j]);
    forall k | 0 <= k < j - i ensures AllTexts(docs[i..j])[k] == AllTexts(docs)[i..j][k] {
      TextOf(docs[i..j], k);
      TextOf(docs, i + k);
    }
  }

  lemma {:induction false} SoundAt(docs: seq<Document>, i: nat)
    requires AllSound(docs) && i < |docs|
    ensures Sound(docs[i])
    decreases |docs|
  {
    if i > 0 {
      SoundAt(docs[1..], i - 1);
    }
  }

  lemma {:induction false} SoundBetween(docs: seq<Document>, i: nat, j: nat)
    requires AllSound(docs) && i <= j <= |docs|
    ensures AllSound(docs[i..j])
    decreases j - i
  {
    if i < j {
      SoundAt(docs, i);
      SoundBetween(docs, i + 1, j);
      assert docs[i..j][0] == docs[i] && docs[i..j][1..] == docs[i + 1..j];
    }
  }

  /**
   Whether a read leaves the part of a document that it ends with, if any, in the buffer.  A
   part behind whole documents must not meet the closing bytes that it lacks in what the last
   cut left behind it, nor end behind a comma that the closer of its container does not
   follow; a part of the document that was begun earlier must not end behind a comma at all.
   The documents before the `i`-th one were complete before the read.
   */
  predicate ReadIsSafe(docs: seq<Document>, c: Conn, data: bytes, i: nat)
    requires |c.peerBuffer| == BUFFER_SIZE && FitsPeer(c, data) && i <= |docs| == |AllTexts(docs)|
  {
    var had := Residue(c) + data;
    var j, m := EndsIn(AllTexts(docs), i, |had|), |PartOf(AllTexts(docs), i, had)|;
    j == |docs| || m == 0 || PartIsSafe(docs, c, data, i, j, m)
  }

  predicate PartIsSafe(docs: seq<Document>, c: Conn, data: bytes, i: nat, j: nat, m: nat)
    requires |c.peerBuffer| == BUFFER_SIZE && FitsPeer(c, data) && i <= j < |docs|
  {
    if i == j then !CommaAt(docs[j], m)
    else
      && |Concat(AllTexts(docs[i..j]))| <= c.peerOffset + |data|
      && LeavesPart(LeftBehind(c, data, docs[i..j]), docs[j], m)
  }

  predicate LeavesPart(left: bytes, x: Document, m: nat) {
    !Completed(left, x, m) && (CommaAt(x, m) ==> InnermostStands(left, x, m))
  }

  function SafeReads(docs: seq<Document>): SafeTest {
    (c: Conn, data: bytes, i: nat) =>
      && |c.peerBuffer| == BUFFER_SIZE && FitsPeer(c, data) && i <= |docs| == |AllTexts(docs)|
      && ReadIsSafe(docs, c, data, i)
  }

  /** The read brings the documents up to the `j`-th one and this part of it. */
  ghost predicate Brings(docs: seq<Document>, e: Env, c: Conn, data: bytes, i: nat, j: nat, part: bytes) {
    && Bridged(c) && c.peer.framing == Some(Json()) && Reliable(e, c.net) && AllSound(docs) && FitsPeer(c, data)
    && i <= j <= |docs| && Residue(c) + data == Concat(AllTexts(docs[i..j])) + part
    && (i < |docs| ==> c.peerOffset < |Text(docs[i])|)
    && if j == |docs| then part == [] else part < Text(docs[j])
  }

  /** What becomes of the connection, and what it tells. */
  ghost predicate Told(docs: seq<Document>, safe: bool, e: Env, i: nat, j: nat, part: bytes, r: PeerResult)
    requires i <= j <= |docs|
  {
    if safe then
      && r.frames == AsText(AllTexts(docs[i..j])) && Bridged(r.conn) && r.conn.peer.framing == Some(Json())
      && Reliable(e, r.conn.net) && Residue(r.conn) == part
    else j < |docs| && Spoils(r, j - i, part)
  }

  lemma WholeRead(docs: seq<Document>, e: Env, c: Conn, data: bytes, i: nat, j: nat)
    requires Brings(docs, e, c, data, i, j, []) && i < j
    ensures Told(docs, true, e, i, j, [], PeerData(e, c, Chunk(data)))
  {
    var whole := docs[i..j];
    SoundBetween(docs, i, j);
    DocumentsAreMessages(whole);
    assert whole[0] == docs[i];
    assert Concat(AllTexts(whole)) + [] == Concat(AllTexts(whole));
    MessagesInRead(e, c, data, AllTexts(whole));
    PeerDataKeeps(e, c, data);
    ReadConserves(e, c, data);
  }

  lemma PartRead(docs: seq<Document>, e: Env, c: Conn, data: bytes, i: nat, part: bytes)
    requires Brings(docs, e, c, data, i, i, part) && i < |docs|
    ensures Told(docs, !CommaAt(docs[i], |part|), e, i, i, part, PeerData(e, c, Chunk(data)))
  {
    assert docs[i..i] == [] && [] + part == part;
    SoundAt(docs, i);
    DocumentIsMessage(docs[i]);
    PartInRead(e, c, data, Text(docs[i]), Commas(docs[i]));
  }

  lemma WholeThenPart(docs: seq<Document>, e: Env, c: Conn, data: bytes, i: nat, j: nat, part: bytes)
    requires Brings(docs, e, c, data, i, j, part) && i < j < |docs| && part != []
    ensures |Concat(AllTexts(docs[i..j]))| <= c.peerOffset + |data|
    ensures Told(docs, LeavesPart(LeftBehind(c, data, docs[i..j]), docs[j], |part|), e, i, j, part,
                 PeerData(e, c, Chunk(data)))
  {
    var whole := docs[i..j];
    SoundBetween(docs, i, j);
    SoundAt(docs, j);
    assert whole[0] == docs[i];
    CountTexts(whole);
    var left := DocumentsThenPart(e, c, data, whole, docs[j], part);
    PeerDataKeeps(e, c, data);
    ReadConserves(e, c, data);
  }

  /** One read. */
  lemma ReadServes(docs: seq<Document>, e: Env, c: Conn, data: bytes, i: nat, j: nat, part: bytes)
    requires Brings(docs, e, c, data, i, j, part)
    ensures var safe := part == [] || PartIsSafe(docs, c, data, i, j, |part|);
            Told(docs, safe, e, i, j, part, PeerData(e, c, Chunk(data)))
  {
    if part != [] {
      if i == j {
        PartRead(docs, e, c, data, i, part);
      } else {
        WholeThenPart(docs, e, c, data, i, j, part);
      }
    } else {
      NothingBetween(docs, i);
      WholeRead(docs, e, c, data, i, j);
    }
  }

  lemma NothingBetween(docs: seq<Document>, i: nat)
    requires i <= |docs|
    ensures Concat(AllTexts(docs[i..i])) == []
  {
    assert docs[i..i] == [];
  }

  lemma ReadIsTold(docs: seq<Document>, e: Env, c: Conn, data: bytes, i: nat)
    requires AllSound(docs)
    ensures TellsRead(Json(), AllTexts(docs), SafeReads(docs), e, c, data, i)
  {
    var texts := AllTexts(docs);
    CountTexts(docs);
    if Expects(Json(), texts, e, c, i) && FitsPeer(c, data) && BeginsAt(texts, i, Residue(c) + data) {
      var had := Residue(c) + data;
      var j, part := EndsIn(texts, i, |had|), PartOf(texts, i, had);
      Divides(texts, i, had);
      TextsOf(docs, i, j);
      if i < |docs| {
        TextOf(docs, i);
      }
      if j < |docs| {
        TextOf(docs, j);
        SoundAt(docs, j);
        NotEmpty(docs[j]);
      }
      ReadServes(docs, e, c, data, i, j, part);
    }
  }

  /** Every read of the run is safe. */
  ghost predicate RunIsSafe(docs: seq<Document>, e: Env, c: Conn, chunks: seq<bytes>)
    requires c.state.Open? ==> Bridged(c)
    requires PeerReadsFit(e, c, chunks)
  {
    AllPass(AllTexts(docs), SafeReads(docs), e, c, 0, chunks)
  }

  /**
   Several documents, cut into reads anywhere, the last of which may stop anywhere: the client
   is sent each document that is complete as one text frame, and the part of the next one
   stays in the buffer, if and only if every read is safe.
   */
  lemma DocumentsInReads(docs: seq<Document>, e: Env, c: Conn, chunks: seq<bytes>)
    requires AllSound(docs) && Expects(Json(), AllTexts(docs), e, c, 0) && PeerReadsFit(e, c, chunks)
    requires Residue(c) + Concat(chunks) <= Concat(AllTexts(docs))
    ensures RunTold(AllTexts(docs), RunIsSafe(docs, e, c, chunks), 0, Residue(c) + Concat(chunks), PeerRun(e, c, chunks))
  {
    var texts, test := AllTexts(docs), SafeReads(docs);
    forall d: Env, b: Conn, data: bytes, i: nat ensures TellsRead(Json(), texts, test, d, b, data, i) {
      ReadIsTold(docs, d, b, data, i);
    }
    assert texts[0..] == texts;
    BeginsMeans(texts, 0, Residue(c) + Concat(chunks));
    RunIsTold(Json(), texts, test, e, c, 0, chunks);
  }
}
