/**
 When a read under the `json` framing function ends with its bytes unexamined: exactly if the
 bytes from earlier reads are complete values, the last of which may be a number that the
 first new byte ends.  Bytes that have waited come to this only as an unfinished number; but
 what one such read leaves behind may be whole documents, and then the next one ends so too.
 */
module JsonStalls {
  import opened Bytes
  import opened Frames
  import opened Connection
  import opened PeerStream
  import opened PeerRuns
  import opened Segments
  import opened Stalls
  import opened Messages
  import opened JsonScan
  import opened JsonTree
  import opened JsonPlaces
  import opened JsonComplete
  import opened JsonStable
  import opened JsonLocal
  import opened JsonFraming

  /** Where a number starts behind blanks that are all the rest of the text. */
  predicate NumberAt(h: bytes, p: nat) {
    p < |h| && p == Skip(h, 0, |h|) && NumberText(h[p..])
  }

  /** Blanks and a number that reaches to the end. */
  predicate IsNumberTail(h: bytes) {
    NumberAt(h, Skip(h, 0, |h|))
  }

  /** Such a number whose last character is not a digit. */
  predicate UnfinishedNumber(h: bytes) {
    IsNumberTail(h) && h[|h| - 1] in {0x2E, 0x65, 0x45, 0x2B, 0x2D}
  }

  /** What is found in these bytes alone. */
  function Alone(h: bytes): int {
    JsonLength(h + [NUL], 0, |h|)
  }

  lemma AloneBounds(h: bytes)
    ensures -1 <= Alone(h) <= |h|
  {
    JsonBounds(h + [NUL], 0, |h|, |h|);
  }

  /** What is cut off the old bytes when `c` is the first new one, if it lies within them. */
  function CutOf(h: bytes, c: byte): nat {
    if IsNumberTail(h) then if EndsNumber(c) then |h| else 0
    else if Alone(h) > 0 then Alone(h) else 0
  }

  function JsonCut(c: byte): OldCut {
    (h: bytes) => CutOf(h, c)
  }

  /** The bytes are complete values one behind the other, the last of which may be a number that `c` ends. */
  predicate ComesTo(h: bytes, c: byte) {
    CutsUp(JsonCut(c), h)
  }

  lemma SharesPrefix(d: bytes, d2: bytes, m: nat, n2: nat)
    requires m <= n2 && m <= |d| && m <= |d2| && d[..m] == d2[..m]
    ensures Shares(d, m, d2, n2)
  {
    assert forall p :: 0 <= p < m ==> d[p] == d[..m][p] == d2[..m][p] == d2[p];
  }

  /** A number that reaches to the end of the old bytes, in front of `d[|h|]`. */
  lemma NumberIsTaken(d: bytes, h: bytes, n: nat)
    requires |h| < n <= |d| && d[..|h|] == h && IsNumberTail(h) && EndsNumber(d[|h|])
    ensures JsonLength(d, 0, n) == |h|
  {
    var p := Skip(h, 0, |h|);
    NumberStarts(d, h, n, p);
    ReadsNumber(d, p, h[p..], n, h);
    WholeNumber(d, p, h[p..], n);
    JsonCases(d, 0, n, p);
  }

  lemma NumberStarts(d: bytes, h: bytes, n: nat, p: nat)
    requires |h| <= n && |h| <= |d| && d[..|h|] == h && NumberAt(h, p)
    ensures Skip(d, 0, n) == p && IsNumberStart(At(d, p))
  {
    SharesPrefix(h, d, |h|, n);
    assert At(h, p) == h[p] == h[p..][0];
    SkipFound(d, 0, p, n, h);
  }

  /** Such a number is not cut, and is taken only if that byte ends it. */
  lemma NumberIsWhole(d: bytes, h: bytes, n: nat)
    requires |h| < n <= |d| && d[..|h|] == h && IsNumberTail(h)
    ensures JsonLength(d, 0, n) == |h| <==> EndsNumber(d[|h|])
    ensures JsonLength(d, 0, n) <= 0 || JsonLength(d, 0, n) >= |h|
  {
    if EndsNumber(d[|h|]) {
      NumberIsTaken(d, h, n);
    } else {
      var p := Skip(h, 0, |h|);
      NumberStarts(d, h, n, p);
      JsonCases(d, 0, n, p);
      NumberRuns(d, h, n, p);
    }
  }

  lemma NumberRuns(d: bytes, h: bytes, n: nat, p: nat)
    requires |h| < n <= |d| && d[..|h|] == h && NumberAt(h, p) && IsNumberStart(At(d, p)) && !EndsNumber(d[|h|])
    ensures ValueLength(d, p, n) <= 0 || p + ValueLength(d, p, n) > |h|
  {
    NotALiteral(d, p, n);
    NumberStops(d, p + 1, n);
    assert forall k :: p <= k < |h| ==> At(d, k) == d[..|h|][k] == h[p..][k - p];
    assert NumberStop(d, p + 1, n) >= |h|;
  }

  lemma {:induction false} SkipFound(d: bytes, i: nat, p: nat, n: nat, h: bytes)
    requires Shares(h, |h|, d, n) && i <= p == Skip(h, i, |h|) < |h| && !IsSpace(At(h, p))
    ensures Skip(d, i, n) == p
    decreases p - i
  {
    if i < p {
      SkipFound(d, i + 1, p, n, h);
    }
  }

  lemma ReadsNumber(d: bytes, p: nat, text: bytes, n: nat, h: bytes)
    requires p <= |h| <= n <= |d| && d[..|h|] == h && text == h[p..]
    ensures Reads(d, p, text, n)
  {
    forall k | p <= k < n && k < p + |text| ensures k < |d| && d[k] == text[k - p] {
      assert d[k] == d[..|h|][k];
    }
    ReadsText(d, p, text, n);
  }

  lemma NumberParts(d: bytes, p: nat, n: nat, h: bytes)
    requires p < |h| < n <= |d| && d[..|h|] == h && IsNumberStart(At(d, p)) && ValueLength(d, p, n) == |h| - p
    ensures NumberText(h[p..]) && EndsNumber(d[|h|])
  {
    NotALiteral(d, p, n);
    NumberStops(d, p + 1, n);
    assert NumberStop(d, p + 1, n) == |h|;
    assert forall k :: p < k < |h| ==> h[k] == At(d, k);
    assert h[p] == At(d, p);
  }

  lemma NumberWaited(d0: bytes, p: nat, h: bytes)
    requires p < |h| <= |d0| && d0[..|h|] == h && NumberText(h[p..]) && ValueLength(d0, p, |h|) == 0
    ensures NeedsMoreDigits(h[|h| - 1])
  {
    NumberStops(d0, p + 1, |h|);
    assert forall k :: p <= k < |h| ==> At(d0, k) == h[k] == h[p..][k - p];
    assert NumberStop(d0, p + 1, |h|) == |h|;
  }

  /** The number at the end of data is a number that reaches to the end. */
  lemma LastIsNumber(h: bytes)
    requires Alone(h) == |h| > 0 && StartsNumber(h + [NUL], 0, |h|)
    ensures IsNumberTail(h)
  {
    var d := h + [NUL];
    var p := Skip(d, 0, |h|);
    JsonCases(d, 0, |h|, p);
    SharesPrefix(h, d, |h|, |h|);
    SkipShares(h, 0, |h|, d, |h|);
    NotALiteral(d, p, |h|);
    NumberStops(d, p + 1, |h|);
    assert forall k :: p < k < |h| ==> h[k] == At(d, k);
    assert h[p] == At(d, p);
  }

  lemma AloneExtends(h: bytes, d: bytes, n: nat)
    requires Alone(h) > 0 && !IsNumberTail(h) && |h| <= n && |h| <= |d| && d[..|h|] == h
    ensures JsonLength(d, 0, n) == Alone(h)
  {
    var a := h + [NUL];
    AloneBounds(h);
    assert a[..|h|] == h;
    SharesPrefix(a, d, |h|, n);
    if Alone(h) == |h| && StartsNumber(a, 0, |h|) {
      LastIsNumber(h);
    }
    if Alone(h) < |h| || OpensBracket(At(a, Skip(a, 0, |h|))) {
      JsonExtends(a, 0, |h|, d, n);
    } else {
      LiteralExtendsTo(a, d, |h|, n);
    }
  }

  /** A literal that ends with the data. */
  lemma LiteralExtendsTo(a: bytes, d: bytes, m: nat, n: nat)
    requires Extends(a, m, d, n) && JsonLength(a, 0, m) == m > 0
    requires !OpensBracket(At(a, Skip(a, 0, m))) && !StartsNumber(a, 0, m)
    ensures JsonLength(d, 0, n) == m
  {
    var p := Skip(a, 0, m);
    JsonCases(a, 0, m, p);
    SkipExtends(a, 0, m, d, n);
    LiteralExtends(a, p, m, d, n);
    JsonCases(d, 0, n, p);
  }

  /** What is cut within the old bytes is what is found in them alone. */
  lemma CutWithin(d: bytes, h: bytes, n: nat)
    requires h != [] && |h| < n <= |d| && d[..|h|] == h && !IsNumberTail(h)
    ensures 0 < JsonLength(d, 0, n) <= |h| <==> Alone(h) > 0
    ensures Alone(h) > 0 ==> JsonLength(d, 0, n) == Alone(h)
  {
    var r := JsonLength(d, 0, n);
    AloneBounds(h);
    if Alone(h) > 0 {
      AloneExtends(h, d, n);
    } else if 0 < r <= |h| {
      NotTheNumber(d, h, n, r);
      assert (h + [NUL])[..|h|] == h;
      SharesPrefix(h + [NUL], d, |h|, n);
      JsonShares(h + [NUL], 0, |h|, d, n);
    }
  }

  lemma NotTheNumber(d: bytes, h: bytes, n: nat, r: int)
    requires |h| < n <= |d| && d[..|h|] == h && !IsNumberTail(h) && r == JsonLength(d, 0, n) && 0 < r <= |h|
    ensures StartsNumber(d, 0, n) ==> r < |h|
  {
    var p := Skip(d, 0, n);
    JsonCases(d, 0, n, p);
    SharesPrefix(h, d, |h|, n);
    SkipShares(h, 0, |h|, d, n);
    if StartsNumber(d, 0, n) && r == |h| {
      NumberParts(d, p, n, h);
    }
  }

  function Anything(): Valid {
    (data: FramingData) => true
  }

  lemma OwnIsLength(buf: bytes, n: nat)
    ensures var r := JsonLength(buf, 0, n);
            Own(JsonFraming.Json(), buf, n) == if r >= 0 then r else n
  {
  }

  lemma CutIsFound(data: bytes, buf: bytes, h: bytes)
    requires data != []
    ensures CutAgrees(JsonFraming.Json(), JsonCut(data[0]), data, buf, h)
  {
    var n := |h| + |data|;
    if h != [] && n <= |buf| && buf[..n] == h + data {
      OwnIsLength(buf, n);
      NewBytes(buf, h, data);
      assert buf[|h|] == buf[|h|..n][0];
      if IsNumberTail(h) {
        NumberIsWhole(buf, h, n);
      } else {
        CutWithin(buf, h, n);
        AloneBounds(h);
      }
    }
  }

  /** The `json` framing function cuts like this. */
  lemma JsonCuts(data: bytes)
    requires data != []
    ensures Memoryless(JsonFraming.Json(), Anything()) && CutsText(JsonFraming.Json())
    ensures CutsBy(JsonFraming.Json(), JsonCut(data[0]), data)
  {
    forall buf: bytes, h: bytes ensures CutAgrees(JsonFraming.Json(), JsonCut(data[0]), data, buf, h) {
      CutIsFound(data, buf, h);
    }
  }

  /**
   For every residue: a read ends with its bytes unexamined if and only if the residue is
   complete values one behind the other, the last of which may be a number that the first new
   byte ends.  Then these values are sent, and all of the read stays behind.
   */
  lemma ResidueDecides(e: Env, c: Conn, data: bytes)
    requires Bridged(c) && c.peer.framing == Some(JsonFraming.Json()) && FitsPeer(c, data) && Reliable(e, c.net)
    ensures ReadStops(e, c, data) <==> ComesTo(Residue(c), data[0])
    ensures ComesTo(Residue(c), data[0]) ==>
      Tells(PeerData(e, c, Chunk(data)), AsText(Pieces(JsonCut(data[0]), Residue(c))), data)
  {
    JsonCuts(data);
    ReadStopsWhen(e, c, data, Anything(), JsonCut(data[0]));
    PiecesAreSent(e, c, data, Anything(), JsonCut(data[0]));
  }

  /** What is in the buffer, if anything is, has waited: the framing function has answered that it is incomplete. */
  predicate Waited(c: Conn)
    requires c.peerOffset <= |c.peerBuffer|
  {
    JsonLength(c.peerBuffer, 0, c.peerOffset) == 0
  }

  /** The condition for bytes that have waited: they are an unfinished number, and the first new byte ends it. */
  predicate EndsWaiting(h: bytes, data: bytes) {
    h != [] && data != [] && UnfinishedNumber(h) && data[0] in {0x2C, 0x20, 0x5D, 0x7D}
  }

  /** Bytes that have waited in `d` are values in this way only so. */
  lemma WaitedExactly(d: bytes, h: bytes, data: bytes)
    requires data != [] && |h| <= |d| && d[..|h|] == h && JsonLength(d, 0, |h|) == 0
    ensures ComesTo(h, data[0]) <==> EndsWaiting(h, data)
    ensures ComesTo(h, data[0]) ==> Pieces(JsonCut(data[0]), h) == [h]
  {
    if h != [] {
      if IsNumberTail(h) {
        var p := Skip(h, 0, |h|);
        NumberStarts(d, h, |h|, p);
        JsonCases(d, 0, |h|, p);
        NumberWaited(d, p, h);
      } else if Alone(h) > 0 {
        AloneExtends(h, d, |h|);
      }
    }
  }

  /** So a read behind bytes that have waited ends in this way exactly if they are such a number. */
  lemma ReadStallsExactly(e: Env, c: Conn, data: bytes)
    requires Bridged(c) && c.peer.framing == Some(JsonFraming.Json()) && FitsPeer(c, data) && Reliable(e, c.net)
    requires Waited(c)
    ensures ReadStops(e, c, data) <==> EndsWaiting(Residue(c), data)
    ensures EndsWaiting(Residue(c), data) ==> Tells(PeerData(e, c, Chunk(data)), [Frame(TEXT, Residue(c))], data)
  {
    ResidueDecides(e, c, data);
    WaitedExactly(c.peerBuffer, Residue(c), data);
    OneMessage(JsonFraming.Json(), Residue(c));
  }

  /** A read that does not end in this way leaves nothing, or bytes that have waited. */
  lemma ReadLeavesWaited(e: Env, c: Conn, data: bytes)
    requires Bridged(c) && c.peer.framing == Some(JsonFraming.Json()) && FitsPeer(c, data) && Reliable(e, c.net)
    ensures var d := PeerData(e, c, Chunk(data)).conn;
            d.state.Open? ==>
              Bridged(d) && d.peer == c.peer && Reliable(e, d.net) && (ReadStops(e, c, data) || Waited(d))
  {
    JsonCuts(data);
    ReadLeaves(e, c, data, Anything());
    var d := PeerData(e, c, Chunk(data)).conn;
    if d.state.Open? {
      OwnIsLength(d.peerBuffer, d.peerOffset);
    }
  }

  /** The first read of a run that meets an unfinished number and ends it, or their number if none does. */
  function FirstNumber(e: Env, c: Conn, chunks: seq<bytes>): (n: nat)
    requires c.state.Open? ==> Bridged(c)
    requires PeerReadsFit(e, c, chunks)
    ensures n <= |chunks|
    decreases |chunks|
  {
    if chunks == [] || !c.state.Open? then |chunks|
    else if EndsWaiting(Residue(c), chunks[0]) then 0
    else
      PeerDataKeeps(e, c, chunks[0]);
      1 + FirstNumber(e, PeerData(e, c, Chunk(chunks[0])).conn, chunks[1..])
  }

  /** Over a run from an empty buffer, or from bytes that have waited, the first such read is exactly that one. */
  lemma {:induction false} FirstStopsAtNumber(e: Env, c: Conn, chunks: seq<bytes>)
    requires Bridged(c) && c.peer.framing == Some(JsonFraming.Json()) && Reliable(e, c.net) && Waited(c)
    requires PeerReadsFit(e, c, chunks)
    ensures FirstStopped(e, c, chunks) == FirstNumber(e, c, chunks)
    decreases |chunks|
  {
    if chunks != [] {
      RunStep(e, c, chunks);
      ReadStallsExactly(e, c, chunks[0]);
      ReadLeavesWaited(e, c, chunks[0]);
      var d := PeerData(e, c, Chunk(chunks[0])).conn;
      if d.state.Open? && !ReadStops(e, c, chunks[0]) {
        FirstStopsAtNumber(e, d, chunks[1..]);
      }
    }
  }

  const PART_OF_NUMBER: bytes := [0x31, 0x65]
  const ARRAY_BEHIND: bytes := [SPACE, OPEN_ARRAY, 0x32, CLOSE_ARRAY]

  lemma PartOfNumber(buf: bytes)
    requires |buf| >= 3 && buf[0] == 0x31 && buf[1] == 0x65 && buf[2] == NUL
    ensures JsonLength(buf, 0, 2) == 0
  {
    Dispatch(buf, 0, 2);
    assert NumberStop(buf, 2, 2) == 2;
    assert NumberStop(buf, 1, 2) == 2;
  }

  lemma FirstWaits(e: Env, c: Conn)
    requires Bridged(c) && c.peer.framing == Some(JsonFraming.Json()) && c.peerOffset == 0 && Reliable(e, c.net)
    ensures var r := PeerData(e, c, Chunk(PART_OF_NUMBER));
            && Tells(r, [], PART_OF_NUMBER) && Bridged(r.conn) && r.conn.peer == c.peer && r.conn.net == c.net
            && Waited(r.conn)
  {
    var s := Loaded(c, PART_OF_NUMBER);
    assert forall k :: 0 <= k < 2 ==> s.buf[k] == s.buf[..2][k] == PART_OF_NUMBER[k];
    PartOfNumber(s.buf);
    NothingFound(e, c.wsFd, c.net, s);
    PeerDataKeeps(e, c, PART_OF_NUMBER);
  }

  lemma NothingFound(e: Env, fd: int, net: Net, s: Scan)
    requires Holds(s) && NonNegative(JsonFraming.Json()) && JsonLength(s.buf, 0, s.off + s.read) == 0
    ensures PeerLoop(e, JsonFraming.Json(), fd, net, s) == Ended(s, net, [], Waits)
  {
    assert Round(e, JsonFraming.Json(), fd, net, s) == Progress.Stop(Ended(s, net, [], Waits));
  }

  lemma {:induction false} TwoReads(e: Env, c: Conn, a: bytes, b: bytes, d: Conn)
    requires Bridged(c) && FitsPeer(c, a) && d == PeerData(e, c, Chunk(a)).conn && Bridged(d) && FitsPeer(d, b)
    ensures PeerReadsFit(e, c, [a, b])
    ensures PeerRun(e, c, [a, b]).frames == PeerData(e, c, Chunk(a)).frames + PeerData(e, d, Chunk(b)).frames
    ensures PeerRun(e, c, [a, b]).conn == PeerData(e, d, Chunk(b)).conn
  {
    OneRead(e, d, b);
    var chunks := [a, b];
    assert chunks[0] == a && chunks[1..] == [b];
    RunStep(e, c, chunks);
  }

  lemma {:induction false} OneRead(e: Env, c: Conn, a: bytes)
    requires Bridged(c) && FitsPeer(c, a)
    ensures PeerReadsFit(e, c, [a]) && PeerRun(e, c, [a]).frames == PeerData(e, c, Chunk(a)).frames
    ensures PeerRun(e, c, [a]).conn == PeerData(e, c, Chunk(a)).conn
  {
    var chunks, r := [a], PeerData(e, c, Chunk(a));
    assert chunks[0] == a && chunks[1..] == [];
    PeerDataKeeps(e, c, a);
    RunStep(e, c, chunks);
    assert r.frames + [] == r.frames;
  }

  /** `1e` waits; when ` [2]` arrives, `1e` is sent, and the complete array stays in the buffer. */
  lemma CompleteArrayWaits(e: Env, c: Conn)
    requires Bridged(c) && c.peer.framing == Some(JsonFraming.Json()) && c.peerOffset == 0 && Reliable(e, c.net)
    ensures PeerReadsFit(e, c, [PART_OF_NUMBER, ARRAY_BEHIND])
    ensures Tells(PeerRun(e, c, [PART_OF_NUMBER, ARRAY_BEHIND]), [Frame(TEXT, PART_OF_NUMBER)], ARRAY_BEHIND)
  {
    var first := PeerData(e, c, Chunk(PART_OF_NUMBER)).conn;
    FirstWaits(e, c);
    UnfinishedPart();
    ReadStallsExactly(e, first, ARRAY_BEHIND);
    PeerDataKeeps(e, first, ARRAY_BEHIND);
    TwoReads(e, c, PART_OF_NUMBER, ARRAY_BEHIND, first);
    assert [] + [Frame(TEXT, PART_OF_NUMBER)] == [Frame(TEXT, PART_OF_NUMBER)];
  }

  lemma UnfinishedPart()
    ensures EndsWaiting(PART_OF_NUMBER, ARRAY_BEHIND)
  {
    assert Skip(PART_OF_NUMBER, 0, 2) == 0;
    assert PART_OF_NUMBER[0..] == PART_OF_NUMBER;
  }

  lemma RootByte(j: JsonTree.Json)
    requires WellFormed(j) && Bracketed(j)
    ensures Render(j) != [] && OpensBracket(Render(j)[0])
  {
  }

  /** A whole document in the buffer comes to itself, whatever follows. */
  lemma DocumentComes(x: Document, c: byte)
    requires Sound(x)
    ensures ComesTo(Text(x), c) && Pieces(JsonCut(c), Text(x)) == [Text(x)]
  {
    var t := Text(x);
    var buf := t + [NUL];
    assert buf[..|t|] == t;
    FoundWhole(buf, |t|, x);
    NoNumberTail(x);
  }

  lemma NoNumberTail(x: Document)
    requires Sound(x)
    ensures !IsNumberTail(Text(x))
  {
    var t, p := Text(x), |x.blank|;
    RootByte(x.json);
    assert t[p] == Render(x.json)[0];
    assert t[..|t|] == t;
    ReadsPart(t, |t|, t);
    ReadsSplit(t, 0, x.blank, Render(x.json), |t|);
    SkipBlanks(t, 0, x.blank, |t|);
    assert t[p..][0] == t[p];
  }

  /** The texts of all but the last of `x` and `docs`. */
  function AllButLast(x: Document, docs: seq<Document>): seq<bytes>
    decreases |docs|
  {
    if docs == [] then [] else [Text(x)] + AllButLast(docs[0], docs[1..])
  }

  function Final(x: Document, docs: seq<Document>): Document
    decreases |docs|
  {
    if docs == [] then x else Final(docs[0], docs[1..])
  }

  /**
   Once a whole document is in the buffer the connection stays one read behind: whichever
   documents the next reads bring, one each, every read sends the document of the read before
   it, and its own stays in the buffer.
   */
  lemma {:induction false} LagsBehind(e: Env, c: Conn, x: Document, docs: seq<Document>)
    requires Bridged(c) && c.peer.framing == Some(JsonFraming.Json()) && Reliable(e, c.net)
    requires Sound(x) && AllSound(docs) && Residue(c) == Text(x) && PeerReadsFit(e, c, AllTexts(docs))
    ensures Tells(PeerRun(e, c, AllTexts(docs)), AsText(AllButLast(x, docs)), Text(Final(x, docs)))
    decreases |docs|
  {
    if docs != [] {
      var chunks := AllTexts(docs);
      var data, more := Text(docs[0]), AllTexts(docs[1..]);
      assert chunks[0] == data && chunks[1..] == more;
      RunStep(e, c, chunks);
      var d := PeerData(e, c, Chunk(data)).conn;
      LagsOneRead(e, c, x, data);
      LagsBehind(e, d, docs[0], docs[1..]);
      LagsOn(Text(x), AllButLast(docs[0], docs[1..]));
    }
  }

  lemma LagsOneRead(e: Env, c: Conn, x: Document, data: bytes)
    requires Bridged(c) && c.peer.framing == Some(JsonFraming.Json()) && Reliable(e, c.net)
    requires Sound(x) && Residue(c) == Text(x) && FitsPeer(c, data)
    ensures var r := PeerData(e, c, Chunk(data));
            && Tells(r, [Frame(TEXT, Text(x))], data)
            && Bridged(r.conn) && r.conn.peer == c.peer && Reliable(e, r.conn.net)
  {
    DocumentComes(x, data[0]);
    ResidueDecides(e, c, data);
    OneMessage(JsonFraming.Json(), Text(x));
    ReadLeavesWaited(e, c, data);
  }

  lemma LagsOn(t: bytes, more: seq<bytes>)
    ensures AsText([t] + more) == [Frame(TEXT, t)] + AsText(more)
  {
    assert ([t] + more)[1..] == more;
  }

  /** An array of one entry without blanks. */
  function OneEntry(value: JsonTree.Json): JsonTree.Json {
    Compound(false, Last(NoKey, [], value, []))
  }

  lemma {:induction false} OneEntryIsSound(value: JsonTree.Json)
    requires WellFormed(value) && Scannable(value)
    ensures WellFormed(OneEntry(value)) && Scannable(OneEntry(value)) && Bracketed(OneEntry(value))
    ensures Render(OneEntry(value)) == [OPEN_ARRAY] + Render(value) + [CLOSE_ARRAY]
  {
    var entries := Last(NoKey, [], value, []);
    assert KeyText(NoKey) + [] + Render(value) + [] == Render(value);
    assert RenderEntries(entries, false) == Render(value) + [CLOSE_ARRAY];
  }

  /** The array that `1e` leaves behind is a document. */
  lemma ArrayIsDocument()
    ensures var x := Document([SPACE], OneEntry(Leaf(Number, [0x32]))); Sound(x) && Text(x) == ARRAY_BEHIND
  {
    OneEntryIsSound(Leaf(Number, [0x32]));
  }
}
