/**
 Streams made of segments that announce their lengths, with the length field written out, and
 what the `dynamic32` framing function makes of them.
 */
module LengthPrefixes {
  import opened Bytes
  import opened Cutting
  import opened Connection
  import opened PeerRuns
  import opened Segments
  import opened DynamicLength

  /** A 32-bit number as it stands in the stream, most or least significant octet first. */
  function FieldText(n: int, big: bool): (s: bytes)
    ensures |s| == 4
  {
    var a, b := (n / 0x100_0000 % 0x100) as byte, (n / 0x1_0000 % 0x100) as byte;
    var c, d := (n / 0x100 % 0x100) as byte, (n % 0x100) as byte;
    if big then [a, b, c, d] else [d, c, b, a]
  }

  lemma FieldTextIs(n: nat)
    requires n < TWO_TO_32
    ensures FromBE(FieldText(n, true)) == n && FromLE(FieldText(n, false)) == n
  {
    FourValues(FieldText(n, true));
    assert Reverse(FieldText(n, false)) == FieldText(n, true);
    assert n / 0x100_0000 * 0x100 + n / 0x1_0000 % 0x100 == n / 0x1_0000;
    assert n / 0x1_0000 * 0x100 + n / 0x100 % 0x100 == n / 0x100;
  }

  /** The field is read as the number that was written, in either byte order and whatever is around it. */
  lemma FieldRoundTrip(o: Options, head: bytes, n: nat, rest: bytes)
    requires |head| == o.offset && n < TWO_TO_32
    ensures FieldOf(o, head + FieldText(n, o.big) + rest) == n
  {
    FieldTextIs(n);
    var s := head + FieldText(n, o.big) + rest;
    assert s[o.offset..o.offset + 4] == FieldText(n, o.big);
  }

  /** A segment: what stands in front of its length field, and what behind. */
  datatype Segment = Segment(head: bytes, body: bytes)

  /** The field is at its offset and can express the length, and the segment fits the buffer. */
  predicate Fitting(o: Options, g: Segment) {
    |g.head| == o.offset && 0 <= |g.body| - o.fixed < TWO_TO_32 && o.offset + 4 + |g.body| <= 16383
  }

  predicate AllFitting(o: Options, segments: seq<Segment>) {
    segments == [] || (Fitting(o, segments[0]) && AllFitting(o, segments[1..]))
  }

  /** The field holds the number of bytes behind it, less the static part. */
  function Written(o: Options, g: Segment): bytes {
    g.head + FieldText(|g.body| - o.fixed, o.big) + g.body
  }

  function AllWritten(o: Options, segments: seq<Segment>): seq<bytes> {
    if segments == [] then [] else [Written(o, segments[0])] + AllWritten(o, segments[1..])
  }

  /** These segments, and a proper part of one more. */
  predicate Stream(o: Options, segments: seq<Segment>, last: Segment, part: bytes, stream: bytes) {
    && AllFitting(o, segments) && Fitting(o, last) && part < Written(o, last)
    && stream == Concat(AllWritten(o, segments)) + part
  }

  lemma WrittenAnnounces(o: Options, g: Segment, rest: bytes)
    requires Fitting(o, g)
    ensures Announced(o, Written(o, g) + rest) == |Written(o, g)|
  {
    Regroup(g.head + FieldText(|g.body| - o.fixed, o.big), g.body, rest);
    FieldRoundTrip(o, g.head, |g.body| - o.fixed, g.body + rest);
  }

  lemma WrittenIsSplit(o: Options, g: Segment, text: bytes, rest: bytes)
    requires Fitting(o, g) && text == Written(o, g)
    ensures DynamicSplit(o)(text + rest) == |text| > 0 && FitsBuffer(o)(text + rest)
  {
    WrittenAnnounces(o, g, rest);
  }

  /** A proper part of a segment is not complete. */
  lemma PartIsOpen(o: Options, g: Segment, text: bytes, part: bytes)
    requires Fitting(o, g) && text == Written(o, g) && part < text
    ensures DynamicSplit(o)(part) == 0 && FitsBuffer(o)(part)
  {
    var more := text[|part|..];
    assert text == part + more && text + [] == text;
    WrittenIsSplit(o, g, text, []);
    SplitShows(o, part, more);
  }

  lemma {:induction false} WrittenHeads(o: Options, segments: seq<Segment>, last: Segment, part: bytes, stream: bytes)
    requires Stream(o, segments, last, part, stream)
    ensures Heads(DynamicSplit(o), FitsBuffer(o), stream)
    ensures CutAll(Segmenting(DynamicSplit(o)), stream) == Cuts(AllWritten(o, segments), Rest(part))
    decreases |segments|
  {
    if segments == [] {
      PartIsOpen(o, last, Written(o, last), part);
      assert stream == part;
    } else {
      var text, more := Written(o, segments[0]), Concat(AllWritten(o, segments[1..])) + part;
      StreamFirst(o, segments, last, part, stream);
      WrittenHeads(o, segments[1..], last, part, more);
      WrittenFirst(o, segments[0], text, more);
    }
  }

  lemma StreamFirst(o: Options, segments: seq<Segment>, last: Segment, part: bytes, stream: bytes)
    requires Stream(o, segments, last, part, stream) && segments != []
    ensures var more := Concat(AllWritten(o, segments[1..])) + part;
            stream == Written(o, segments[0]) + more && Stream(o, segments[1..], last, part, more)
  {
    var text, rest := Written(o, segments[0]), AllWritten(o, segments[1..]);
    ConcatOne(text, rest);
    Regroup(text, Concat(rest), part);
  }

  lemma WrittenFirst(o: Options, g: Segment, text: bytes, rest: bytes)
    requires Fitting(o, g) && text == Written(o, g) && Heads(DynamicSplit(o), FitsBuffer(o), rest)
    ensures Heads(DynamicSplit(o), FitsBuffer(o), text + rest)
    ensures CutAll(Segmenting(DynamicSplit(o)), text + rest)
         == Prepend([text], CutAll(Segmenting(DynamicSplit(o)), rest))
  {
    WrittenIsSplit(o, g, text, rest);
    assert (text + rest)[..|text|] == text && (text + rest)[|text|..] == rest;
    CutOne(Segmenting(DynamicSplit(o)), text, text, rest);
  }

  /** What is held is less than the first segment. */
  predicate HoldsLess(o: Options, segments: seq<Segment>, held: bytes) {
    segments != [] ==> |held| < |Written(o, segments[0])|
  }

  lemma HeldIsOpen(o: Options, segments: seq<Segment>, last: Segment, part: bytes, stream: bytes, held: bytes)
    requires Stream(o, segments, last, part, stream) && held <= stream && HoldsLess(o, segments, held)
    ensures DynamicSplit(o)(held) == 0
  {
    if segments == [] {
      assert stream == part;
      PartIsOpen(o, last, Written(o, last), held);
    } else {
      StreamFirst(o, segments, last, part, stream);
      var text := Written(o, segments[0]);
      assert held == stream[..|held|] == text[..|held|];
      PartIsOpen(o, segments[0], text, held);
    }
  }

  /**
   Over every run, for every offset, static part and byte order: a stream of segments, each
   with its length written into its field, and of a part of another one, goes to the client
   segment by segment as binary frames, wherever reads cut it, and the part stays.
   */
  lemma SegmentsInReads(e: Env, c: Conn, chunks: seq<bytes>, o: Options, segments: seq<Segment>, last: Segment,
                        part: bytes)
    requires Bridged(c) && c.peer.framing == Some(Dynamic(o)) && Configured(o)(c.framingData)
    requires PeerReadsFit(e, c, chunks) && Reliable(e, c.net)
    requires Stream(o, segments, last, part, Residue(c) + Concat(chunks)) && HoldsLess(o, segments, Residue(c))
    ensures var r := PeerRun(e, c, chunks);
            && Bridged(r.conn) && Texts(r.frames) == AllWritten(o, segments) && AllOf(r.frames, 2)
            && Residue(r.conn) == part
  {
    var stream := Residue(c) + Concat(chunks);
    WrittenHeads(o, segments, last, part, stream);
    HeldIsOpen(o, segments, last, part, stream, Residue(c));
    DynamicSplits(o);
    DynamicSegmentation(e, c, chunks, o);
    LeftIsRest(DynamicSplit(o), stream);
  }

  /** With nothing configured, the octets 2, 0, 0, 0 announce the two bytes behind them. */
  lemma LittleEndianByDefault()
    ensures Decision(Options(0, 0, false), [2, 0, 0, 0, 0x61, 0x62], 6) == 6
  {
    var o, g := Options(0, 0, false), Segment([], [0x61, 0x62]);
    var s: bytes := [2, 0, 0, 0, 0x61, 0x62];
    assert FieldText(2, false) == s[..4];
    assert Written(o, g) + [] == s;
    WrittenAnnounces(o, g, []);
    assert Announced(o, s) == 6;
  }
}
