/** The `dynamic32` framing function: segments that carry their length in a 32-bit field. */
module DynamicLength {
  import opened Bytes
  import opened Cutting
  import opened Frames
  import opened Connection
  import opened PeerStream
  import opened PeerRuns
  import opened Segments
  import opened Stalls

  const TWO_TO_32: nat := 0x1_0000_0000

  /** The parsed options: where the field is, what to add to it, its byte order. */
  datatype Options = Options(offset: nat, fixed: int, big: bool)

  predicate Proper(o: Options) {
    o.offset + 4 < TWO_TO_32 && -0x8000_0000 <= o.fixed < 0x8000_0000
  }

  function FieldOf(o: Options, s: bytes): (size: nat)
    requires o.offset + 4 <= |s|
    ensures size < TWO_TO_32
  {
    var field := s[o.offset..o.offset + 4];
    FromBEBound(field);
    FromBEBound(Reverse(field));
    FourBytes();
    if o.big then FromBE(field) else FromLE(field)
  }

  lemma FourBytes()
    ensures Pow256(4) == TWO_TO_32
  {
    assert Pow256(2) == 0x1_0000;
  }

  /** The size of a segment by the documentation: all that the field announces. */
  function Announced(o: Options, s: bytes): int
    requires o.offset + 4 <= |s|
  {
    o.offset + 4 + o.fixed + FieldOf(o, s)
  }

  function Stored(o: Options, data: FramingData): Options {
    match data
    case Dynamic32(offset, fixed, big) => Options(offset, fixed, big)
    case _ => o
  }

  function Storing(o: Options): FramingData {
    Dynamic32(o.offset, o.fixed, o.big)
  }

  /** The length decision; sums are taken in 32 bits. */
  function Decision(o: Options, buf: bytes, length: nat): int {
    if o.offset + 4 <= length <= |buf| then
      var total := Announced(o, buf) % TWO_TO_32;
      if length >= total then total else 0
    else 0
  }

  function Dynamic(configured: Options): Framing {
    (buf: bytes, length: nat, read: nat, opcode: Opcode, data: FramingData) =>
      var o := Stored(configured, data);
      Framed(Decision(o, buf, length), opcode, Storing(o))
  }

  method FramingDynamic32(configured: Options, data: array<byte>, length: nat, opcode: Opcode, kept: FramingData)
    returns (framed: Framed)
    requires length <= data.Length && Proper(Stored(configured, kept))
    ensures forall read :: framed == Dynamic(configured)(data[..], length, read, opcode, kept)
  {
    var o := configured;
    match kept {
      case Dynamic32(offset, fixed, big) => o := Options(offset, fixed, big);
      case _ =>
    }
    framed := Framed(0, opcode, Storing(o));
    if length >= o.offset + 4 {
      var size := LoadField(data, o);
      assert data[..][o.offset..o.offset + 4] == data[o.offset..o.offset + 4];
      var total := (o.offset + 4 + o.fixed + size) % TWO_TO_32;
      if length >= total {
        framed := framed.(length := total);
      }
    }
  }

  /** The field as the processor loads it, in either byte order. */
  method LoadField(data: array<byte>, o: Options) returns (size: nat)
    requires o.offset + 4 <= data.Length
    ensures size == FieldOf(o, data[..])
  {
    var a, b := data[o.offset] as nat, data[o.offset + 1] as nat;
    var c, d := data[o.offset + 2] as nat, data[o.offset + 3] as nat;
    ghost var field := data[..][o.offset..o.offset + 4];
    FourValues(field);
    FourValues(Reverse(field));
    if o.big {
      size := ((a * 256 + b) * 256 + c) * 256 + d;
    } else {
      size := ((d * 256 + c) * 256 + b) * 256 + a;
    }
  }

  lemma FourValues(s: bytes)
    requires |s| == 4
    ensures FromBE(s) == ((s[0] as nat * 256 + s[1] as nat) * 256 + s[2] as nat) * 256 + s[3] as nat
  {
    assert s[..3][..2] == s[..2] && s[..2][..1] == s[..1] && s[..1][..0] == [];
    assert FromBE(s[..1]) == s[0] as nat;
    assert FromBE(s[..2]) == s[0] as nat * 256 + s[1] as nat;
    assert FromBE(s[..3]) == (s[0] as nat * 256 + s[1] as nat) * 256 + s[2] as nat;
  }

  /**
   The documented length is answered exactly when the sum does not wrap around, or wraps to
   nothing or to more than there is.
   */
  lemma WrapExact(o: Options, buf: bytes, length: nat)
    requires Proper(o) && o.offset + 4 <= length <= |buf| && length < TWO_TO_32 && Announced(o, buf) >= 0
    ensures Decision(o, buf, length) == (if length >= Announced(o, buf) then Announced(o, buf) else 0)
       <==> Announced(o, buf) < TWO_TO_32 || Announced(o, buf) % TWO_TO_32 == 0 || Announced(o, buf) % TWO_TO_32 > length
  {
  }

  /** What is cut off old bytes with these new ones behind them, if the field is complete. */
  function SumOver(o: Options, h: bytes, data: bytes): nat {
    if o.offset + 4 <= |h + data| then Announced(o, h + data) % TWO_TO_32 else 0
  }

  function SumCut(o: Options, data: bytes): OldCut {
    (h: bytes) => SumOver(o, h, data)
  }

  lemma SumAgrees(o: Options, data: bytes, buf: bytes, h: bytes)
    ensures CutAgrees(Dynamic(o), SumCut(o, data), data, buf, h)
  {
    var all := h + data;
    if |all| <= |buf| && buf[..|all|] == all {
      OwnIsDecision(o, buf, |all|);
      if o.offset + 4 <= |all| {
        SplitAt(buf, |all|);
        SameField(o, all, buf[|all|..]);
      }
    }
  }

  lemma OwnIsDecision(o: Options, buf: bytes, n: nat)
    ensures Own(Dynamic(o), buf, n) == Decision(o, buf, n)
  {
    SameOptions(o, NoData);
    AnswerIsDecision(o, buf, n, 0, BINARY, NoData);
  }

  lemma DynamicIsMemoryless(o: Options)
    ensures Memoryless(Dynamic(o), Configured(o))
  {
    var framing, valid := Dynamic(o), Configured(o);
    forall buf: bytes, n: nat, read: nat, opcode: Opcode, data: FramingData | valid(data)
      ensures var r := Answer(framing, buf, n, read, opcode, data); r.length == Own(framing, buf, n) && valid(r.data)
    {
      SameOptions(o, data);
      AnswerIsDecision(o, buf, n, read, opcode, data);
      OwnIsDecision(o, buf, n);
    }
  }

  lemma AnswerIsDecision(o: Options, buf: bytes, n: nat, read: nat, opcode: Opcode, data: FramingData)
    requires Stored(o, data) == o
    ensures Answer(Dynamic(o), buf, n, read, opcode, data) == Framed(Decision(o, buf, n), opcode, Storing(o))
  {
  }

  /**
   For every residue: a read ends with its bytes unexamined if and only if the 32-bit sums that
   old and new bytes give, one behind the other, come to exactly the residue.
   */
  lemma ResidueDecides(e: Env, c: Conn, data: bytes, o: Options)
    requires Bridged(c) && c.peer.framing == Some(Dynamic(o)) && Configured(o)(c.framingData)
    requires FitsPeer(c, data) && Reliable(e, c.net)
    ensures ReadStops(e, c, data) <==> CutsUp(SumCut(o, data), Residue(c))
    ensures ReadStops(e, c, data) ==> SaysAndKeeps(PeerData(e, c, Chunk(data)), Residue(c), data)
  {
    DynamicIsMemoryless(o);
    forall buf: bytes, h: bytes ensures CutAgrees(Dynamic(o), SumCut(o, data), data, buf, h) {
      SumAgrees(o, data, buf, h);
    }
    ReadStopsWhen(e, c, data, Configured(o), SumCut(o, data));
    if ReadStops(e, c, data) {
      StoppedRead(e, c, data);
    }
  }

  /**
   Bytes that have waited come to this only if the field was incomplete and the first sum
   wraps around or ends in front of its field.
   */
  lemma WaitedNeedsWrap(e: Env, c: Conn, data: bytes, o: Options)
    requires Bridged(c) && c.peer.framing == Some(Dynamic(o)) && Configured(o)(c.framingData)
    requires FitsPeer(c, data) && Reliable(e, c.net) && Decision(o, c.peerBuffer, c.peerOffset) == 0
    ensures ReadStops(e, c, data) ==>
      && c.peerOffset < o.offset + 4 <= c.peerOffset + |data|
      && !(o.offset + 4 <= Announced(o, Residue(c) + data) < TWO_TO_32)
  {
    ResidueDecides(e, c, data, o);
    if ReadStops(e, c, data) {
      WaitedSum(o, c.peerBuffer, Residue(c), data, SumOver(o, Residue(c), data));
    }
  }

  lemma WaitedSum(o: Options, buf: bytes, h: bytes, data: bytes, sum: nat)
    requires |h| <= |buf| && buf[..|h|] == h && Decision(o, buf, |h|) == 0
    requires sum == SumOver(o, h, data) && 0 < sum <= |h|
    ensures |h| < o.offset + 4 <= |h| + |data|
    ensures !(o.offset + 4 <= Announced(o, h + data) < TWO_TO_32)
  {
    if o.offset + 4 <= |h| {
      SplitAt(buf, |h|);
      SameField(o, h, buf[|h|..]);
      SameField(o, h, data);
    }
  }

  /** A read that does not end in this way leaves nothing, or bytes that have waited. */
  lemma ReadLeavesWaited(e: Env, c: Conn, data: bytes, o: Options)
    requires Bridged(c) && c.peer.framing == Some(Dynamic(o)) && Configured(o)(c.framingData)
    requires FitsPeer(c, data) && Reliable(e, c.net)
    ensures var d := PeerData(e, c, Chunk(data)).conn;
            d.state.Open? ==>
              && Bridged(d) && d.peer == c.peer && Configured(o)(d.framingData) && Reliable(e, d.net)
              && (ReadStops(e, c, data) || Decision(o, d.peerBuffer, d.peerOffset) == 0)
  {
    DynamicIsMemoryless(o);
    ReadLeaves(e, c, data, Configured(o));
    var d := PeerData(e, c, Chunk(data)).conn;
    if d.state.Open? {
      OwnIsDecision(o, d.peerBuffer, d.peerOffset);
    }
  }

  /**
   With offset 0 and -2 to add: two zero bytes wait, and come to the sum once more have come.
   These hold a whole segment of six bytes, which is left unexamined; it comes to the sum when
   the next byte arrives, although its own sum neither wraps around nor ends in front of its field.
   */
  lemma SegmentLags()
    ensures var o, h, data, next := Options(0, -2, true), [0, 0], [0, 0, 0, 4, 1, 2], [7];
            && Decision(o, h + [0, 0], 2) == 0 && CutsUp(SumCut(o, data), h)
            && CutsUp(SumCut(o, next), data) && Announced(o, data + next) == |data|
  {
    var o, h, data, next := Options(0, -2, true), [0, 0], [0, 0, 0, 4, 1, 2], [7];
    FourValues((h + data)[0..4]);
    FourValues((data + next)[0..4]);
    assert Announced(o, h + data) == 2 && Announced(o, data + next) == 6;
    assert SumCut(o, data)(h) == 2 && SumCut(o, next)(data) == 6;
  }

  /** Two bytes are cut off where four gigabytes were announced. */
  lemma WrappedLengthTaken()
    ensures var o, s := Options(0, 3, true), [0xFF, 0xFF, 0xFF, 0xFB, 1, 2];
            Announced(o, s) == TWO_TO_32 + 2 && Decision(o, s, 6) == 2
  {
    var s: bytes := [0xFF, 0xFF, 0xFF, 0xFB, 1, 2];
    FourValues(s[0..4]);
  }

  /** The length-prefixed split; a segment reaches at least to the end of its field. */
  function DynamicSplit(o: Options): Splitter {
    (s: bytes) =>
      if o.offset + 4 <= |s| then
        var total := if Announced(o, s) < o.offset + 4 then o.offset + 4 else Announced(o, s);
        if total <= |s| then total else 0
      else 0
  }

  /** A segment's head is acceptable: it announces a segment that fits the buffer, field included. */
  function FitsBuffer(o: Options): bytes -> bool {
    (s: bytes) => o.offset + 4 <= |s| ==> o.offset + 4 <= Announced(o, s) <= LIMIT
  }

  function Configured(o: Options): Valid {
    (data: FramingData) => data == NoData || data == Storing(o)
  }

  /** Bytes behind it do not change what the field says. */
  lemma SameField(o: Options, s: bytes, t: bytes)
    requires o.offset + 4 <= |s|
    ensures FieldOf(o, s + t) == FieldOf(o, s) && Announced(o, s + t) == Announced(o, s)
  {
    SliceOfPrefix(s, t, o.offset, o.offset + 4);
  }

  lemma SplitShows(o: Options, s: bytes, t: bytes)
    ensures DynamicSplit(o)(s) == if DynamicSplit(o)(s + t) <= |s| then DynamicSplit(o)(s + t) else 0
    ensures FitsBuffer(o)(s + t) ==> FitsBuffer(o)(s)
  {
    if o.offset + 4 <= |s| {
      SameField(o, s, t);
    }
  }

  lemma DynamicSplits(o: Options)
    ensures Splits(DynamicSplit(o)) && PrefixClosed(FitsBuffer(o))
  {
    forall s, t
      ensures DynamicSplit(o)(s) == if DynamicSplit(o)(s + t) <= |s| then DynamicSplit(o)(s + t) else 0
      ensures FitsBuffer(o)(s + t) ==> FitsBuffer(o)(s)
    {
      SplitShows(o, s, t);
    }
  }

  lemma DecisionIsSplit(o: Options, buf: bytes, all: bytes)
    requires |all| <= LIMIT && |all| <= |buf| && buf[..|all|] == all && FitsBuffer(o)(all)
    ensures Decision(o, buf, |all|) == DynamicSplit(o)(all)
  {
    if o.offset + 4 <= |all| {
      SplitAt(buf, |all|);
      SameField(o, all, buf[|all|..]);
      NoWrapAround(Announced(o, all));
    }
  }

  lemma NoWrapAround(n: int)
    requires 0 <= n <= LIMIT
    ensures n % TWO_TO_32 == n
  {
  }

  lemma DynamicAgrees(o: Options)
    ensures AgreesWhere(Dynamic(o), DynamicSplit(o), Configured(o), FitsBuffer(o))
  {
    forall had, new_ | FitsBuffer(o)(had + new_) ensures Agrees(Dynamic(o), DynamicSplit(o), Configured(o), had, new_) {
      AgreesOn(o, had, new_);
    }
  }

  lemma AgreesOn(o: Options, had: bytes, new_: bytes)
    requires FitsBuffer(o)(had + new_)
    ensures Agrees(Dynamic(o), DynamicSplit(o), Configured(o), had, new_)
  {
    var all, f := had + new_, Dynamic(o);
    forall buf: bytes, opcode: Opcode, data: FramingData
      | |buf| == BUFFER_SIZE && |all| <= LIMIT && buf[..|all|] == all && Configured(o)(data)
      ensures f(buf, |all|, |new_|, opcode, data) == Framed(DynamicSplit(o)(all), opcode, Storing(o))
    {
      AnswerIsSplit(o, buf, all, |new_|, opcode, data);
    }
    AgreesIf(f, DynamicSplit(o), Configured(o), had, new_, all);
  }

  lemma AnswerIsSplit(o: Options, buf: bytes, all: bytes, read: nat, opcode: Opcode, data: FramingData)
    requires |all| <= LIMIT <= |buf| && buf[..|all|] == all && FitsBuffer(o)(all) && Configured(o)(data)
    ensures Dynamic(o)(buf, |all|, read, opcode, data) == Framed(DynamicSplit(o)(all), opcode, Storing(o))
  {
    DecisionIsSplit(o, buf, all);
    SameOptions(o, data);
  }

  lemma SameOptions(o: Options, data: FramingData)
    requires Configured(o)(data)
    ensures Stored(o, data) == o
  {
  }

  lemma DynamicKeeps(o: Options)
    ensures NonNegative(Dynamic(o)) && KeepsOpcode(Dynamic(o))
  {
  }

  /** Segments have the size they announce; what is left over leaves room in the buffer. */
  lemma DynamicTexts(o: Options, stream: bytes)
    requires o.offset + 4 <= LIMIT && Heads(DynamicSplit(o), FitsBuffer(o), stream)
    ensures forall t :: t in CutAll(Segmenting(DynamicSplit(o)), stream).items ==>
              o.offset + 4 <= |t| && |t| == Announced(o, t)
    ensures |Left(DynamicSplit(o), stream)| < LIMIT
  {
    DynamicSplits(o);
    ItemsAreSegments(DynamicSplit(o), stream);
    ItemsAreAcceptable(DynamicSplit(o), FitsBuffer(o), stream);
    LeftIsRest(DynamicSplit(o), stream);
    LeftIsAcceptable(DynamicSplit(o), FitsBuffer(o), stream);
  }

  /**
   Over every run, however the stream is cut into reads: if every segment announced on the
   way fits the buffer, the client is sent exactly the length-prefixed segments of the
   peer's stream, all binary, and there is always room for the next read.
   */
  lemma DynamicSegmentation(e: Env, c: Conn, chunks: seq<bytes>, o: Options)
    requires o.offset + 4 <= LIMIT
    requires Bridged(c) && c.peer.framing == Some(Dynamic(o)) && Configured(o)(c.framingData)
    requires DynamicSplit(o)(Residue(c)) == 0 && PeerReadsFit(e, c, chunks) && Reliable(e, c.net)
    requires Heads(DynamicSplit(o), FitsBuffer(o), Residue(c) + Concat(chunks))
    ensures var r, stream := PeerRun(e, c, chunks), Residue(c) + Concat(chunks);
            && SplitRun(stream, r, DynamicSplit(o), Configured(o)) && AllOf(r.frames, BINARY)
            && (forall t :: t in Texts(r.frames) ==> o.offset + 4 <= |t| && |t| == Announced(o, t))
            && r.conn.peerOffset < LIMIT
  {
    var stream := Residue(c) + Concat(chunks);
    DynamicSplits(o);
    DynamicAgrees(o);
    DynamicKeeps(o);
    SegmentedRun(e, c, chunks, DynamicSplit(o), Configured(o), FitsBuffer(o));
    RunIsBinary(e, c, chunks);
    DynamicTexts(o, stream);
  }
}
