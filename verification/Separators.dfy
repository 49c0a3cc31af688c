/** The `separator`, `newline`, `auto` and `binary` framing functions. */
module Separators {
  import opened Bytes
  import opened Cutting
  import opened Frames
  import opened Connection
  import opened PeerStream
  import opened PeerRuns
  import opened Segments
  import opened Utf8
  import opened Unescape
  import opened Memory

  predicate OccursAt(s: bytes, sep: bytes, i: nat) {
    i + |sep| <= |s| && s[i..i + |sep|] == sep
  }

  /** The end of the first occurrence that starts at `i` or later; 0 if there is none. */
  function EndOfFirst(s: bytes, sep: bytes, i: nat): (r: nat)
    requires sep != []
    decreases |s| - i
  {
    if i + |sep| > |s| then 0 else if OccursAt(s, sep, i) then i + |sep| else EndOfFirst(s, sep, i + 1)
  }

  ghost predicate NoneIn(s: bytes, sep: bytes, i: nat, j: nat) {
    forall k :: i <= k < j ==> !OccursAt(s, sep, k)
  }

  lemma {:induction false} FirstIsFirst(s: bytes, sep: bytes, i: nat)
    requires sep != []
    ensures var r := EndOfFirst(s, sep, i);
            if r == 0 then NoneIn(s, sep, i, |s|)
            else i + |sep| <= r <= |s| && OccursAt(s, sep, r - |sep|) && NoneIn(s, sep, i, r - |sep|)
    decreases |s| - i
  {
    if i + |sep| <= |s| && !OccursAt(s, sep, i) {
      FirstIsFirst(s, sep, i + 1);
    }
  }

  lemma FirstIsUnique(s: bytes, sep: bytes, i: nat, r: nat)
    requires sep != []
    requires if r == 0 then NoneIn(s, sep, i, |s|)
             else i + |sep| <= r <= |s| && OccursAt(s, sep, r - |sep|) && NoneIn(s, sep, i, r - |sep|)
    ensures EndOfFirst(s, sep, i) == r
  {
    FirstIsFirst(s, sep, i);
    var q := EndOfFirst(s, sep, i);
    if q > 0 {
      assert OccursAt(s, sep, q - |sep|);
    }
    if r > 0 {
      assert OccursAt(s, sep, r - |sep|);
    }
  }

  /** Segments end with the first separator. */
  function SeparatorSplit(sep: bytes): Splitter {
    (s: bytes) => if sep == [] then 0 else EndOfFirst(s, sep, 0)
  }

  /** The stored separator, or else the one the configuration string stands for, if it stands for one. */
  function SeparatorOf(config: bytes, data: FramingData): Option<bytes> {
    if data.Separator? then Some(data.separator) else Replaced(config, 0)
  }

  /** Only the bytes of the last read are searched; without a separator everything goes. */
  function SearchLast(sep: bytes, buf: bytes, length: nat, read: nat): nat {
    if sep == [] then length
    else if read <= length <= |buf| then EndOfFirst(buf[..length], sep, length - read)
    else 0
  }

  /** A configuration string that stands for no separator is refused, and nothing is stored. */
  function SeparatorCall(config: bytes, buf: bytes, length: nat, read: nat, opcode: Opcode, data: FramingData): Framed {
    var sep := SeparatorOf(config, data);
    if sep.None? then Framed(-1, opcode, data)
    else Framed(SearchLast(sep.value, buf, length, read), opcode, Separator(sep.value))
  }

  function Separated(config: bytes): Framing {
    (buf: bytes, length: nat, read: nat, opcode: Opcode, data: FramingData) =>
      SeparatorCall(config, buf, length, read, opcode, data)
  }

  /** The comparison of `memcmp`. */
  method Same(data: array<byte>, length: nat, at: nat, sep: bytes) returns (same: bool)
    requires at + |sep| <= length <= data.Length
    ensures same <==> OccursAt(data[..length], sep, at)
  {
    ghost var s := data[..length];
    var k := 0;
    while k < |sep| && data[at + k] == sep[k]
      invariant 0 <= k <= |sep|
      invariant s[at..at + k] == sep[..k]
    {
      assert s[at + k] == data[at + k];
      SliceGrows(s, at, at + k);
      SliceGrows(sep, 0, k);
      k := k + 1;
    }
    same := k == |sep|;
    if same {
      assert sep[..k] == sep;
    } else {
      assert s[at..at + |sep|][k] == data[at + k];
    }
  }

  lemma FirstStep(s: bytes, sep: bytes, i: nat)
    requires sep != []
    ensures i + |sep| > |s| ==> EndOfFirst(s, sep, i) == 0
    ensures i + |sep| <= |s| && OccursAt(s, sep, i) ==> EndOfFirst(s, sep, i) == i + |sep|
    ensures i + |sep| <= |s| && !OccursAt(s, sep, i) ==> EndOfFirst(s, sep, i) == EndOfFirst(s, sep, i + 1)
  {
  }

  method Search(sep: bytes, data: array<byte>, length: nat, read: nat) returns (n: nat)
    requires sep != [] && read <= length <= data.Length
    ensures n == EndOfFirst(data[..length], sep, length - read)
  {
    ghost var s := data[..length];
    var u := 0;
    while u < read && read - u >= |sep|
      invariant 0 <= u <= read
      invariant EndOfFirst(s, sep, length - read) == EndOfFirst(s, sep, length - read + u)
    {
      var at := length - read + u;
      var same := Same(data, length, at, sep);
      FirstStep(s, sep, at);
      if same {
        return at + |sep|;
      }
      u := u + 1;
    }
    FirstStep(s, sep, length - read + u);
    return 0;
  }

  /** The configuration string is copied and its escapes are replaced within the copy. */
  method ParseSeparator(config: bytes) returns (sep: Option<bytes>)
    requires NoNul(config)
    ensures sep == Replaced(config, 0)
  {
    var copy := Duplicate(config);
    var ok, length := UnescapeInPlace(copy, config);
    if !ok {
      return None;
    }
    return Some(copy[..length]);
  }

  method FramingSeparator(config: bytes, data: array<byte>, length: nat, read: nat, opcode: Opcode, kept: FramingData)
    returns (framed: Framed)
    requires read <= length <= data.Length && NoNul(config)
    ensures framed == SeparatorCall(config, data[..], length, read, opcode, kept)
    ensures -1 <= framed.length <= length
  {
    var sep := Some([]);
    if kept.Separator? {
      sep := Some(kept.separator);
    } else {
      sep := ParseSeparator(config);
      if sep.None? {
        return Framed(-1, opcode, kept);
      }
    }
    var n := SearchOrAll(sep.value, data, length, read);
    framed := Framed(n, opcode, Separator(sep.value));
  }

  method SearchOrAll(sep: bytes, data: array<byte>, length: nat, read: nat) returns (n: nat)
    requires read <= length <= data.Length
    ensures n == SearchLast(sep, data[..], length, read) <= length
  {
    if sep == [] {
      return length;
    }
    n := Search(sep, data, length, read);
    ghost var s := data[..];
    assert s[..length] == data[..length];
    FirstIsFirst(s[..length], sep, length - read);
  }

  lemma OccursInPrefix(s: bytes, t: bytes, sep: bytes, i: nat)
    requires i + |sep| <= |s|
    ensures OccursAt(s + t, sep, i) == OccursAt(s, sep, i)
  {
    SliceOfPrefix(s, t, i, i + |sep|);
  }

  lemma SeparatorSplits(sep: bytes)
    requires sep != []
    ensures Splits(SeparatorSplit(sep))
  {
    var split := SeparatorSplit(sep);
    forall s ensures split(s) <= |s| {
      FirstIsFirst(s, sep, 0);
    }
    forall s, t ensures split(s) == if split(s + t) <= |s| then split(s + t) else 0 {
      FirstInPrefix(s, t, sep);
    }
  }

  lemma FirstInPrefix(s: bytes, t: bytes, sep: bytes)
    requires sep != []
    ensures EndOfFirst(s, sep, 0) == if EndOfFirst(s + t, sep, 0) <= |s| then EndOfFirst(s + t, sep, 0) else 0
  {
    var r := EndOfFirst(s + t, sep, 0);
    FirstIsFirst(s + t, sep, 0);
    forall i: nat | i + |sep| <= |s| ensures OccursAt(s + t, sep, i) == OccursAt(s, sep, i) {
      OccursInPrefix(s, t, sep, i);
    }
    FirstIsUnique(s, sep, 0, if r <= |s| then r else 0);
  }

  function Keeps(sep: bytes): Valid {
    (data: FramingData) => data == NoData || data == Separator(sep)
  }

  /** An occurrence begins in the old bytes and reaches into the new ones. */
  ghost predicate Straddles(sep: bytes, had: bytes, new_: bytes) {
    exists i :: 0 <= i < |had| && OccursAt(had + new_, sep, i)
  }

  /** Searching the new bytes alone finds the first separator exactly if none straddles. */
  lemma SearchExact(sep: bytes, had: bytes, new_: bytes)
    requires sep != [] && EndOfFirst(had, sep, 0) == 0 && EndOfFirst(had + new_, sep, 0) > 0
    ensures EndOfFirst(had + new_, sep, |had|) == EndOfFirst(had + new_, sep, 0) <==> !Straddles(sep, had, new_)
  {
    var all := had + new_;
    FirstIsFirst(all, sep, 0);
    FirstIsFirst(all, sep, |had|);
    var r := EndOfFirst(all, sep, 0);
    assert OccursAt(all, sep, r - |sep|);
    if !Straddles(sep, had, new_) {
      FirstIsUnique(all, sep, |had|, r);
    }
  }

  lemma NothingStraddles(sep: bytes, had: bytes, new_: bytes)
    requires sep != [] && EndOfFirst(had + new_, sep, 0) == 0
    ensures !Straddles(sep, had, new_) && EndOfFirst(had + new_, sep, |had|) == 0
  {
    FirstIsFirst(had + new_, sep, 0);
    FirstIsUnique(had + new_, sep, |had|, 0);
  }

  /** An occurrence of a single byte has no room to straddle. */
  lemma OneByteNeverStraddles(sep: bytes, had: bytes, new_: bytes)
    requires |sep| == 1 && EndOfFirst(had, sep, 0) == 0
    ensures !Straddles(sep, had, new_)
  {
    FirstIsFirst(had, sep, 0);
    forall i: nat | i < |had| ensures !OccursAt(had + new_, sep, i) {
      OccursInPrefix(had, new_, sep, i);
    }
  }

  /** Any framing function with the lengths of the separator search. */
  ghost predicate Searches(framing: Framing, sep: bytes) {
    forall buf, length, read, opcode, data {:trigger framing(buf, length, read, opcode, data)} ::
      Keeps(sep)(data) ==>
        (var r := framing(buf, length, read, opcode, data);
         r.length == SearchLast(sep, buf, length, read) && r.data == Separator(sep))
  }

  /** A configuration string that stands for a separator makes the function search for it, and no other one does. */
  lemma SeparatedSearches(config: bytes, sep: bytes)
    ensures Replaced(config, 0) == Some(sep) <==> Searches(Separated(config), sep)
    ensures KeepsOpcode(Separated(config))
  {
    var framing := Separated(config);
    if Replaced(config, 0) != Some(sep) {
      assert Keeps(sep)(NoData);
      var r := framing([], 0, 0, BINARY, NoData);
      assert r == SeparatorCall(config, [], 0, 0, BINARY, NoData);
      assert r.data != Separator(sep);
    }
  }

  lemma SeparatedAnswers(config: bytes)
    ensures NonNegative(Separated(config)) <==> Replaced(config, 0).Some?
  {
    if Replaced(config, 0).None? {
      assert Separated(config)([], 0, 0, BINARY, NoData).length == -1;
    }
  }

  function SomethingStored(): Valid {
    (data: FramingData) => data.Separator?
  }

  function NothingStored(): Valid {
    (data: FramingData) => !data.Separator?
  }

  /**
   The loop under `separator` ends if and only if the configuration string stands for a
   separator or one is stored already.  If it ends, it does within as many rounds as there
   are bytes.
   */
  lemma SeparatedEnds(e: Env, config: bytes, fd: int, net: Net, s: Scan, n: nat)
    requires Holds(s) && s.off + s.read <= n
    ensures Rounds(e, Separated(config), fd, net, s, n).Stop? <==> Replaced(config, 0).Some? || s.data.Separator?
  {
    if Replaced(config, 0).Some? {
      SeparatedAnswers(config);
      LoopEnds(e, Separated(config), fd, net, s, n);
    } else if s.data.Separator? {
      ServiceEnds(e, Separated(config), SomethingStored(), fd, net, s, n);
    } else {
      RefusalNeverEnds(e, Separated(config), NothingStored(), fd, net, s, n);
    }
  }

  /** A hexadecimal escape of one digit: the first read never comes to an end. */
  lemma CutShortNeverEnds(e: Env, c: Conn, data: bytes, n: nat)
    requires |c.peerBuffer| == BUFFER_SIZE && FitsPeer(c, data) && c.framingData == NoData
    ensures Rounds(e, Separated(Ascii("\\x4")), c.wsFd, c.net, Loaded(c, data), n).Again?
  {
    CutShort();
    RefusalNeverEnds(e, Separated(Ascii("\\x4")), NothingStored(), c.wsFd, c.net, Loaded(c, data), n);
  }

  /** The search never ends the loop at the old bytes with new ones unexamined. */
  lemma SearchExaminesAll(e: Env, framing: Framing, sep: bytes, fd: int, net: Net, s: Scan)
    requires Holds(s) && NonNegative(framing) && Searches(framing, sep) && Keeps(sep)(s.data) && s.read > 0
    ensures !StopsEarly(e, framing, fd, net, s)
  {
    if sep == [] {
      assert framing(s.buf, s.off + s.read, s.read, s.opcode, s.data).length == s.off + s.read;
    } else {
      var r := SearchAnswer(framing, sep, s);
    }
    AnswersPastOld(e, framing, fd, net, s);
  }

  lemma SearchAgrees(framing: Framing, sep: bytes, had: bytes, new_: bytes)
    requires Searches(framing, sep) && sep != [] && EndOfFirst(had, sep, 0) == 0 && !Straddles(sep, had, new_)
    ensures Agrees(framing, SeparatorSplit(sep), Keeps(sep), had, new_)
  {
    if EndOfFirst(had + new_, sep, 0) == 0 {
      NothingStraddles(sep, had, new_);
    } else {
      SearchExact(sep, had, new_);
    }
  }

  lemma {:induction false} SearchFaithful(framing: Framing, sep: bytes, had: bytes, new_: bytes)
    requires Searches(framing, sep) && sep != [] && EndOfFirst(had, sep, 0) == 0 && !Straddles(sep, had, new_)
    ensures Faithful(framing, SeparatorSplit(sep), Keeps(sep), had, new_)
    decreases |had| + |new_|
  {
    SearchAgrees(framing, sep, had, new_);
    var all := had + new_;
    var n := EndOfFirst(all, sep, 0);
    if 0 < n < |all| {
      SearchFaithful(framing, sep, [], all[n..]);
    }
  }

  /** No separator straddles two reads of the stream. */
  ghost predicate Unbroken(sep: bytes, had: bytes, chunks: seq<bytes>)
    decreases |chunks|
  {
    chunks == [] ||
    (!Straddles(sep, had, chunks[0]) && Unbroken(sep, Left(SeparatorSplit(sep), had + chunks[0]), chunks[1..]))
  }

  lemma {:induction false} UnbrokenIsAlong(framing: Framing, sep: bytes, had: bytes, chunks: seq<bytes>)
    requires Searches(framing, sep) && sep != [] && EndOfFirst(had, sep, 0) == 0 && Unbroken(sep, had, chunks)
    ensures AgreesAlong(framing, SeparatorSplit(sep), Keeps(sep), had, chunks)
    decreases |chunks|
  {
    if chunks != [] {
      SearchFaithful(framing, sep, had, chunks[0]);
      SeparatorSplits(sep);
      LeftIsRest(SeparatorSplit(sep), had + chunks[0]);
      UnbrokenIsAlong(framing, sep, Left(SeparatorSplit(sep), had + chunks[0]), chunks[1..]);
    }
  }

  lemma {:induction false} OneByteUnbroken(sep: bytes, had: bytes, chunks: seq<bytes>)
    requires |sep| == 1 && EndOfFirst(had, sep, 0) == 0
    ensures Unbroken(sep, had, chunks)
    decreases |chunks|
  {
    if chunks != [] {
      OneByteNeverStraddles(sep, had, chunks[0]);
      SeparatorSplits(sep);
      LeftIsRest(SeparatorSplit(sep), had + chunks[0]);
      OneByteUnbroken(sep, Left(SeparatorSplit(sep), had + chunks[0]), chunks[1..]);
    }
  }

  /** The text of a segment: a separator at its end, and none that starts further in front. */
  ghost predicate EndsInFirst(sep: bytes, t: bytes) {
    |sep| <= |t| && OccursAt(t, sep, |t| - |sep|) && NoneIn(t, sep, 0, |t| - |sep|)
  }

  /**
   Over every run in which no separator straddles two reads, the client is sent the greedy
   split of the peer's stream: every segment ends in its only separator, and what stays
   behind has none.
   */
  lemma SeparatorSegmentation(e: Env, c: Conn, chunks: seq<bytes>, sep: bytes)
    requires sep != [] && Bridged(c) && Searches(c.peer.framing.value, sep) && Keeps(sep)(c.framingData)
    requires EndOfFirst(Residue(c), sep, 0) == 0 && PeerReadsFit(e, c, chunks) && Reliable(e, c.net)
    requires Unbroken(sep, Residue(c), chunks)
    ensures var r, stream := PeerRun(e, c, chunks), Residue(c) + Concat(chunks);
            && SplitRun(stream, r, SeparatorSplit(sep), Keeps(sep))
            && (forall t :: t in Texts(r.frames) ==> EndsInFirst(sep, t))
            && NoneIn(Residue(r.conn), sep, 0, r.conn.peerOffset)
  {
    var stream := Residue(c) + Concat(chunks);
    SeparatorSplits(sep);
    UnbrokenIsAlong(c.peer.framing.value, sep, Residue(c), chunks);
    RunSplits(e, c, chunks, SeparatorSplit(sep), Keeps(sep));
    LeftIsRest(SeparatorSplit(sep), stream);
    SegmentsMakeStream(SeparatorSplit(sep), stream);
    SegmentsEndInFirst(sep, stream);
    FirstIsFirst(Left(SeparatorSplit(sep), stream), sep, 0);
  }

  lemma SegmentsEndInFirst(sep: bytes, stream: bytes)
    requires sep != []
    ensures forall t :: t in CutAll(Segmenting(SeparatorSplit(sep)), stream).items ==> EndsInFirst(sep, t)
  {
    SeparatorSplits(sep);
    ItemsAreSegments(SeparatorSplit(sep), stream);
    forall t | t in CutAll(Segmenting(SeparatorSplit(sep)), stream).items ensures EndsInFirst(sep, t) {
      FirstIsFirst(t, sep, 0);
    }
  }

  /** With a separator of one byte this holds however the stream is cut into reads. */
  lemma OneByteSegmentation(e: Env, c: Conn, chunks: seq<bytes>, sep: bytes)
    requires |sep| == 1 && Bridged(c) && Searches(c.peer.framing.value, sep) && Keeps(sep)(c.framingData)
    requires EndOfFirst(Residue(c), sep, 0) == 0 && PeerReadsFit(e, c, chunks) && Reliable(e, c.net)
    ensures SplitRun(Residue(c) + Concat(chunks), PeerRun(e, c, chunks), SeparatorSplit(sep), Keeps(sep))
  {
    OneByteUnbroken(sep, Residue(c), chunks);
    SeparatorSegmentation(e, c, chunks, sep);
  }

  /**
   One read, both ways: it cuts what is in the buffer greedily if and only if no separator
   straddles the read's start.
   */
  lemma ReadExact(e: Env, c: Conn, data: bytes, sep: bytes)
    requires sep != [] && Bridged(c) && Searches(c.peer.framing.value, sep) && Keeps(sep)(c.framingData)
    requires EndOfFirst(Residue(c), sep, 0) == 0 && FitsPeer(c, data) && Reliable(e, c.net)
    ensures Texts(PeerData(e, c, Chunk(data)).frames) == CutAll(Segmenting(SeparatorSplit(sep)), Residue(c) + data).items
       <==> !Straddles(sep, Residue(c), data)
  {
    var had, split := Residue(c), SeparatorSplit(sep);
    SeparatorSplits(sep);
    if !Straddles(sep, had, data) {
      SearchFaithful(c.peer.framing.value, sep, had, data);
      ReadSplits(e, c, data, split, Keeps(sep));
    } else {
      var all := had + data;
      if EndOfFirst(all, sep, 0) == 0 {
        NothingStraddles(sep, had, data);
        assert false;
      }
      SearchExact(sep, had, data);
      CutStep(split, all);
      StraddledRead(e, c, data, sep, EndOfFirst(all, sep, 0));
    }
  }

  /** The first segment of a read that misses a straddling separator is not the greedy one. */
  lemma StraddledRead(e: Env, c: Conn, data: bytes, sep: bytes, n: nat)
    requires sep != [] && Bridged(c) && Searches(c.peer.framing.value, sep) && Keeps(sep)(c.framingData)
    requires FitsPeer(c, data) && Reliable(e, c.net)
    requires EndOfFirst(Residue(c) + data, sep, c.peerOffset) != n && n > 0
    ensures var texts := Texts(PeerData(e, c, Chunk(data)).frames); texts == [] || |texts[0]| != n
  {
    var s, framing := Loaded(c, data), c.peer.framing.value;
    var r := SearchAnswer(framing, sep, s);
    FirstIsAnswer(e, framing, c.wsFd, c.net, s, r);
  }

  /** The first segment of a read covers more than what was in the buffer before it. */
  lemma FirstTextIsLong(e: Env, c: Conn, data: bytes, sep: bytes)
    requires sep != [] && Bridged(c) && Searches(c.peer.framing.value, sep) && Keeps(sep)(c.framingData)
    requires FitsPeer(c, data) && Reliable(e, c.net)
    ensures var r := PeerData(e, c, Chunk(data));
            if r.frames == [] then
              Bridged(r.conn) && r.conn.peerOffset == c.peerOffset + |data| && Reliable(e, r.conn.net)
              && r.conn.peer == c.peer && Keeps(sep)(r.conn.framingData)
            else |r.frames[0].payload| > c.peerOffset
  {
    var s, framing := Loaded(c, data), c.peer.framing.value;
    FirstTextOfLoop(e, framing, sep, c.wsFd, c.net, s);
    PeerDataKeeps(e, c, data);
  }

  lemma FirstTextOfLoop(e: Env, framing: Framing, sep: bytes, fd: int, net: Net, s: Scan)
    requires sep != [] && Holds(s) && NonNegative(framing) && Searches(framing, sep) && Keeps(sep)(s.data)
    requires fd >= 0 && Reliable(e, net)
    ensures FirstIsLong(sep, net, s, PeerLoop(e, framing, fd, net, s))
  {
    var r := SearchAnswer(framing, sep, s);
    var p := Settle(e, fd, net, s, r);
    assert Round(e, framing, fd, net, s) == p;
    SettleLong(e, sep, fd, net, s, r);
    if p.Again? {
      RoundShrinks(e, framing, fd, net, s);
    }
  }

  ghost predicate FirstIsLong(sep: bytes, net: Net, s: Scan, x: Ended) {
    if x.frames == [] then
      x.how.Waits? && x.scan.off + x.scan.read == s.off + s.read && x.net == net && x.scan.data == Separator(sep)
    else |x.frames[0].payload| > s.off
  }

  lemma SearchAnswer(framing: Framing, sep: bytes, s: Scan) returns (r: Framed)
    requires sep != [] && Holds(s) && Searches(framing, sep) && Keeps(sep)(s.data)
    ensures r == framing(s.buf, s.off + s.read, s.read, s.opcode, s.data)
    ensures r.data == Separator(sep) && (r.length == 0 || s.off < r.length <= s.off + s.read)
    ensures r.length == EndOfFirst(Contents(s), sep, s.off)
  {
    r := framing(s.buf, s.off + s.read, s.read, s.opcode, s.data);
    SearchMeans(sep, s);
  }

  lemma SearchMeans(sep: bytes, s: Scan)
    requires sep != [] && Holds(s)
    ensures var n := SearchLast(sep, s.buf, s.off + s.read, s.read);
            n == EndOfFirst(Contents(s), sep, s.off) && (n == 0 || s.off < n <= s.off + s.read)
  {
    FirstIsFirst(Contents(s), sep, s.off);
  }

  lemma SettleLong(e: Env, sep: bytes, fd: int, net: Net, s: Scan, r: Framed)
    requires Holds(s) && fd >= 0 && Reliable(e, net)
    requires r.data == Separator(sep) && (r.length == 0 || s.off < r.length <= s.off + s.read)
    ensures match Settle(e, fd, net, s, r)
            case Stop(x) => FirstIsLong(sep, net, s, x)
            case Again(_, _, frames) => |frames| == 1 && |frames[0].payload| > s.off
  {
    if r.length > 0 {
      ReliableSends(e, fd, net, Frame(r.opcode, s.buf[..r.length]));
    }
  }

  /** So is the first segment of a run. */
  lemma {:induction false} FirstTextOfRun(e: Env, c: Conn, chunks: seq<bytes>, sep: bytes)
    requires sep != [] && Bridged(c) && Searches(c.peer.framing.value, sep) && Keeps(sep)(c.framingData)
    requires PeerReadsFit(e, c, chunks) && Reliable(e, c.net)
    ensures var frames := PeerRun(e, c, chunks).frames; frames == [] || |frames[0].payload| > c.peerOffset
    decreases |chunks|
  {
    if chunks != [] {
      RunStep(e, c, chunks);
      FirstTextIsLong(e, c, chunks[0], sep);
      var first := PeerData(e, c, Chunk(chunks[0]));
      if first.frames == [] {
        FirstTextOfRun(e, first.conn, chunks[1..], sep);
        var rest := PeerRun(e, first.conn, chunks[1..]).frames;
        assert [] + rest == rest;
      }
    }
  }

  /** A separator missed by a read is never found. */
  lemma {:induction false} MissedForGood(e: Env, c: Conn, chunks: seq<bytes>, sep: bytes, n: nat)
    requires sep != [] && Bridged(c) && Searches(c.peer.framing.value, sep) && Keeps(sep)(c.framingData)
    requires chunks != [] && PeerReadsFit(e, c, chunks) && Reliable(e, c.net)
    requires FitsPeer(c, chunks[0]) && 0 < n <= c.peerOffset + |chunks[0]|
    requires EndOfFirst(Residue(c) + chunks[0], sep, c.peerOffset) != n
    ensures var frames := PeerRun(e, c, chunks).frames; frames == [] || |frames[0].payload| != n
  {
    RunStep(e, c, chunks);
    StraddledRead(e, c, chunks[0], sep, n);
    FirstTextIsLong(e, c, chunks[0], sep);
    var first := PeerData(e, c, Chunk(chunks[0]));
    if first.frames == [] {
      FirstTextOfRun(e, first.conn, chunks[1..], sep);
      var rest := PeerRun(e, first.conn, chunks[1..]).frames;
      assert [] + rest == rest;
    }
  }

  /** The run cuts the stream greedily. */
  ghost predicate CutsGreedily(e: Env, c: Conn, chunks: seq<bytes>, sep: bytes)
    requires Bridged(c) && PeerReadsFit(e, c, chunks)
  {
    Texts(PeerRun(e, c, chunks).frames) == CutAll(Segmenting(SeparatorSplit(sep)), Residue(c) + Concat(chunks)).items
  }

  /** A straddling separator in the first read spoils the run. */
  lemma {:induction false} StraddledRun(e: Env, c: Conn, chunks: seq<bytes>, sep: bytes)
    requires sep != [] && Bridged(c) && Searches(c.peer.framing.value, sep) && Keeps(sep)(c.framingData)
    requires EndOfFirst(Residue(c), sep, 0) == 0 && PeerReadsFit(e, c, chunks) && Reliable(e, c.net)
    requires chunks != [] && Straddles(sep, Residue(c), chunks[0])
    ensures !CutsGreedily(e, c, chunks, sep)
  {
    RunStep(e, c, chunks);
    var had, split := Residue(c), SeparatorSplit(sep);
    var all, rest := had + chunks[0], Concat(chunks[1..]);
    var n := EndOfFirst(all, sep, 0);
    if n == 0 {
      NothingStraddles(sep, had, chunks[0]);
      assert false;
    } else {
      SearchExact(sep, had, chunks[0]);
      FirstIsFirst(all, sep, 0);
      MissedForGood(e, c, chunks, sep, n);
      FirstOfStream(split, all, rest, n);
      Regroup(had, chunks[0], rest);
      FirstDiffers(PeerRun(e, c, chunks).frames, CutAll(Segmenting(split), all + rest).items, n);
    }
  }

  lemma FirstOfStream(split: Splitter, all: bytes, rest: bytes, n: nat)
    requires n == split(all) && n > 0 && exists sep: bytes :: sep != [] && split == SeparatorSplit(sep)
    ensures var items := CutAll(Segmenting(split), all + rest).items;
            items != [] && |items[0]| == n
  {
    var sep: bytes :| sep != [] && split == SeparatorSplit(sep);
    SeparatorSplits(sep);
    assert split(all) == if split(all + rest) <= |all| then split(all + rest) else 0;
    CutStep(split, all + rest);
  }

  lemma FirstDiffers(frames: seq<Frame>, items: seq<bytes>, n: nat)
    requires frames == [] || |frames[0].payload| != n
    requires items != [] && |items[0]| == n
    ensures Texts(frames) != items
  {
  }

  /**
   Over a run: the client is sent the greedy split of the peer's stream if and only if no
   separator straddles two reads.
   */
  lemma {:induction false} RunExact(e: Env, c: Conn, chunks: seq<bytes>, sep: bytes)
    requires sep != [] && Bridged(c) && Searches(c.peer.framing.value, sep) && Keeps(sep)(c.framingData)
    requires EndOfFirst(Residue(c), sep, 0) == 0 && PeerReadsFit(e, c, chunks) && Reliable(e, c.net)
    ensures CutsGreedily(e, c, chunks, sep) <==> Unbroken(sep, Residue(c), chunks)
    decreases |chunks|
  {
    var had := Residue(c);
    if chunks == [] {
      SeparatorSegmentation(e, c, chunks, sep);
    } else if Straddles(sep, had, chunks[0]) {
      StraddledRun(e, c, chunks, sep);
    } else {
      RunStep(e, c, chunks);
      SeparatorSplits(sep);
      SearchFaithful(c.peer.framing.value, sep, had, chunks[0]);
      ReadSplits(e, c, chunks[0], SeparatorSplit(sep), Keeps(sep));
      RunExact(e, PeerData(e, c, Chunk(chunks[0])).conn, chunks[1..], sep);
      GreedyOn(e, c, chunks, sep);
    }
  }

  /** Behind a greedy read the run is greedy if the rest of it is. */
  lemma {:induction false} GreedyOn(e: Env, c: Conn, chunks: seq<bytes>, sep: bytes)
    requires sep != [] && Bridged(c) && chunks != [] && PeerReadsFit(e, c, chunks) && FitsPeer(c, chunks[0])
    requires var r := PeerData(e, c, Chunk(chunks[0]));
             var cuts := CutAll(Segmenting(SeparatorSplit(sep)), Residue(c) + chunks[0]);
             Bridged(r.conn) && Texts(r.frames) == cuts.items && cuts.end == Rest(Residue(r.conn))
    ensures PeerReadsFit(e, PeerData(e, c, Chunk(chunks[0])).conn, chunks[1..])
    ensures CutsGreedily(e, c, chunks, sep) <==> CutsGreedily(e, PeerData(e, c, Chunk(chunks[0])).conn, chunks[1..], sep)
  {
    var r, split := PeerData(e, c, Chunk(chunks[0])), SeparatorSplit(sep);
    RunStep(e, c, chunks);
    var later := PeerRun(e, r.conn, chunks[1..]).frames;
    TextsAppend(r.frames, later);
    SeparatorSplits(sep);
    SegmentingStable(split);
    Regroup(Residue(c), chunks[0], Concat(chunks[1..]));
    CutAppend(Segmenting(split), Residue(c) + chunks[0], Concat(chunks[1..]));
    SameFront(Texts(r.frames), Texts(later), CutAll(Segmenting(split), Residue(r.conn) + Concat(chunks[1..])).items);
  }

  /** The line ends of the `newline` framing function; anything unknown means CR LF. */
  function LineEnd(config: string): (sep: bytes)
    ensures sep != []
  {
    if config == "lfcr" then [10, 13] else if config == "lf" then [10] else if config == "cr" then [13] else [13, 10]
  }

  /** What is passed on to `separator`. */
  function Expression(config: string): (text: bytes)
    ensures NoNul(text)
  {
    if config == "lfcr" then Ascii("\\n\\r")
    else if config == "lf" then Ascii("\\n")
    else if config == "cr" then Ascii("\\r")
    else Ascii("\\r\\n")
  }

  /** These expressions stand for the line ends. */
  lemma ExpressionsAreLineEnds(config: string)
    ensures Replaced(Expression(config), 0) == Some(LineEnd(config))
  {
    EscapeRoundTrip([13, 10]);
    EscapeRoundTrip([10, 13]);
    EscapeRoundTrip([10]);
    EscapeRoundTrip([13]);
    EscapeOne(10, []);
    EscapeOne(13, []);
    EscapeOne(13, [10]);
    EscapeOne(10, [13]);
    assert Escape([10]) == Ascii("\\n") && Escape([13]) == Ascii("\\r");
    assert Escape([13, 10]) == Ascii("\\r\\n") && Escape([10, 13]) == Ascii("\\n\\r");
  }

  /** Segments end with the line end; the type becomes text for what passes the UTF-8 test. */
  function NewlineCall(config: string, buf: bytes, length: nat, read: nat, opcode: Opcode, data: FramingData): Framed {
    var r := SeparatorCall(Expression(config), buf, length, read, opcode, data);
    if r.length < 0 then r.(length := length)
    else if r.length <= |buf| && Passes(buf[..r.length]) then r.(opcode := TEXT)
    else r
  }

  function Newline(config: string): Framing {
    (buf: bytes, length: nat, read: nat, opcode: Opcode, data: FramingData) =>
      NewlineCall(config, buf, length, read, opcode, data)
  }

  method FramingNewline(config: string, data: array<byte>, length: nat, read: nat, opcode: Opcode, kept: FramingData)
    returns (framed: Framed)
    requires read <= length <= data.Length
    ensures framed == NewlineCall(config, data[..], length, read, opcode, kept)
  {
    framed := FramingSeparator(Expression(config), data, length, read, opcode, kept);
    if framed.length < 0 {
      return framed.(length := length);
    }
    var n, marked := FramingAuto(data, framed.length, opcode);
    assert data[..][..n] == data[..n];
    framed := framed.(opcode := marked);
  }

  /** The `auto` and `binary` framing functions take all there is. */
  function Auto(): Framing {
    (buf: bytes, length: nat, read: nat, opcode: Opcode, data: FramingData) =>
      Framed(length, if length <= |buf| && Passes(buf[..length]) then TEXT else opcode, data)
  }

  function Binary(): Framing {
    (buf: bytes, length: nat, read: nat, opcode: Opcode, data: FramingData) => Framed(length, opcode, data)
  }

  lemma NewlineSearches(config: string)
    ensures Searches(Newline(config), LineEnd(config)) && NonNegative(Newline(config)) && Marks(Newline(config))
  {
    ExpressionsAreLineEnds(config);
  }

  /** Whatever passes the UTF-8 test is marked as text; the type of anything else stays as it is. */
  ghost predicate Marks(framing: Framing) {
    forall buf: bytes, length: nat, read: nat, opcode: Opcode, data: FramingData
      {:trigger Answer(framing, buf, length, read, opcode, data)} ::
      var r := Answer(framing, buf, length, read, opcode, data);
      0 < r.length <= length <= |buf| ==> r.opcode == if Passes(buf[..r.length]) then TEXT else opcode
  }

  /** The types of the frames of one read: a mark stays on for the frames behind it. */
  predicate Marked(frames: seq<Frame>, opcode: Opcode) {
    frames == [] ||
    (frames[0].opcode == (if Passes(frames[0].payload) then TEXT else opcode) && Marked(frames[1..], frames[0].opcode))
  }

  lemma {:induction false} MarkedAppend(a: seq<Frame>, b: seq<Frame>, opcode: Opcode)
    requires Marked(a, opcode) && Marked(b, if a == [] then opcode else a[|a| - 1].opcode)
    ensures Marked(a + b, opcode)
  {
    if a == [] {
      assert a + b == b;
    } else {
      MarkedAppend(a[1..], b, a[0].opcode);
      assert (a + b)[1..] == a[1..] + b;
    }
  }

  lemma {:induction false} LoopMarks(e: Env, framing: Framing, fd: int, net: Net, s: Scan)
    requires Holds(s) && NonNegative(framing) && Marks(framing)
    ensures Marked(PeerLoop(e, framing, fd, net, s).frames, s.opcode)
    decreases s.off + s.read
  {
    var p := Round(e, framing, fd, net, s);
    RoundMarks(e, framing, fd, net, s);
    if p.Again? {
      RoundShrinks(e, framing, fd, net, s);
      LoopMarks(e, framing, fd, p.net, p.scan);
      MarkedAppend(p.frames, PeerLoop(e, framing, fd, p.net, p.scan).frames, s.opcode);
    }
  }

  lemma RoundMarks(e: Env, framing: Framing, fd: int, net: Net, s: Scan)
    requires Holds(s) && NonNegative(framing) && Marks(framing)
    ensures var p := Round(e, framing, fd, net, s);
            Marked(CutBy(p), s.opcode) && (p.Again? ==> |p.frames| == 1 && p.scan.opcode == p.frames[0].opcode)
  {
    var r := Answer(framing, s.buf, s.off + s.read, s.read, s.opcode, s.data);
    assert r.length >= 0;
    assert 0 < r.length <= s.off + s.read ==> r.opcode == if Passes(s.buf[..r.length]) then TEXT else s.opcode;
    SettleMarks(e, fd, net, s, r);
  }

  lemma SettleMarks(e: Env, fd: int, net: Net, s: Scan, r: Framed)
    requires Holds(s) && r.length >= 0
    requires 0 < r.length <= s.off + s.read ==> r.opcode == if Passes(s.buf[..r.length]) then TEXT else s.opcode
    ensures var p := Settle(e, fd, net, s, r);
            Marked(CutBy(p), s.opcode) && (p.Again? ==> |p.frames| == 1 && p.scan.opcode == p.frames[0].opcode)
  {
    SettledCut(e, fd, net, s, r);
    if 0 < r.length <= s.off + s.read {
      MarkedOne(Frame(r.opcode, s.buf[..r.length]), s.opcode);
    }
  }

  lemma MarkedOne(f: Frame, opcode: Opcode)
    requires f.opcode == if Passes(f.payload) then TEXT else opcode
    ensures Marked([f], opcode)
  {
    assert [f][0] == f && [f][1..] == [];
  }

  /**
   A frame of a read is text exactly if it or an earlier frame of the same read passes the
   UTF-8 test.  So a binary frame never does, and a text frame may not.
   */
  lemma {:induction false} MarkedMeans(frames: seq<Frame>, opcode: Opcode, k: nat)
    requires Marked(frames, opcode) && k < |frames| && opcode != TEXT
    ensures frames[k].opcode == TEXT <==> exists j :: 0 <= j <= k && Passes(frames[j].payload)
    ensures frames[k].opcode == TEXT || frames[k].opcode == opcode
  {
    if Passes(frames[0].payload) {
      MarkedStays(frames, k);
    } else if k > 0 {
      MarkedMeans(frames[1..], frames[0].opcode, k - 1);
      assert forall j :: 0 < j <= k ==> frames[1..][j - 1] == frames[j];
      if frames[k].opcode == TEXT {
        var j :| 0 <= j <= k - 1 && Passes(frames[1..][j].payload);
        assert Passes(frames[j + 1].payload);
      }
    }
  }

  lemma {:induction false} MarkedStays(frames: seq<Frame>, k: nat)
    requires frames != [] && frames[0].opcode == TEXT && Marked(frames[1..], TEXT) && k < |frames|
    ensures frames[k].opcode == TEXT
  {
    if k > 0 {
      MarkedStays(frames[1..], k - 1);
    }
  }

  /** Under `newline` and `auto` the frames of one read are marked in this way. */
  lemma ReadMarks(e: Env, c: Conn, data: bytes)
    requires Bridged(c) && FitsPeer(c, data) && Marks(c.peer.framing.value)
    ensures Marked(PeerData(e, c, Chunk(data)).frames, BINARY)
  {
    LoopMarks(e, c.peer.framing.value, c.wsFd, c.net, Loaded(c, data));
  }

  /** Two lines in one read, the second not UTF-8: both are sent as text. */
  const TWO_LINES: bytes := [0x61, 10, 0xFF, 10]

  lemma SecondLineMismarked(e: Env, c: Conn)
    requires Bridged(c) && c.peer.framing == Some(Newline("lf")) && c.framingData == NoData && c.peerOffset == 0
    requires Reliable(e, c.net)
    ensures PeerData(e, c, Chunk(TWO_LINES)).frames == [Frame(TEXT, [0x61, 10]), Frame(TEXT, [0xFF, 10])]
    ensures !Passes([0xFF, 10])
  {
    var sep: bytes := [10];
    NewlineSearches("lf");
    OneByteNeverStraddles(sep, [], TWO_LINES);
    assert Residue(c) == [];
    SearchFaithful(c.peer.framing.value, sep, [], TWO_LINES);
    SeparatorSplits(sep);
    ReadSplits(e, c, TWO_LINES, SeparatorSplit(sep), Keeps(sep));
    ReadMarks(e, c, TWO_LINES);
    assert [] + TWO_LINES == TWO_LINES;
    TwoLinesCut();
    LinesPass();
    TwoTexts(PeerData(e, c, Chunk(TWO_LINES)).frames, [0x61, 10], [0xFF, 10]);
  }

  lemma LinesPass()
    ensures Passes([0x61, 10]) && !Passes([0xFF, 10])
  {
    assert PassesFrom([0x61, 10], 1);
  }

  lemma TwoTexts(frames: seq<Frame>, a: bytes, b: bytes)
    requires Texts(frames) == [a, b] && Marked(frames, BINARY) && Passes(a)
    ensures frames == [Frame(TEXT, a), Frame(TEXT, b)]
  {
    assert |frames| == 2 && Texts(frames)[0] == frames[0].payload;
    assert Texts(frames)[1] == Texts(frames[1..])[0] == frames[1].payload;
  }

  lemma OneByteOccurs(s: bytes, sep: bytes, i: nat)
    requires |sep| == 1 && i < |s|
    ensures OccursAt(s, sep, i) <==> s[i] == sep[0]
  {
    assert s[i..i + 1] == [s[i]] && sep == [sep[0]];
  }

  lemma SecondByte(s: bytes, sep: bytes)
    requires |sep| == 1 && |s| >= 2 && s[0] != sep[0] && s[1] == sep[0]
    ensures EndOfFirst(s, sep, 0) == 2
  {
    OneByteOccurs(s, sep, 0);
    OneByteOccurs(s, sep, 1);
  }

  lemma FirstLine(sep: bytes, s: bytes, line: bytes, rest: bytes)
    requires |sep| == 1 && s == line + rest && |line| == 2 && line[0] != sep[0] && line[1] == sep[0]
    ensures CutAll(Segmenting(SeparatorSplit(sep)), s) == Prepend([line], CutAll(Segmenting(SeparatorSplit(sep)), rest))
  {
    var split := SeparatorSplit(sep);
    SeparatorSplits(sep);
    CutStep(split, s);
    SecondByte(s, sep);
    assert s[2..] == rest && s[..2] == line;
  }

  lemma LinesCut(sep: bytes, a: bytes, b: bytes)
    requires |sep| == 1 && |a| == |b| == 2 && a[0] != sep[0] && a[1] == sep[0] && b[0] != sep[0] && b[1] == sep[0]
    ensures CutAll(Segmenting(SeparatorSplit(sep)), a + b).items == [a, b]
  {
    SeparatorSplits(sep);
    FirstLine(sep, a + b, a, b);
    FirstLine(sep, b, b, []);
    NothingThenAll(SeparatorSplit(sep), []);
  }

  lemma TwoLinesCut()
    ensures CutAll(Segmenting(SeparatorSplit([10])), TWO_LINES).items == [[0x61, 10], [0xFF, 10]]
  {
    LinesCut([10], [0x61, 10], [0xFF, 10]);
    assert [0x61, 10] + [0xFF, 10] == TWO_LINES;
  }

  /** A framing function that takes everything, whatever of this kind it keeps. */
  ghost predicate TakesAll(framing: Framing, valid: Valid) {
    forall buf, length, read, opcode, data {:trigger Answer(framing, buf, length, read, opcode, data)} ::
      valid(data) ==>
        (var r := Answer(framing, buf, length, read, opcode, data); r.length == length && valid(r.data))
  }

  function Anything(): Valid {
    (data: FramingData) => true
  }

  lemma AutoTakesAll()
    ensures TakesAll(Auto(), Anything()) && NonNegative(Auto()) && Marks(Auto())
    ensures TakesAll(Binary(), Anything()) && NonNegative(Binary()) && KeepsOpcode(Binary())
  {
  }

  /** It never ends the loop with new bytes unexamined either. */
  lemma TakingAllExaminesAll(e: Env, framing: Framing, valid: Valid, fd: int, net: Net, s: Scan)
    requires Holds(s) && NonNegative(framing) && TakesAll(framing, valid) && valid(s.data) && s.read > 0
    ensures !StopsEarly(e, framing, fd, net, s)
  {
    assert Answer(framing, s.buf, s.off + s.read, s.read, s.opcode, s.data).length == s.off + s.read;
    AnswersPastOld(e, framing, fd, net, s);
  }

  /** A framing function that takes everything makes each read one frame, and leaves nothing behind. */
  lemma ReadTaken(e: Env, c: Conn, data: bytes, valid: Valid) returns (opcode: Opcode)
    requires Bridged(c) && FitsPeer(c, data) && Reliable(e, c.net) && c.peerOffset == 0
    requires TakesAll(c.peer.framing.value, valid) && valid(c.framingData)
    ensures var r := PeerData(e, c, Chunk(data));
            && Bridged(r.conn) && r.conn.peerOffset == 0 && Reliable(e, r.conn.net) && r.conn.peer == c.peer
            && r.frames == [Frame(opcode, data)] && valid(r.conn.framingData)
  {
    var s := Loaded(c, data);
    var r := Answer(c.peer.framing.value, s.buf, s.off + s.read, s.read, s.opcode, s.data);
    assert r.length == s.off + s.read;
    opcode := r.opcode;
    assert s.buf[..|data|] == data;
    RoundSends(e, c.peer.framing.value, c.wsFd, c.net, s);
    PeerDataKeeps(e, c, data);
  }

  /** One frame per read: `auto` types it by its content, `binary` as binary. */
  lemma OneFramePerRead(e: Env, c: Conn, data: bytes, valid: Valid)
    requires Bridged(c) && FitsPeer(c, data) && Reliable(e, c.net) && c.peerOffset == 0
    requires TakesAll(c.peer.framing.value, valid) && valid(c.framingData)
    ensures Marks(c.peer.framing.value) ==>
      PeerData(e, c, Chunk(data)).frames == [Frame(if Passes(data) then TEXT else BINARY, data)]
    ensures KeepsOpcode(c.peer.framing.value) ==> PeerData(e, c, Chunk(data)).frames == [Frame(BINARY, data)]
  {
    var opcode := ReadTaken(e, c, data, valid);
    if Marks(c.peer.framing.value) {
      ReadMarks(e, c, data);
    }
    if KeepsOpcode(c.peer.framing.value) {
      LoopKeepsOpcode(e, c.peer.framing.value, c.wsFd, c.net, Loaded(c, data));
    }
  }

  lemma HeadAndRest(chunks: seq<bytes>, data: bytes, rest: seq<bytes>)
    requires chunks != [] && data == chunks[0] && rest == chunks[1..]
    ensures chunks == [data] + rest
  {
  }

  /** So over a run the frames are the reads. */
  lemma {:induction false} ReadsAreFrames(e: Env, c: Conn, chunks: seq<bytes>, valid: Valid)
    requires Bridged(c) && PeerReadsFit(e, c, chunks) && Reliable(e, c.net) && c.peerOffset == 0
    requires TakesAll(c.peer.framing.value, valid) && valid(c.framingData)
    ensures Texts(PeerRun(e, c, chunks).frames) == chunks && PeerRun(e, c, chunks).conn.peerOffset == 0
    decreases |chunks|
  {
    if chunks != [] {
      var data, rest := chunks[0], chunks[1..];
      RunStep(e, c, chunks);
      var opcode := ReadTaken(e, c, data, valid);
      var first := PeerData(e, c, Chunk(data));
      ReadsAreFrames(e, first.conn, rest, valid);
      TextsOne(Frame(opcode, data), PeerRun(e, first.conn, rest).frames);
      HeadAndRest(chunks, data, rest);
    }
  }

  /** The type that `auto` gives a frame. */
  function TypeOf(text: bytes): Opcode {
    if Passes(text) then TEXT else BINARY
  }

  predicate Typed(frames: seq<Frame>) {
    forall f :: f in frames ==> f.opcode == TypeOf(f.payload)
  }

  /** Under `auto` each is typed by its own content. */
  lemma {:induction false} ReadsAreTyped(e: Env, c: Conn, chunks: seq<bytes>)
    requires Bridged(c) && PeerReadsFit(e, c, chunks) && Reliable(e, c.net) && c.peerOffset == 0
    requires TakesAll(c.peer.framing.value, Anything()) && Marks(c.peer.framing.value)
    ensures Typed(PeerRun(e, c, chunks).frames)
    decreases |chunks|
  {
    if chunks != [] {
      RunStep(e, c, chunks);
      OneFramePerRead(e, c, chunks[0], Anything());
      var opcode := ReadTaken(e, c, chunks[0], Anything());
      ReadsAreTyped(e, PeerData(e, c, Chunk(chunks[0])).conn, chunks[1..]);
    }
  }

  /** Under `auto` the client is sent the reads, one frame each, typed by what it holds; nothing stays behind. */
  lemma AutoForwards(e: Env, c: Conn, chunks: seq<bytes>)
    requires Bridged(c) && c.peer.framing == Some(Auto()) && c.peerOffset == 0
    requires PeerReadsFit(e, c, chunks) && Reliable(e, c.net)
    ensures var r := PeerRun(e, c, chunks);
            Texts(r.frames) == chunks && Typed(r.frames) && r.conn.peerOffset == 0
  {
    AutoTakesAll();
    ReadsAreFrames(e, c, chunks, Anything());
    ReadsAreTyped(e, c, chunks);
  }

  /** Under `binary` too, all of them binary. */
  lemma BinaryForwards(e: Env, c: Conn, chunks: seq<bytes>)
    requires Bridged(c) && c.peer.framing == Some(Binary()) && c.peerOffset == 0
    requires PeerReadsFit(e, c, chunks) && Reliable(e, c.net)
    ensures var r := PeerRun(e, c, chunks);
            Texts(r.frames) == chunks && AllOf(r.frames, BINARY) && r.conn.peerOffset == 0
  {
    AutoTakesAll();
    ReadsAreFrames(e, c, chunks, Anything());
    RunIsBinary(e, c, chunks);
  }
}
