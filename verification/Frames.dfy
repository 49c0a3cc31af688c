/**
 The WebSocket wire format, section 5.2 of RFC 6455: the header arithmetic shared by both
 directions, the parser for client frames and the printer for server frames.
 */
module Frames {
  import opened Bytes
  import opened Cutting

  type Opcode = x: nat | x < 16

  const TEXT: Opcode := 1
  const BINARY: Opcode := 2
  const CLOSE: Opcode := 8
  const PING: Opcode := 9
  const PONG: Opcode := 10

  /** Both 64-bit lengths and the sum of header size and length live modulo 2^64. */
  const TWO_TO_64: nat := 0x1_0000_0000_0000_0000

  datatype Frame = Frame(opcode: Opcode, payload: bytes)

  datatype Header = NeedsMore | Header(opcode: Opcode, masked: bool, size: nat, length: nat)

  /**
   The header at the start of `s`.  The masking key is asked for before the extended
   length, and again with it.
   */
  function ParseHeader(s: bytes): (h: Header)
    ensures h.Header? ==> 2 <= h.size <= 14 && h.size <= |s| && (h.masked ==> 6 <= h.size)
  {
    if |s| < 2 then NeedsMore
    else
      var opcode := s[0] as nat % 16;
      var masked := s[1] >= 128;
      var short := s[1] as nat % 128;
      if masked && |s| < 6 then NeedsMore
      else if short == 126 then
        if |s| < 4 || (masked && |s| < 8) then NeedsMore
        else Header(opcode, masked, if masked then 8 else 4, FromBE(s[2..4]))
      else if short == 127 then
        if |s| < 10 || (masked && |s| < 14) then NeedsMore
        else Header(opcode, masked, if masked then 14 else 10, FromBE(s[2..10]))
      else Header(opcode, masked, if masked then 6 else 2, short)
  }

  /** Section 5.3: the payload, with every octet combined with one of the four key octets. */
  function Mask(key: bytes, s: bytes): (r: bytes)
    requires |key| == 4
    ensures |r| == |s|
  {
    seq(|s|, i requires 0 <= i < |s| => Xor(s[i], key[i % 4]))
  }

  /** Section 5.3, octet by octet and bit by bit. */
  predicate Masked(key: bytes, clear: bytes, sent: bytes)
    requires |key| == 4
  {
    && |sent| == |clear|
    && forall i :: 0 <= i < |clear| ==> ExclusiveOr(sent[i] as nat, clear[i] as nat, key[i % 4] as nat, 8)
  }

  lemma MaskExactly(key: bytes, clear: bytes, sent: bytes)
    requires |key| == 4
    ensures sent == Mask(key, clear) <==> Masked(key, clear, sent)
  {
    var mask := Mask(key, clear);
    if |sent| == |clear| {
      forall i | 0 <= i < |clear|
        ensures sent[i] == mask[i] <==> ExclusiveOr(sent[i] as nat, clear[i] as nat, key[i % 4] as nat, 8)
      {
        XorExactly(sent[i], clear[i], key[i % 4]);
      }
    }
  }

  lemma MaskTwice(key: bytes, s: bytes)
    requires |key| == 4
    ensures Mask(key, Mask(key, s)) == s
  {
    forall i | 0 <= i < |s| ensures Mask(key, Mask(key, s))[i] == s[i] {
      XorInvolutive(s[i], key[i % 4]);
    }
  }

  /**
   What the head of the buffer is: incomplete, a complete frame without a mask, a frame
   whose size wrapped around (its payload would reach far behind the buffer), or a frame
   of `size` bytes.
   */
  datatype Parsed = Incomplete | Unmasked | Wrapped | Complete(frame: Frame, size: nat)

  function Parse(s: bytes): (p: Parsed)
    ensures p.Complete? ==> 6 <= p.size <= |s|
  {
    match ParseHeader(s)
    case NeedsMore => Incomplete
    case Header(opcode, masked, size, length) =>
      if |s| < (size + length) % TWO_TO_64 then Incomplete
      else if !masked then Unmasked
      else if size + length >= TWO_TO_64 then Wrapped
      else Complete(Frame(opcode, Mask(s[size - 4..size], s[size..size + length])), size + length)
  }

  lemma HeaderStable(s: bytes, t: bytes)
    requires ParseHeader(s).Header?
    ensures ParseHeader(s + t) == ParseHeader(s)
  {
    if |s| >= 4 {
      SliceOfPrefix(s, t, 2, 4);
    }
    if |s| >= 10 {
      SliceOfPrefix(s, t, 2, 10);
    }
  }

  /** What the parser has decided stays decided when more bytes arrive. */
  lemma ParseStable(s: bytes, t: bytes)
    requires !Parse(s).Incomplete?
    ensures Parse(s + t) == Parse(s)
  {
    HeaderStable(s, t);
    var h := ParseHeader(s);
    if Parse(s).Complete? {
      SliceOfPrefix(s, t, h.size - 4, h.size);
      SliceOfPrefix(s, t, h.size, h.size + h.length);
    }
  }

  /** Section 5.2: the most significant bit of a 64-bit length must be 0. */
  predicate LegalLength(s: bytes) {
    ParseHeader(s).Header? ==> ParseHeader(s).length < TWO_TO_64 / 2
  }

  /** On legal lengths the parser never meets a wrapped size, and takes exactly what is announced. */
  lemma LegalNeverWraps(s: bytes)
    requires LegalLength(s)
    ensures !Parse(s).Wrapped?
    ensures Parse(s).Incomplete? <==>
      ParseHeader(s).NeedsMore? || |s| < ParseHeader(s).size + ParseHeader(s).length
  {
  }

  /** The three encodings of a payload length. */
  datatype LengthForm = Short | Medium | Long

  predicate Fits(form: LengthForm, length: nat) {
    match form
    case Short => length <= 125
    case Medium => length <= 0xFFFF
    case Long => length < TWO_TO_64 / 2
  }

  /** The second header octet without the mask bit, and the extended length. */
  function LengthCode(form: LengthForm, length: nat): nat {
    match form
    case Short => length % 128
    case Medium => 126
    case Long => 127
  }

  function LengthText(form: LengthForm, length: nat): bytes {
    match form
    case Short => []
    case Medium => ToBE(length, 2)
    case Long => ToBE(length, 8)
  }

  /** The header up to the masking key. */
  function HeaderText(first: byte, form: LengthForm, masked: bool, length: nat): bytes {
    [first, ((if masked then 128 else 0) + LengthCode(form, length)) as byte] + LengthText(form, length)
  }

  /** A masked frame as a client may build it: any first octet with its opcode, any length form. */
  function ClientFrame(first: byte, form: LengthForm, key: bytes, payload: bytes): bytes
    requires |key| == 4
  {
    HeaderText(first, form, true, |payload|) + key + Mask(key, payload)
  }

  lemma Powers()
    ensures Pow256(2) == 0x1_0000 && Pow256(8) == TWO_TO_64
  {
    assert Pow256(3) == 0x100_0000;
    assert Pow256(5) == 0x100_0000_0000;
    assert Pow256(7) == 0x100_0000_0000_0000;
  }

  /** The header of a frame built by the book, whatever follows it. */
  lemma HeaderRoundTrip(first: byte, form: LengthForm, masked: bool, length: nat, rest: bytes)
    requires Fits(form, length) && (masked ==> |rest| >= 4)
    ensures ParseHeader(HeaderText(first, form, masked, length) + rest)
         == Header(first as nat % 16, masked,
                   |HeaderText(first, form, masked, length)| + (if masked then 4 else 0), length)
  {
    var text := LengthText(form, length);
    var s := HeaderText(first, form, masked, length) + rest;
    Powers();
    assert s[2..2 + |text|] == text;
    if form.Medium? {
      FromToBE(length, 2);
    } else if form.Long? {
      FromToBE(length, 8);
    }
  }

  /**
   A client frame, its payload masked as section 5.3 says, decodes to its opcode and its
   payload and takes exactly its own bytes, whatever follows it.
   */
  lemma ClientRoundTrip(first: byte, form: LengthForm, key: bytes, payload: bytes, sent: bytes, rest: bytes)
    requires |key| == 4 && Fits(form, |payload|) && Masked(key, payload, sent)
    ensures var text := HeaderText(first, form, true, |payload|) + key + sent;
            Parse(text + rest) == Complete(Frame(first as nat % 16, payload), |text|)
  {
    var head := HeaderText(first, form, true, |payload|);
    assert head + key + sent + rest == head + (key + sent + rest);
    HeaderRoundTrip(first, form, true, |payload|, key + sent + rest);
    ParseMasked(head, key, sent, rest, first as nat % 16);
    MaskExactly(key, payload, sent);
    MaskTwice(key, payload);
  }

  lemma ParseMasked(head: bytes, key: bytes, masked: bytes, rest: bytes, opcode: Opcode)
    requires |key| == 4 && |head| + 4 + |masked| < TWO_TO_64
    requires ParseHeader(head + (key + masked + rest)) == Header(opcode, true, |head| + 4, |masked|)
    ensures Parse(head + (key + masked + rest)) == Complete(Frame(opcode, Mask(key, masked)), |head| + 4 + |masked|)
  {
    Regroup(key, masked, rest);
    MiddleSlice(head, key, masked + rest);
    Regroup(head, key, masked + rest);
    MiddleSlice(head + key, masked, rest);
  }

  /** A frame without a mask is recognised as such, once its payload is there. */
  lemma UnmaskedIsFound(first: byte, form: LengthForm, payload: bytes, rest: bytes)
    requires Fits(form, |payload|)
    ensures Parse(HeaderText(first, form, false, |payload|) + payload + rest) == Unmasked
  {
    var head := HeaderText(first, form, false, |payload|);
    Regroup(head, payload, rest);
    HeaderRoundTrip(first, form, false, |payload|, payload + rest);
  }

  function MinimalForm(length: nat): LengthForm {
    if length <= 125 then Short else if length <= 0xFFFF then Medium else Long
  }

  /** What the printer puts in front of a payload. */
  function ServerHeader(opcode: Opcode, length: nat): bytes {
    HeaderText((128 + opcode) as byte, MinimalForm(length), false, length)
  }

  function ServerFrame(f: Frame): bytes {
    ServerHeader(f.opcode, |f.payload|) + f.payload
  }

  /** A 64-bit number, its most significant octet first. */
  function EightOctets(n: nat): bytes
    requires n < TWO_TO_64
  {
    [(n / 0x100_0000_0000_0000) as byte, (n / 0x1_0000_0000_0000 % 0x100) as byte,
     (n / 0x100_0000_0000 % 0x100) as byte, (n / 0x1_0000_0000 % 0x100) as byte,
     (n / 0x100_0000 % 0x100) as byte, (n / 0x1_0000 % 0x100) as byte,
     (n / 0x100 % 0x100) as byte, (n % 0x100) as byte]
  }

  lemma EightOctetsBE(n: nat)
    requires n < TWO_TO_64
    ensures ToBE(n, 8) == EightOctets(n)
  {
    var a, b, c := n / 0x1_0000, n / 0x1_0000_0000, n / 0x1_0000_0000_0000;
    OctetsJoin(n, 6);
    OctetsJoin(a, 4);
    OctetsJoin(b, 2);
    TwoOctets(c);
    assert a / 0x1_0000 == b && b / 0x1_0000 == c;
    assert a / 0x100 == n / 0x100_0000 && b / 0x100 == n / 0x100_0000_0000 && c / 0x100 == n / 0x100_0000_0000_0000;
  }

  /** The octets of a header, by section 5.2, with the length spelled out. */
  lemma HeaderOctets(first: byte, form: LengthForm, masked: bool, length: nat)
    requires Fits(form, length)
    ensures var m := if masked then 128 else 0;
            HeaderText(first, form, masked, length) == [first] +
              match form
              case Short => [(m + length) as byte]
              case Medium => [(m + 126) as byte, (length / 0x100) as byte, (length % 0x100) as byte]
              case Long => [(m + 127) as byte] + EightOctets(length)
  {
    match form
    case Short =>
    case Medium => TwoOctets(length);
    case Long => EightOctetsBE(length);
  }

  predicate Sendable(f: Frame) {
    |f.payload| < TWO_TO_64 / 2
  }

  /** The length of an unmasked frame: one, three or nine octets, the mask bit clear. */
  function LengthOctets(n: nat): bytes
    requires n < TWO_TO_64
  {
    if n <= 125 then [n as byte]
    else if n <= 0xFFFF then [126, (n / 0x100) as byte, (n % 0x100) as byte]
    else [127] + EightOctets(n)
  }

  /**
   A frame as it is sent, by section 5.2: FIN and the opcode, the length in network byte order
   and the payload as it is.
   */
  lemma ServerOctets(f: Frame)
    requires Sendable(f)
    ensures ServerFrame(f) == [(0x80 + f.opcode) as byte] + LengthOctets(|f.payload|) + f.payload
  {
    HeaderOctets((0x80 + f.opcode) as byte, MinimalForm(|f.payload|), false, |f.payload|);
  }

  /** So its first octet has the top bit set, the next three bits clear and the opcode below. */
  lemma FinIsSent(f: Frame)
    requires Sendable(f)
    ensures var s := ServerFrame(f);
            && Bit(s[0] as nat, 7) && !Bit(s[0] as nat, 6) && !Bit(s[0] as nat, 5) && !Bit(s[0] as nat, 4)
            && s[0] as nat % 16 == f.opcode && !Bit(s[1] as nat, 7)
  {
    ServerOctets(f);
    FourBitsUp(0x80 + f.opcode, 8);
    HighBitClear(LengthOctets(|f.payload|)[0]);
  }

  lemma FourBitsUp(n: nat, m: nat)
    requires n / 16 == m
    ensures forall k :: 0 <= k < 4 ==> Bit(n, k + 4) == Bit(m, k)
    ensures m == 8 ==> Bit(n, 7) && !Bit(n, 6) && !Bit(n, 5) && !Bit(n, 4)
  {
    assert n / 2 / 2 / 2 / 2 == m;
    forall k: nat | k < 4 ensures Bit(n, k + 4) == Bit(m, k) {
      assert Bit(n / 2 / 2 / 2, k + 1) == Bit(m, k);
      assert Bit(n / 2, k + 3) == Bit(n / 2 / 2, k + 2);
    }
    assert Bit(n, 3 + 4) == Bit(m, 3) && Bit(n, 2 + 4) == Bit(m, 2);
    assert Bit(n, 1 + 4) == Bit(m, 1) && Bit(n, 0 + 4) == Bit(m, 0);
    EightInBits();
  }

  lemma EightInBits()
    ensures Bit(8, 3) && !Bit(8, 2) && !Bit(8, 1) && !Bit(8, 0)
  {
    assert Bit(4, 2) && Bit(2, 1) && !Bit(4, 1) && !Bit(2, 0) && !Bit(4, 0);
  }

  lemma HighBitClear(b: byte)
    requires b < 128
    ensures !Bit(b as nat, 7)
  {
    var n := b as nat / 16;
    FourBitsUp(b as nat, n);
    assert Bit(b as nat, 3 + 4) == Bit(n, 3) && Bit(n, 3) == Bit(n / 2, 2) && Bit(n / 2, 2) == Bit(n / 2 / 2, 1);
    assert n / 2 / 2 / 2 == 0;
  }

  /** Frames of the types that are sent, with a short payload. */
  lemma NamedOctets(text: bytes)
    requires |text| <= 125
    ensures var n := |text| as byte;
            && ServerFrame(Frame(TEXT, text)) == [0x81, n] + text
            && ServerFrame(Frame(BINARY, text)) == [0x82, n] + text
            && ServerFrame(Frame(CLOSE, text)) == [0x88, n] + text
            && ServerFrame(Frame(PING, text)) == [0x89, n] + text
            && ServerFrame(Frame(PONG, text)) == [0x8A, n] + text
  {
    forall f: Frame | f.payload == text ensures ServerFrame(f) == [(128 + f.opcode) as byte, |text| as byte] + text {
      ServerOctets(f);
    }
  }

  /** Section 5.2: no other encoding of the length is shorter. */
  lemma HeaderIsMinimal(opcode: Opcode, length: nat, form: LengthForm)
    requires Fits(form, length)
    ensures |ServerHeader(opcode, length)| <= 2 + |LengthText(form, length)|
  {
  }

  /** FIN is set and the three bits for extensions are clear. */
  predicate Final(first: byte) {
    first as nat / 16 == 8
  }

  /**
   The reading side of a client, sections 5.2 and 5.4: a message is one final frame, unmasked
   and without extensions.  At anything else, fragments included, this client stops.
   */
  function Receive(s: bytes): Cut<Frame, ()> {
    match ParseHeader(s)
    case NeedsMore => Wait
    case Header(opcode, masked, size, length) =>
      if masked || !Final(s[0]) then Halt(())
      else if |s| < size + length then Wait
      else Take(Frame(opcode, s[size..size + length]), size + length)
  }

  lemma ReceiveStable()
    ensures Stable(Receive)
  {
    forall s, t | !Receive(s).Wait? ensures Receive(s + t) == Receive(s) {
      HeaderStable(s, t);
      var h := ParseHeader(s);
      if Receive(s).Take? {
        SliceOfPrefix(s, t, h.size, h.size + h.length);
      }
    }
  }

  lemma ServerRoundTrip(f: Frame, rest: bytes)
    requires Sendable(f)
    ensures Receive(ServerFrame(f) + rest) == Take(f, |ServerFrame(f)|)
  {
    var header := ServerHeader(f.opcode, |f.payload|);
    var s := ServerFrame(f) + rest;
    assert s == header + (f.payload + rest);
    HeaderRoundTrip((128 + f.opcode) as byte, MinimalForm(|f.payload|), false, |f.payload|, f.payload + rest);
    assert s[|header|..|header| + |f.payload|] == f.payload;
  }

  /** What is on the wire after these frames were sent. */
  function Wire(frames: seq<Frame>): bytes {
    PrintAll(ServerFrame, frames)
  }

  lemma WireOne(f: Frame)
    ensures Wire([f]) == ServerFrame(f)
  {
    assert [f][1..] == [] && Wire([]) == [];
    assert ServerFrame(f) + [] == ServerFrame(f);
  }

  /** A conforming client reads back the frames that were sent, and goes on behind them. */
  lemma WireRoundTrip(frames: seq<Frame>, rest: bytes)
    requires forall f :: f in frames ==> Sendable(f)
    ensures CutAll(Receive, Wire(frames) + rest) == Prepend(frames, CutAll(Receive, rest))
  {
    forall i | 0 <= i < |frames| ensures Prints(Receive, ServerFrame, frames[i]) {
      forall rest: bytes
        ensures Receive(ServerFrame(frames[i]) + rest) == Take(frames[i], |ServerFrame(frames[i])|)
      {
        ServerRoundTrip(frames[i], rest);
      }
    }
    PrintedIsCut(Receive, ServerFrame, frames, rest);
  }

  /** The client may read its wire in any pieces. */
  lemma WireInPieces(frames: seq<Frame>, pieces: seq<bytes>)
    requires forall f :: f in frames ==> Sendable(f)
    requires Concat(pieces) == Wire(frames)
    ensures CutPieces(Receive, Rest([]), pieces) == Cuts(frames, Rest([]))
  {
    ReceiveStable();
    PiecesDoNotMatter(Receive, [], pieces);
    WireRoundTrip(frames, []);
    assert [] + Concat(pieces) == Wire(frames) + [];
    assert CutAll(Receive, []) == Cuts([], Rest([]));
    assert frames + [] == frames;
  }

  /** Concatenated frames cannot be split in two ways. */
  lemma WireUnique(a: seq<Frame>, b: seq<Frame>)
    requires forall f :: f in a ==> Sendable(f)
    requires forall f :: f in b ==> Sendable(f)
    requires Wire(a) == Wire(b)
    ensures a == b
  {
    WireRoundTrip(a, []);
    WireRoundTrip(b, []);
    assert Wire(a) + [] == Wire(b) + [];
    assert CutAll(Receive, []).items == [];
    assert a + [] == a && b + [] == b;
  }
}
