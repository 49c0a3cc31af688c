/**
 Upgrade requests by section 4.2.1 of RFC 6455, in characters: their lines as a client may
 write them, what the handshake reads from them, and what it answers.
 */
module Requests {
  import opened Bytes
  import opened Memory
  import opened Connection
  import opened Handshake
  import opened Upgrades

  predicate White(b: byte) {
    b in {0x20, 0x09, 0x0A, 0x0B, 0x0C, 0x0D}
  }

  predicate Blanks(s: bytes) {
    forall i :: 0 <= i < |s| ==> White(s[i])
  }

  /** No blank at either end. */
  predicate Tight(s: bytes) {
    s != [] ==> !White(s[0]) && !White(s[|s| - 1])
  }

  /** The text is a word in any mixture of its small and its capital letters. */
  predicate Spells(s: bytes, small: string, capital: string) {
    && |s| == |small| == |capital|
    && forall i :: 0 <= i < |s| ==> s[i] as int == small[i] as int || s[i] as int == capital[i] as int
  }

  datatype Offer = Offer(before: bytes, name: bytes, behind: bytes)

  /** A header line, with what a client may choose about it. */
  datatype Header =
    | KeyHeader(before: bytes, key: bytes, behind: bytes)
    | VersionHeader(before: bytes, version: bytes)
    | UpgradeHeader(before: bytes, word: bytes)
    | ConnectionHeader(before: bytes, word: bytes, behind: bytes)
    | ProtocolHeader(offers: seq<Offer>)
    | OtherHeader(tag: bytes, before: bytes, value: bytes)

  predicate IsOffer(o: Offer) {
    && Blanks(o.before) && Blanks(o.behind)
    && o.name != [] && Tight(o.name) && NoNul(o.name) && 0x2C !in o.name
  }

  predicate AreOffers(offers: seq<Offer>) {
    offers == [] || (IsOffer(offers[0]) && AreOffers(offers[1..]))
  }

  predicate IsTag(s: bytes) {
    s != [] && !White(s[0]) && NoNul(s) && 0x3A !in s
  }

  predicate IsHeader(h: Header) {
    match h
    case KeyHeader(before, key, behind) => Blanks(before) && Tight(key) && NoNul(key) && Blanks(behind)
    case VersionHeader(before, version) => Blanks(before) && NoNul(version) && (version != [] ==> !White(version[0]))
    case UpgradeHeader(before, word) => Blanks(before) && Spells(word, "websocket", "WEBSOCKET")
    case ConnectionHeader(before, word, behind) =>
      NoNul(before) && Spells(word, "upgrade", "UPGRADE") && NoNul(behind)
    case ProtocolHeader(offers) => AreOffers(offers)
    case OtherHeader(tag, before, value) =>
      && IsTag(tag) && Blanks(before) && NoNul(value) && (value != [] ==> !White(value[0]))
      && tag != Ascii("Sec-WebSocket-Key") && tag != Ascii("Sec-WebSocket-Version")
      && tag != Ascii("Sec-WebSocket-Protocol")
      && (tag == Ascii("Upgrade") ==> !Spells(value, "websocket", "WEBSOCKET"))
      && (tag == Ascii("Connection") ==> NowhereSpelled(value))
  }

  /** The seven octets from `i` on. */
  predicate SpellsAt(s: bytes, i: nat) {
    i + 7 <= |s| && Spells(s[i..i + 7], "upgrade", "UPGRADE")
  }

  predicate NowhereSpelled(s: bytes) {
    forall i: nat :: i <= |s| ==> !SpellsAt(s, i)
  }

  function OfferText(o: Offer): bytes {
    o.before + o.name + o.behind
  }

  /** Offers stand between commas. */
  function OffersText(offers: seq<Offer>): bytes {
    if offers == [] then []
    else OfferText(offers[0]) + if |offers| == 1 then [] else [0x2C] + OffersText(offers[1..])
  }

  function OfferNames(offers: seq<Offer>): seq<bytes> {
    if offers == [] then [] else [offers[0].name] + OfferNames(offers[1..])
  }

  function TagOf(h: Header): bytes {
    match h
    case KeyHeader(_, _, _) => Ascii("Sec-WebSocket-Key")
    case VersionHeader(_, _) => Ascii("Sec-WebSocket-Version")
    case UpgradeHeader(_, _) => Ascii("Upgrade")
    case ConnectionHeader(_, _, _) => Ascii("Connection")
    case ProtocolHeader(_) => Ascii("Sec-WebSocket-Protocol")
    case OtherHeader(tag, _, _) => tag
  }

  function ValueOf(h: Header): bytes {
    match h
    case KeyHeader(before, key, behind) => before + key + behind
    case VersionHeader(before, version) => before + version
    case UpgradeHeader(before, word) => before + word
    case ConnectionHeader(before, word, behind) => before + word + behind
    case ProtocolHeader(offers) => OffersText(offers)
    case OtherHeader(_, before, value) => before + value
  }

  function HeaderText(h: Header): bytes {
    TagOf(h) + [0x3A] + ValueOf(h)
  }

  /** Capital letters as small ones. */
  function SmallLetters(s: bytes): bytes {
    seq(|s|, i requires 0 <= i < |s| => if 0x41 <= s[i] <= 0x5A then s[i] + 0x20 else s[i])
  }

  /** A header is kept as it is, but a `Connection` line in small letters. */
  function StoredAs(tag: bytes, value: bytes): HttpHeader {
    HttpHeader(tag, if tag == Ascii("Connection") then SmallLetters(value) else value)
  }

  /** What the line says. */
  function MeaningOf(h: Header): Field {
    match h
    case KeyHeader(_, key, _) => TheKey(key)
    case VersionHeader(_, version) => Version(version)
    case UpgradeHeader(_, _) => WantsUpgrade
    case ConnectionHeader(_, _, _) => WantsConnection
    case ProtocolHeader(offers) => Offers(OfferNames(offers))
    case OtherHeader(tag, _, value) => Stored(StoredAs(tag, value))
  }

  // Blanks.

  lemma {:induction false} LTrimPads(pad: bytes, s: bytes)
    requires Blanks(pad) && (s != [] ==> !White(s[0]))
    ensures LTrim(pad + s) == s
  {
    if pad == [] {
      assert pad + s == s;
    } else {
      assert White(pad[0]);
      FirstOfBoth(pad, s);
      LTrimPads(pad[1..], s);
    }
  }

  lemma {:induction false} RTrimPads(s: bytes, pad: bytes)
    requires Blanks(pad) && (s != [] ==> !White(s[|s| - 1]))
    ensures RTrim(s + pad) == s
    decreases |pad|
  {
    if pad == [] {
      assert s + pad == s;
    } else {
      var n := |pad| - 1;
      assert White(pad[n]);
      assert (s + pad)[..|s + pad| - 1] == s + pad[..n];
      RTrimPads(s, pad[..n]);
    }
  }

  lemma PaddedIsTrimmed(before: bytes, s: bytes, behind: bytes)
    requires Blanks(before) && Tight(s) && Blanks(behind)
    ensures RTrim(LTrim(before + s + behind)) == s
  {
    if s == [] {
      assert before + s + behind == (before + behind) + [];
      LTrimPads(before + behind, []);
    } else {
      Regroup(before, s, behind);
      LTrimPads(before, s + behind);
      RTrimPads(s, behind);
    }
  }

  /** What `LTrim` drops is blanks. */
  lemma {:induction false} LTrimDrops(s: bytes) returns (k: nat)
    ensures k <= |s| && LTrim(s) == s[k..] && Blanks(s[..k])
    ensures k < |s| ==> !White(s[k])
  {
    if s != [] && IsSpace(s[0]) {
      k := LTrimDrops(s[1..]);
      assert s[1..][k..] == s[k + 1..];
      assert s[..k + 1] == [s[0]] + s[1..][..k];
      k := k + 1;
    } else {
      k := 0;
    }
  }

  // Lines.

  lemma {:induction false} CTextWhole(s: bytes)
    requires NoNul(s)
    ensures CText(s) == s
  {
    if s != [] {
      CTextWhole(s[1..]);
      assert s == [s[0]] + s[1..];
    }
  }

  lemma {:induction false} IndexBehindTag(tag: bytes, b: byte, rest: bytes, i: nat)
    requires b !in tag && i <= |tag|
    ensures IndexOf(tag + [b] + rest, i, b) == |tag|
    decreases |tag| - i
  {
    var s := tag + [b] + rest;
    if i < |tag| {
      assert s[i] == tag[i];
      IndexBehindTag(tag, b, rest, i + 1);
    } else {
      assert s[i] == b;
    }
  }

  lemma NoNulJoin(a: bytes, b: bytes)
    requires NoNul(a) && NoNul(b)
    ensures NoNul(a + b)
  {
  }

  lemma BlanksAreText(s: bytes)
    requires Blanks(s)
    ensures NoNul(s)
  {
    forall i | 0 <= i < |s| ensures s[i] != 0 {
      assert White(s[i]);
    }
  }

  /** Tag, colon and value. */
  lemma LineParts(tag: bytes, value: bytes)
    requires IsTag(tag) && NoNul(value)
    ensures LineOf(tag + [COLON] + value) == HeaderLine(FieldOf(tag, LTrim(value)))
  {
    var s := tag + [COLON] + value;
    NoNulJoin(tag, [COLON]);
    NoNulJoin(tag + [COLON], value);
    CTextWhole(s);
    IndexBehindTag(tag, COLON, value, 0);
    assert s[0] == tag[0] && s[..|tag|] == tag && s[|tag| + 1..] == value;
  }

  /** A literal tag. */
  lemma TextIsTag(text: string)
    requires text != "" && forall c :: c in text ==> '!' <= c <= '~' && c != ':'
    ensures IsTag(Ascii(text))
  {
    var s := Ascii(text);
    forall i | 0 <= i < |s| ensures 0x21 <= s[i] <= 0x7E && s[i] != COLON {
      assert text[i] in text;
    }
  }

  lemma KnownTags()
    ensures IsTag(Ascii("Sec-WebSocket-Key")) && IsTag(Ascii("Sec-WebSocket-Version"))
    ensures IsTag(Ascii("Upgrade")) && IsTag(Ascii("Connection")) && IsTag(Ascii("Sec-WebSocket-Protocol"))
  {
    TextIsTag("Sec-WebSocket-Key");
    TextIsTag("Sec-WebSocket-Version");
    TextIsTag("Upgrade");
    TextIsTag("Connection");
    TextIsTag("Sec-WebSocket-Protocol");
  }

  // Words.

  lemma LowerSpells(s: bytes, small: string, capital: string)
    requires |small| == |capital|
    requires forall i :: 0 <= i < |small| ==> 'a' <= small[i] <= 'z' && capital[i] as int == small[i] as int - 32
    ensures Lower(s) == Ascii(small) <==> Spells(s, small, capital)
  {
    var lower, word := Lower(s), Ascii(small);
    if |s| == |small| {
      forall i | 0 <= i < |s|
        ensures lower[i] == word[i] <==> s[i] as int == small[i] as int || s[i] as int == capital[i] as int
      {
        assert 'a' <= small[i] <= 'z';
      }
    }
  }

  lemma WebSocketSpelled(s: bytes)
    ensures Lower(s) == Ascii("websocket") <==> Spells(s, "websocket", "WEBSOCKET")
  {
    LowerSpells(s, "websocket", "WEBSOCKET");
  }

  lemma UpgradeSpelled(s: bytes)
    ensures Lower(s) == Ascii("upgrade") <==> Spells(s, "upgrade", "UPGRADE")
  {
    LowerSpells(s, "upgrade", "UPGRADE");
  }

  lemma LowerPart(s: bytes, i: nat, j: nat)
    requires i <= j <= |s|
    ensures Lower(s)[i..j] == Lower(s[i..j])
  {
  }

  lemma UpgradeAt(s: bytes, i: nat)
    ensures StartsAt(Lower(s), i, Ascii("upgrade")) <==> SpellsAt(s, i)
  {
    if i + 7 <= |s| {
      LowerPart(s, i, i + 7);
      UpgradeSpelled(s[i..i + 7]);
    }
  }

  lemma LetterIsNoBlank(s: bytes)
    requires Spells(s, "upgrade", "UPGRADE")
    ensures !White(s[0])
  {
  }

  lemma NoneInBlanks(s: bytes, k: nat, i: nat)
    requires k <= |s| && Blanks(s[..k]) && SpellsAt(s, i)
    ensures i >= k
  {
    LetterIsNoBlank(s[i..i + 7]);
    BlankBefore(s, k, i);
  }

  lemma BlankBefore(s: bytes, k: nat, i: nat)
    requires k <= |s| && Blanks(s[..k])
    ensures i < k ==> White(s[i])
  {
    assert i < k ==> White(s[..k][i]);
  }

  /** The token is found wherever it stands behind the blanks in front. */
  lemma UpgradeWithin(value: bytes)
    ensures Contains(Lower(LTrim(value)), Ascii("upgrade")) <==> exists i: nat :: SpellsAt(value, i)
  {
    var k := LTrimDrops(value);
    var s := LTrim(value);
    forall i: nat ensures SpellsAt(s, i) <==> StartsAt(Lower(s), i, Ascii("upgrade")) {
      UpgradeAt(s, i);
    }
    forall i: nat ensures SpellsAt(s, i) <==> SpellsAt(value, i + k) {
      assert i + 7 <= |s| ==> s[i..i + 7] == value[i + k..i + k + 7];
    }
    if exists i: nat :: SpellsAt(value, i) {
      var i: nat :| SpellsAt(value, i);
      NoneInBlanks(value, k, i);
      assert SpellsAt(value, (i - k) + k);
      assert SpellsAt(s, i - k);
    }
  }

  /**
   A `Connection` line asks for an upgrade if and only if some seven octets of its value are
   the letters of `upgrade`, small or capital.
   */
  lemma ConnectionExactly(value: bytes)
    requires NoNul(value)
    ensures LineOf(Ascii("Connection") + [0x3A] + value) == HeaderLine(WantsConnection)
       <==> exists i: nat :: SpellsAt(value, i)
  {
    KnownTags();
    LineParts(Ascii("Connection"), value);
    UpgradeWithin(value);
  }

  /** An `Upgrade` line asks for one if and only if its value is `websocket`, in small or capital letters. */
  lemma UpgradeExactly(before: bytes, value: bytes)
    requires Blanks(before) && NoNul(value) && (value != [] ==> !White(value[0]))
    ensures LineOf(Ascii("Upgrade") + [0x3A] + (before + value)) == HeaderLine(WantsUpgrade)
       <==> Spells(value, "websocket", "WEBSOCKET")
  {
    KnownTags();
    BlanksAreText(before);
    LineParts(Ascii("Upgrade"), before + value);
    LTrimPads(before, value);
    WebSocketSpelled(value);
  }

  // Offers.

  lemma OffersAreText(offers: seq<Offer>)
    requires AreOffers(offers)
    ensures NoNul(OffersText(offers))
  {
    if offers != [] {
      var o := offers[0];
      BlanksAreText(o.before);
      BlanksAreText(o.behind);
      NoNulJoin(o.before, o.name);
      NoNulJoin(o.before + o.name, o.behind);
      OffersAreText(offers[1..]);
      if |offers| > 1 {
        NoNulJoin([COMMA], OffersText(offers[1..]));
        NoNulJoin(OfferText(o), [COMMA] + OffersText(offers[1..]));
      }
    }
  }

  lemma BlanksHaveNoComma(s: bytes)
    requires Blanks(s)
    ensures COMMA !in s
  {
    forall i | 0 <= i < |s| ensures s[i] != COMMA {
      assert White(s[i]);
    }
  }

  lemma OfferHasNoComma(o: Offer)
    requires IsOffer(o)
    ensures COMMA !in OfferText(o) && OfferText(o) != []
  {
    BlanksHaveNoComma(o.before);
    BlanksHaveNoComma(o.behind);
  }

  lemma OneToken(text: bytes)
    requires COMMA !in text && text != []
    ensures Tokens(text) == [text]
  {
    IndexOfNone(text, 0, COMMA);
    assert text[..|text|] == text;
  }

  lemma FirstToken(text: bytes, rest: bytes)
    requires COMMA !in text && text != []
    ensures Tokens(text + [COMMA] + rest) == [text] + Tokens(rest)
  {
    var s := text + [COMMA] + rest;
    IndexBehindTag(text, COMMA, rest, 0);
    assert s[..|text|] == text && s[|text| + 1..] == rest;
  }

  lemma TrimmedFirst(o: Offer, tokens: seq<bytes>)
    requires IsOffer(o)
    ensures Trimmed([OfferText(o)] + tokens) == [o.name] + Trimmed(tokens)
  {
    PaddedIsTrimmed(o.before, o.name, o.behind);
    assert ([OfferText(o)] + tokens)[1..] == tokens;
  }

  /** The tokens between the commas are the names, without their blanks. */
  lemma {:induction false} OffersAreRead(offers: seq<Offer>)
    requires AreOffers(offers)
    ensures Trimmed(Tokens(OffersText(offers))) == OfferNames(offers)
  {
    if offers != [] {
      var o, more := offers[0], offers[1..];
      OfferHasNoComma(o);
      OffersAreRead(more);
      if more == [] {
        OneToken(OfferText(o));
        TrimmedFirst(o, []);
      } else {
        Regroup(OfferText(o), [COMMA], OffersText(more));
        FirstToken(OfferText(o), OffersText(more));
        TrimmedFirst(o, Tokens(OffersText(more)));
      }
    }
  }

  /** Commas one behind the other make no offers, and nothing but blanks between two makes an empty one. */
  lemma CommasAlone(blanks: bytes, rest: bytes)
    requires Blanks(blanks)
    ensures Trimmed(Tokens([0x2C] + rest)) == Trimmed(Tokens(rest))
    ensures blanks != [] ==> Trimmed(Tokens(blanks + [0x2C] + rest)) == [[]] + Trimmed(Tokens(rest))
  {
    var s := [0x2C] + rest;
    assert s[0] == COMMA && s[1..] == rest && [] + Tokens(rest) == Tokens(rest);
    assert Tokens(s) == Tokens(rest);
    BlanksHaveNoComma(blanks);
    if blanks != [] {
      FirstToken(blanks, rest);
      PaddedIsTrimmed(blanks, [], []);
      assert blanks + [] + [] == blanks;
      assert ([blanks] + Tokens(rest))[1..] == Tokens(rest);
    }
  }

  /** The blanks in front of the first offer are gone before the tokens are looked at. */
  function WithoutFront(offers: seq<Offer>): seq<Offer> {
    if offers == [] then [] else [offers[0].(before := [])] + offers[1..]
  }

  lemma OffersTrimmed(offers: seq<Offer>)
    requires AreOffers(offers)
    ensures LTrim(OffersText(offers)) == OffersText(WithoutFront(offers))
    ensures AreOffers(WithoutFront(offers)) && OfferNames(WithoutFront(offers)) == OfferNames(offers)
  {
    if offers != [] {
      var o, w := offers[0], WithoutFront(offers);
      var more := if |offers| == 1 then [] else [COMMA] + OffersText(offers[1..]);
      assert w[1..] == offers[1..];
      MoveFront(o.before, o.name, o.behind, more);
      LTrimPads(o.before, o.name + o.behind + more);
    }
  }

  lemma MoveFront(a: bytes, b: bytes, c: bytes, d: bytes)
    ensures (a + b + c) + d == a + (b + c + d)
    ensures ([] + b + c) + d == b + c + d
  {
    assert [] + b == b;
    Regroup(a, b, c);
    Regroup(a, b + c, d);
  }

  // Headers.

  lemma HeaderIsText(h: Header)
    requires IsHeader(h)
    ensures IsTag(TagOf(h)) && NoNul(ValueOf(h))
  {
    KnownTags();
    match h
    case KeyHeader(before, key, behind) =>
      PaddedIsText(before, key);
      BlanksAreText(behind);
      NoNulJoin(before + key, behind);
    case VersionHeader(before, version) => PaddedIsText(before, version);
    case UpgradeHeader(before, word) =>
      WordIsText(word, "websocket", "WEBSOCKET");
      PaddedIsText(before, word);
    case ConnectionHeader(before, word, behind) =>
      WordIsText(word, "upgrade", "UPGRADE");
      NoNulJoin(before, word);
      NoNulJoin(before + word, behind);
    case ProtocolHeader(offers) => OffersAreText(offers);
    case OtherHeader(_, before, value) => PaddedIsText(before, value);
  }

  lemma PaddedIsText(before: bytes, s: bytes)
    requires Blanks(before) && NoNul(s)
    ensures NoNul(before + s)
  {
    BlanksAreText(before);
    NoNulJoin(before, s);
  }

  lemma WordIsText(s: bytes, small: string, capital: string)
    requires Spells(s, small, capital)
    requires forall i :: 0 <= i < |small| ==> 'a' <= small[i] && 'A' <= capital[i]
    ensures NoNul(s)
  {
    forall i | 0 <= i < |s| ensures s[i] != 0 {
      assert 'a' <= small[i] && 'A' <= capital[i];
    }
  }

  lemma TagsDiffer()
    ensures Ascii("Sec-WebSocket-Version") != Ascii("Sec-WebSocket-Key")
    ensures |Ascii("Upgrade")| == 7 && |Ascii("Connection")| == 10 && |Ascii("Sec-WebSocket-Key")| == 17
    ensures |Ascii("Sec-WebSocket-Version")| == 21 && |Ascii("Sec-WebSocket-Protocol")| == 22
  {
  }

  /** Every line a client may write is read as what it means. */
  lemma HeaderIsRead(h: Header)
    requires IsHeader(h)
    ensures LineOf(HeaderText(h)) == HeaderLine(MeaningOf(h))
  {
    HeaderIsText(h);
    LineParts(TagOf(h), ValueOf(h));
    TagsDiffer();
    match h
    case KeyHeader(before, key, behind) => PaddedIsTrimmed(before, key, behind);
    case VersionHeader(before, version) => LTrimPads(before, version);
    case UpgradeHeader(before, word) =>
      LTrimPads(before, word);
      WebSocketSpelled(word);
    case ConnectionHeader(before, word, behind) =>
      assert ValueOf(h)[|before|..|before| + 7] == word;
      assert SpellsAt(ValueOf(h), |before|);
      UpgradeWithin(ValueOf(h));
    case ProtocolHeader(offers) =>
      OffersTrimmed(offers);
      OffersAreRead(WithoutFront(offers));
    case OtherHeader(tag, before, value) =>
      LTrimPads(before, value);
      WebSocketSpelled(value);
      NowhereWithin(value);
      SmallLettersAre(value);
  }

  lemma NowhereWithin(value: bytes)
    requires value != [] ==> !White(value[0])
    ensures NowhereSpelled(value) ==> !Contains(Lower(value), Ascii("upgrade"))
  {
    LTrimPads([], value);
    assert [] + value == value;
    UpgradeWithin(value);
  }

  lemma SmallLettersAre(s: bytes)
    ensures SmallLetters(s) == Lower(s)
  {
  }

  // The request line.

  /** Neither blank nor NUL. */
  predicate IsPath(s: bytes) {
    forall i :: 0 <= i < |s| ==> s[i] != 0 && !White(s[i])
  }

  predicate EndsPath(b: byte) {
    b == 0 || White(b)
  }

  function RequestText(path: bytes, gap: byte, rest: bytes): bytes {
    Ascii("GET ") + path + [gap] + Ascii("HTTP/") + rest
  }

  lemma {:induction false} PathEndIs(s: bytes, i: nat, j: nat)
    requires i <= j < |s| && IsPath(s[i..j]) && EndsPath(s[j])
    ensures PathEnd(s, i) == j
    decreases j - i
  {
    if i < j {
      assert s[i..j][0] == s[i];
      assert s[i..j][1..] == s[i + 1..j];
      PathEndIs(s, i + 1, j);
    }
  }

  lemma {:induction false} PathEndStops(s: bytes, i: nat)
    requires i <= |s|
    ensures var j := PathEnd(s, i); IsPath(s[i..j]) && (j < |s| ==> EndsPath(s[j]))
    decreases |s| - i
  {
    if i < |s| && s[i] != 0 && !IsSpace(s[i]) {
      PathEndStops(s, i + 1);
      assert s[i..PathEnd(s, i)] == [s[i]] + s[i + 1..PathEnd(s, i)];
    }
  }

  /** A request line is accepted, and its path is taken. */
  lemma RequestIsRead(path: bytes, gap: byte, rest: bytes)
    requires IsPath(path) && EndsPath(gap)
    ensures var line := RequestText(path, gap, rest); IsRequest(line) && PathOf(line) == path
  {
    var line, n := RequestText(path, gap, rest), 4 + |path|;
    var head, tail := Ascii("GET ") + path, Ascii("HTTP/") + rest;
    assert line == head + [gap] + tail;
    assert line[0..4] == Ascii("GET ") && line[4..n] == path && line[n] == gap;
    assert line[n + 1..n + 6] == Ascii("HTTP/");
    PathEndIs(line, 4, n);
  }

  /** No other line is. */
  lemma OnlyRequestsAreRead(line: bytes) returns (path: bytes, gap: byte, rest: bytes)
    requires IsRequest(line)
    ensures IsPath(path) && EndsPath(gap) && line == RequestText(path, gap, rest)
  {
    var n := PathEnd(line, 4);
    PathEndStops(line, 4);
    path, gap, rest := line[4..n], line[n], line[n + 6..];
    assert line == line[0..4] + line[4..n] + [line[n]] + line[n + 1..n + 6] + line[n + 6..];
  }

  // The whole request.

  function Lines(hs: seq<Header>): (lines: seq<bytes>)
    ensures |lines| == |hs|
  {
    if hs == [] then [] else Lines(hs[..|hs| - 1]) + [HeaderText(hs[|hs| - 1])]
  }

  predicate AreHeaders(hs: seq<Header>) {
    forall h :: h in hs ==> IsHeader(h)
  }

  /** The key on the last key line. */
  function KeyIn(hs: seq<Header>): Option<bytes> {
    if hs == [] then None
    else
      match hs[|hs| - 1]
      case KeyHeader(_, key, _) => Some(key)
      case _ => KeyIn(hs[..|hs| - 1])
  }

  /** The version on the last version line. */
  function VersionIn(hs: seq<Header>): Option<bytes> {
    if hs == [] then None
    else
      match hs[|hs| - 1]
      case VersionHeader(_, version) => Some(version)
      case _ => VersionIn(hs[..|hs| - 1])
  }

  /** All offers, in order. */
  function OffersIn(hs: seq<Header>): seq<bytes> {
    if hs == [] then []
    else
      OffersIn(hs[..|hs| - 1]) +
      match hs[|hs| - 1]
      case ProtocolHeader(offers) => OfferNames(offers)
      case _ => []
  }

  /** All headers that are not about the upgrade, in order. */
  function OthersIn(hs: seq<Header>): seq<HttpHeader> {
    if hs == [] then []
    else
      OthersIn(hs[..|hs| - 1]) +
      match hs[|hs| - 1]
      case OtherHeader(tag, _, value) => [StoredAs(tag, value)]
      case _ => []
  }

  function VersionNumber(e: Env, hs: seq<Header>): nat {
    match VersionIn(hs)
    case None => 0
    case Some(text) => ParsedVersion(e, text)
  }

  /** The first ten. */
  function FirstTen(headers: seq<HttpHeader>): seq<HttpHeader> {
    if |headers| <= 10 then headers else headers[..10]
  }

  predicate HasUpgrade(hs: seq<Header>) {
    exists h :: h in hs && h.UpgradeHeader?
  }

  predicate HasConnection(hs: seq<Header>) {
    exists h :: h in hs && h.ConnectionHeader?
  }

  function FactsIn(e: Env, hs: seq<Header>): Facts {
    Facts(KeyIn(hs), HasUpgrade(hs), HasConnection(hs), VersionNumber(e, hs), Distinct(OffersIn(hs)),
          FirstTen(OthersIn(hs)))
  }

  /** A connection in state http with this path and these facts. */
  function Told(c: Conn, path: bytes, f: Facts): Conn {
    c.(state := Http, path := Some(path), key := f.key, upgrade := f.upgrade, connection := f.connection,
       version := f.version, offers := f.offers, headers := f.headers)
  }

  /** One more field. */
  function Added(e: Env, f: Facts, m: Field): Facts {
    match m
    case Version(text) => f.(version := ParsedVersion(e, text))
    case TheKey(key) => f.(key := Some(key))
    case WantsUpgrade => f.(upgrade := true)
    case WantsConnection => f.(connection := true)
    case Offers(offers) => f.(offers := AddOffers(f.offers, offers))
    case Stored(header) => f.(headers := FirstTen(f.headers + [header]))
  }

  lemma LastHeader(hs: seq<Header>)
    requires hs != []
    ensures var front, last := hs[..|hs| - 1], hs[|hs| - 1];
            && (HasUpgrade(hs) <==> HasUpgrade(front) || last.UpgradeHeader?)
            && (HasConnection(hs) <==> HasConnection(front) || last.ConnectionHeader?)
            && (AreHeaders(hs) ==> AreHeaders(front) && IsHeader(last))
  {
    assert hs == hs[..|hs| - 1] + [hs[|hs| - 1]];
  }

  lemma FirstTenMore(headers: seq<HttpHeader>, more: seq<HttpHeader>)
    requires |more| <= 1
    ensures FirstTen(headers + more) == FirstTen(FirstTen(headers) + more)
    ensures FirstTen(headers + []) == FirstTen(headers)
  {
    assert headers + [] == headers;
  }

  lemma OffersMore(hs: seq<Header>)
    requires hs != []
    ensures var front, last := hs[..|hs| - 1], hs[|hs| - 1];
            Distinct(OffersIn(hs)) ==
              if last.ProtocolHeader? then AddOffers(Distinct(OffersIn(front)), OfferNames(last.offers))
              else Distinct(OffersIn(front))
  {
    var front, last := hs[..|hs| - 1], hs[|hs| - 1];
    if last.ProtocolHeader? {
      DistinctMore(OffersIn(front), OfferNames(last.offers));
    } else {
      assert OffersIn(front) + [] == OffersIn(front);
    }
  }

  lemma OthersMore(hs: seq<Header>)
    requires hs != []
    ensures var front, last := hs[..|hs| - 1], hs[|hs| - 1];
            FirstTen(OthersIn(hs)) ==
              if last.OtherHeader? then FirstTen(FirstTen(OthersIn(front)) + [StoredAs(last.tag, last.value)])
              else FirstTen(OthersIn(front))
  {
    var front, last := hs[..|hs| - 1], hs[|hs| - 1];
    FirstTenMore(OthersIn(front), if last.OtherHeader? then [StoredAs(last.tag, last.value)] else []);
  }

  lemma FactsMore(e: Env, hs: seq<Header>)
    requires hs != []
    ensures FactsIn(e, hs) == Added(e, FactsIn(e, hs[..|hs| - 1]), MeaningOf(hs[|hs| - 1]))
  {
    LastHeader(hs);
    OffersMore(hs);
    OthersMore(hs);
    LastKeyAndVersion(e, hs);
    FactsAdd(e, FactsIn(e, hs[..|hs| - 1]), FactsIn(e, hs), hs[|hs| - 1]);
  }

  lemma LastKeyAndVersion(e: Env, hs: seq<Header>)
    requires hs != []
    ensures var front, last := hs[..|hs| - 1], hs[|hs| - 1];
            && KeyIn(hs) == (if last.KeyHeader? then Some(last.key) else KeyIn(front))
            && VersionNumber(e, hs)
               == if last.VersionHeader? then ParsedVersion(e, last.version) else VersionNumber(e, front)
  {
  }

  lemma FactsAdd(e: Env, f: Facts, g: Facts, h: Header)
    requires g.key == (if h.KeyHeader? then Some(h.key) else f.key)
    requires g.version == (if h.VersionHeader? then ParsedVersion(e, h.version) else f.version)
    requires (g.upgrade <==> f.upgrade || h.UpgradeHeader?) && (g.connection <==> f.connection || h.ConnectionHeader?)
    requires g.offers == (if h.ProtocolHeader? then AddOffers(f.offers, OfferNames(h.offers)) else f.offers)
    requires g.headers == if h.OtherHeader? then FirstTen(f.headers + [StoredAs(h.tag, h.value)]) else f.headers
    ensures g == Added(e, f, MeaningOf(h))
  {
  }

  lemma NoteAdds(e: Env, c: Conn, path: bytes, f: Facts, m: Field)
    requires |f.headers| <= 10
    ensures Note(e, Told(c, path, f), m) == Told(c, path, Added(e, f, m))
  {
  }

  lemma LinesFirst(line: bytes, lines: seq<bytes>)
    requires lines != []
    ensures var n := |lines| - 1;
            && [line] + lines != []
            && ([line] + lines)[..n + 1] == [line] + lines[..n] && ([line] + lines)[n + 1] == lines[n]
  {
  }

  lemma LinesLast(hs: seq<Header>)
    requires hs != []
    ensures var n := |hs| - 1; Lines(hs)[..n] == Lines(hs[..n]) && Lines(hs)[n] == HeaderText(hs[n])
  {
  }

  lemma RequestFirst(e: Env, c: Conn, path: bytes, gap: byte, rest: bytes)
    requires Fresh(c) && IsPath(path) && EndsPath(gap)
    ensures HandleLines(e, c, [RequestText(path, gap, rest)]) == Told(c, path, FactsIn(e, []))
  {
    var first := RequestText(path, gap, rest);
    RequestIsRead(path, gap, rest);
    assert [first][..0] == [] && HandleLines(e, c, []) == c;
  }

  lemma FieldTells(e: Env, c: Conn, line: bytes, m: Field)
    requires c.state.Http? && LineOf(line) == HeaderLine(m)
    ensures Handle(e, c, line) == Note(e, c, m)
  {
  }

  /** The lines of a request are taken down as what they mean. */
  lemma {:induction false} RequestIsTold(e: Env, c: Conn, path: bytes, gap: byte, rest: bytes, hs: seq<Header>)
    requires Fresh(c) && IsPath(path) && EndsPath(gap) && AreHeaders(hs)
    ensures HandleLines(e, c, [RequestText(path, gap, rest)] + Lines(hs)) == Told(c, path, FactsIn(e, hs))
    decreases |hs|
  {
    var first := RequestText(path, gap, rest);
    if hs == [] {
      RequestFirst(e, c, path, gap, rest);
      assert [first] + Lines(hs) == [first];
    } else {
      var front, last, lines := hs[..|hs| - 1], hs[|hs| - 1], [first] + Lines(hs);
      LastHeader(hs);
      RequestIsTold(e, c, path, gap, rest, front);
      LinesLast(hs);
      LinesFirst(first, Lines(hs));
      HeaderIsRead(last);
      LastLineHandled(e, c, lines, Told(c, path, FactsIn(e, front)), HeaderText(last), MeaningOf(last));
      NoteAdds(e, c, path, FactsIn(e, front), MeaningOf(last));
      FactsMore(e, hs);
    }
  }

  lemma LastLineHandled(e: Env, c: Conn, lines: seq<bytes>, d: Conn, line: bytes, m: Field)
    requires lines != [] && HandleLines(e, c, lines[..|lines| - 1]) == d && lines[|lines| - 1] == line
    requires d.state.Http? && LineOf(line) == HeaderLine(m)
    ensures HandleLines(e, c, lines) == Note(e, d, m)
  {
    FieldTells(e, d, line, m);
  }

  // Other lines.

  lemma {:induction false} CTextEnds(s: bytes, more: bytes)
    requires NoNul(s)
    ensures CText(s + [0] + more) == s
  {
    var t := s + [0] + more;
    if s == [] {
      assert t[0] == 0;
    } else {
      assert t[0] == s[0] && t[1..] == s[1..] + [0] + more;
      CTextEnds(s[1..], more);
      assert [s[0]] + s[1..] == s;
    }
  }

  /** A line ends at its first NUL. */
  lemma LineEndsAtNul(line: bytes, more: bytes)
    requires NoNul(line)
    ensures LineOf(line + [0] + more) == LineOf(line)
  {
    CTextEnds(line, more);
    CTextWhole(line);
  }

  /** What an empty line is, a line that starts with a blank, and one without a colon. */
  lemma OtherLines(line: bytes)
    requires NoNul(line)
    ensures LineOf(line).Empty? <==> line == []
    ensures LineOf(line).Folded? <==> line != [] && White(line[0])
    ensures LineOf(line).Malformed? <==> line != [] && !White(line[0]) && 0x3A !in line
  {
    CTextWhole(line);
    if 0x3A !in line {
      IndexOfNone(line, 0, COLON);
    } else {
      ColonFound(line, 0);
    }
  }

  lemma {:induction false} ColonFound(s: bytes, i: nat)
    requires i <= |s| && 0x3A in s[i..]
    ensures IndexOf(s, i, COLON) < |s|
    decreases |s| - i
  {
    if s[i] != COLON {
      assert s[i..] == [s[i]] + s[i + 1..];
      ColonFound(s, i + 1);
    }
  }

  // The answer.

  /** The subprotocol is announced if one of those offered was chosen. */
  function AnnouncementText(offers: seq<bytes>, chosen: nat): bytes {
    if chosen < |offers| then Ascii("Sec-WebSocket-Protocol: ") + offers[chosen] + Ascii("\r\n") else []
  }

  /** The octets of a response that accepts. */
  function ResponseText(accept: bytes, offers: seq<bytes>, chosen: nat): bytes {
    Ascii("HTTP/1.1 101 Upgrading\r\n") + Ascii("Upgrade: websocket\r\n") + Ascii("Connection: Upgrade\r\n")
    + Ascii("Sec-WebSocket-Accept: ") + accept + Ascii("\r\n")
    + AnnouncementText(offers, chosen) + Ascii("\r\n")
  }

  /** The octets of one that refuses. */
  function RefusalText(reason: string): bytes {
    Ascii("HTTP/1.1 ") + Ascii(reason) + Ascii("\r\n\r\n")
  }

  lemma AnnouncementOctets(offers: seq<bytes>, chosen: nat)
    ensures Concat(Announcement(offers, chosen)) == AnnouncementText(offers, chosen)
  {
    if chosen < |offers| {
      ThreeParts(Ascii("Sec-WebSocket-Protocol: "), offers[chosen], Ascii("\r\n"));
    }
  }

  lemma OnePart(a: bytes)
    ensures Concat([a]) == a
  {
    ConcatOne(a, []);
    assert [a] + [] == [a] && a + [] == a;
  }

  lemma ThreeParts(a: bytes, b: bytes, c: bytes)
    ensures Concat([a, b, c]) == a + b + c
  {
    assert [a, b, c] == [a] + ([b] + [c]);
    ConcatAppend([a], [b] + [c]);
    ConcatAppend([b], [c]);
    OnePart(a);
    OnePart(b);
    OnePart(c);
    Regroup(a, b, c);
  }

  lemma FiveParts(a: bytes, b: bytes, c: bytes, d: bytes, e: bytes)
    ensures Concat([a, b, c, d, e]) == a + b + c + d + e
  {
    assert [a, b, c, d, e] == [a, b, c] + ([d] + [e]);
    ConcatAppend([a, b, c], [d] + [e]);
    ThreeParts(a, b, c);
    ConcatAppend([d], [e]);
    OnePart(d);
    OnePart(e);
    Regroup(a + b + c, d, e);
  }

  lemma ResponseOctets(e: Env, key: bytes, offers: seq<bytes>, chosen: nat)
    ensures Concat(Response(e, key, offers, chosen)) == ResponseText(e.accept(key), offers, chosen)
  {
    var a, b := Ascii("HTTP/1.1 101 Upgrading\r\n"), Ascii("Upgrade: websocket\r\n");
    var c := Ascii("Connection: Upgrade\r\n");
    var d, x, y := Ascii("Sec-WebSocket-Accept: "), e.accept(key), Ascii("\r\n");
    var front, more := [a, b, c, d, x + y], Announcement(offers, chosen);
    ConcatAppend(front + more, [y]);
    ConcatAppend(front, more);
    FiveParts(a, b, c, d, x + y);
    Regroup(a + b + c + d, x, y);
    AnnouncementOctets(offers, chosen);
    OnePart(y);
  }

  /** TCP and UDP peers need an address and a port, those on local sockets an address; other ones cannot be reached. */
  predicate HasAddress(p: PeerInfo) {
    match p.transport
    case TcpClient => p.host.Some? && p.port.Some?
    case UdpClient => p.host.Some? && p.port.Some?
    case UnixStream => p.host.Some?
    case UnixDgram => p.host.Some?
    case _ => false
  }

  /** What an empty line does to a connection that was told all this, while sends succeed. */
  lemma EmptyLineAnswers(e: Env, d: Conn)
    requires Settled(d) && d.state.Http? && Reliable(e, d.net)
    ensures var r, p := HandleHttp(e, d, []), PeerFor(e, d.path, d.offers, d.headers);
            var complete := d.key.Some? && d.upgrade && d.connection;
            && r.net.peer == d.net.peer
            && if d.version != 13 then
                 r.state.Closed? && r.net.client == d.net.client + RefusalText("426 Unsupported protocol version")
               else if !complete then r == d
               else if HasAddress(p) && Connected(e, d.net.calls) >= 0 then
                 && r.state.Open? && r.peer == p && r.peerFd == Connected(e, d.net.calls)
                 && r.net.client == d.net.client + ResponseText(e.accept(d.key.value), d.offers, p.protocol)
               else r.state.Closed? && r.net.client == d.net.client + RefusalText("500 Peer connection failed")
  {
    if d.version != 13 {
      RefusalIsSent(e, d.wsFd, d.net, "426 Unsupported protocol version");
    } else if d.key.Some? && d.upgrade && d.connection {
      var x := ClientConnect(e, d);
      if Connects(e, d) {
        SendAllText(e, x.wsFd, x.net, Answer(e, d));
        ResponseOctets(e, d.key.value, d.offers, x.peer.protocol);
      } else {
        RefusalIsSent(e, x.wsFd, x.net, "500 Peer connection failed");
      }
    }
  }

  /** A line that cannot be read is refused, and the connection closes. */
  lemma BadLineIsRefused(e: Env, d: Conn, line: bytes)
    requires Settled(d) && d.state.Http? && Reliable(e, d.net) && NoNul(line) && line != []
    requires White(line[0]) || 0x3A !in line
    ensures var r := HandleHttp(e, d, line);
            && r.state.Closed? && r.net.peer == d.net.peer
            && r.net.client
               == d.net.client + RefusalText(if White(line[0]) then "500 Header folding" else "500 Header format")
  {
    OtherLines(line);
    RefusalIsSent(e, d.wsFd, d.net, if White(line[0]) then "500 Header folding" else "500 Header format");
  }

  lemma RefusalIsSent(e: Env, fd: int, net: Net, reason: string)
    requires fd >= 0 && Reliable(e, net)
    ensures var n := Farewell(e, Http, fd, net, HttpError, Some(Ascii(reason)));
            n.client == net.client + RefusalText(reason) && n.peer == net.peer
  {
    var a, b, c := Ascii("HTTP/1.1 "), Ascii(reason), Ascii("\r\n\r\n");
    SendsWhole(e, fd, net, a);
    var n := SendClient(e, fd, net, a).net;
    SendsWhole(e, fd, n, b);
    SendsWhole(e, fd, SendClient(e, fd, n, b).net, c);
    Regroup(net.client, a, b);
    Regroup(net.client, a + b, c);
  }

  lemma SendsWhole(e: Env, fd: int, net: Net, text: bytes)
    requires fd >= 0 && Reliable(e, net)
    ensures SendClient(e, fd, net, text) == Sending(Net(net.client + text, net.peer, net.calls + 1), false)
    ensures Reliable(e, SendClient(e, fd, net, text).net)
  {
    assert text[..|text|] == text;
  }

  lemma EmptyLineLast(e: Env, c: Conn, lines: seq<bytes>, d: Conn)
    requires HandleLines(e, c, lines) == d && d.state.Http?
    ensures HandleLines(e, c, lines + [[]]) == HandleHttp(e, d, [])
  {
    assert (lines + [[]])[..|lines|] == lines;
  }

  /**
   A request as a client may write it, with its lines in any order and among any others, and
   the answer to it, octet by octet: 101 with the accept key of the last key and the chosen
   subprotocol if it has a key, asks for the upgrade on both lines, states version 13 and the
   backend's peer for its path, offers and first ten other headers can be connected; 426
   without the version, 500 without the peer, and nothing at all where something else is missing.
   */
  lemma RequestIsAnswered(e: Env, c: Conn, path: bytes, gap: byte, rest: bytes, hs: seq<Header>)
    requires Fresh(c) && IsPath(path) && EndsPath(gap) && AreHeaders(hs) && Reliable(e, c.net)
    ensures var r := HandleLines(e, c, [RequestText(path, gap, rest)] + Lines(hs) + [[]]);
            var offers, headers := Distinct(OffersIn(hs)), FirstTen(OthersIn(hs));
            var p := PeerFor(e, Some(path), offers, headers);
            && r.net.peer == c.net.peer
            && if VersionNumber(e, hs) != 13 then
                 r.state.Closed? && r.net.client == c.net.client + RefusalText("426 Unsupported protocol version")
               else if KeyIn(hs).None? || !HasUpgrade(hs) || !HasConnection(hs) then
                 r.state.Http? && r.net == c.net
               else if HasAddress(p) && Connected(e, c.net.calls) >= 0 then
                 && r.state.Open? && r.peer == p && r.peerFd == Connected(e, c.net.calls)
                 && r.net.client == c.net.client + ResponseText(e.accept(KeyIn(hs).value), offers, p.protocol)
               else r.state.Closed? && r.net.client == c.net.client + RefusalText("500 Peer connection failed")
  {
    var lines, d := [RequestText(path, gap, rest)] + Lines(hs), Told(c, path, FactsIn(e, hs));
    RequestIsTold(e, c, path, gap, rest, hs);
    EmptyLineLast(e, c, lines, d);
    EmptyLineAnswers(e, d);
  }
}
