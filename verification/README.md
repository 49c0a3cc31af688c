# websocksy: a model with proofs

websocksy accepts WebSocket clients and connects each of them to an ordinary socket, the
*peer*.  This project models its logic in Dafny and proves what it does, for every input,
every way in which the network cuts the two byte streams into reads, and every failure of a
send.  `dafny verify dfyconfig.toml` checks all of it.

## How the model is organised

Handlers exist twice.  `WebSocket.dfy` holds the connection record as the program keeps it: a
class with two fixed buffers that are filled, unmasked and shifted in place.  Each of its
methods is proved to do what a function on connection *values* (`Connection.dfy`,
`Inbound.dfy`, `PeerStream.dfy`, `PeerRuns.dfy`, `Handshake.dfy`) does to the value of the
record; the theorems are about these functions.  The framing functions, the JSON scanner, the
template expansion and the unescaping are methods with the source's loops in the same way,
each beside the function it computes.

The world outside is a record of oracles, `Connection.Env`: which send breaks off after how
many bytes (a send on a closed descriptor always does), what the discovery backend answers,
which descriptor a connection attempt yields, what `strtoul` makes of a version and what the
accept key of a key is.  What went out on the sockets is a log.  A read may bring any number of
bytes from one up to the room left in the buffer.

What the formats are is stated apart from the functions that read and write them: bits of an
exclusive or, the octets of a frame, a length field in either byte order, JSON by its grammar,
header lines and responses letter by letter.  The readers and writers are proved to agree with
these descriptions on all inputs.

| file | content |
|---|---|
| `Bytes`, `Memory` | octets, byte order, C strings, `memmove`, `strncmp`, `strchr`, `strdup` |
| `Cutting` | cutting a stream into items in one pass or in pieces; printers and their inverse |
| `Frames`, `FrameHeader` | the frame format of section 5 of RFC 6455, in both directions |
| `Connection` | the connection as a value, sending, closing |
| `Inbound` | client to peer: the frame loop against a one-pass decoder |
| `PeerStream`, `PeerRuns` | peer to client: the reassembly loop for any framing function, runs of reads |
| `Losses` | what a failed send towards the client costs |
| `Segments`, `Messages`, `MessageRuns` | framing functions that split the stream, or recognise messages; runs that bring several of these |
| `Stalls` | reads that end with their bytes unexamined, for framing functions that look at the bytes alone |
| `FixedLength`, `Dynamic32`, `Separators`, `Utf8`, `JsonFraming` | the concrete framing functions |
| `LengthPrefixes` | streams of segments with their length fields written out |
| `JsonScan`, `JsonScanner` | the JSON scanner as a function and as loops |
| `JsonTree`, `JsonPlaces`, `JsonComplete`, `JsonPrefix`, `JsonStable`, `JsonLocal`, `JsonLimits`, `JsonQuotes` | documents as trees; whole ones, cut ones, more and fewer data, strings that end with a backslash |
| `JsonGrammar` | the grammar of RFC 8259 in characters, and its texts as trees |
| `JsonRuns`, `JsonStalls` | runs that bring several documents; reads that end with their bytes unexamined |
| `Unescape` | the separator's configuration string, in place |
| `Template`, `TemplateBuffer`, `Cookies`, `Placeholders` | path templates of the file backend, in place; what is found in a cookie header; templates by their variables |
| `Handshake`, `HeaderLines`, `PeerAddress`, `Upgrades` | header lines and peer addresses and the scans through them, upgrade, choice of a subprotocol |
| `Requests` | upgrade requests in characters, and the octets that answer them |
| `Runs`, `Stories`, `Bridge` | whole runs: invariants, how open came about, both directions at once |
| `WebSocket` | the connection record and its handlers |

## What the code does differently from what one would expect

Each of these is in the model as it is in the code, with a lemma that shows it.

* A framing function that keeps answering negatively keeps the peer handler in its loop.
  `separator` does so if and only if its configuration string has a hexadecimal escape that is
  cut short, like `\x4`, and no separator is stored (`Separators.SeparatedEnds`,
  `Separators.CutShortNeverEnds`); no other framing function does (`Runs.ShippedPeersAreProper`).
* Segments that come to exactly the bytes left from earlier reads end the loop with the new
  bytes unexamined (`Stalls.EarlyExactly`, `Stalls.StoppedRead`).  Under `json` this happens if
  and only if the bytes left are complete values, the last of which may be a number that the
  first new byte ends (`JsonStalls.ResidueDecides`).  In bytes that have waited there is no
  complete value, so that over a run from an empty buffer it happens first where they are a
  number that ends in `.`, `e`, `E`, `+` or `-`, behind blanks, and a comma, a space or a closing
  bracket follows (`JsonStalls.FirstStopsAtNumber`): `1e` and then ` [2]` leaves the whole array
  in the buffer (`JsonStalls.CompleteArrayWaits`).  From then on the connection stays one read
  behind, whichever documents come, one to a read (`JsonStalls.LagsBehind`).  Under `dynamic32`
  it happens if and only if the 32-bit sums come to the bytes left
  (`DynamicLength.ResidueDecides`); first that takes a sum that wraps around or ends in front of
  its field (`DynamicLength.WaitedNeedsWrap`), later it does not (`DynamicLength.SegmentLags`).
  The other functions never do it.
* After a send to the client failed, the connection stays open behind a part of a frame, and
  what is left of the newest read is forgotten.  This is the only way in which bytes of the
  peer's stream get lost on an open connection, and it happens exactly if a send of the run
  breaks off (`Losses.ReadLoses`, `Losses.RunLossIsFailure`, `Losses.BehindFailure`).
* The terminator behind the peer's data is not moved with them.  With `json`, a read that
  brings whole documents and a part of another one closes the connection if and only if what
  the last cut left behind the part begins with the closing bytes that the part lacks
  (`JsonFraming.DocumentsThenPart`, `JsonFraming.TextsDecide`).  `[1][1` closes
  (`JsonFraming.StaleBracketCloses`), `[1][` waits.
* Data that end right behind a comma between entries are no incomplete document but an error,
  and are dumped (`JsonPrefix.DocumentCut`, `JsonFraming.DocumentInReads`).
* A string that ends with a backslash, which JSON writes as two, keeps its document from being
  found, and nothing else keeps a scannable one from it (`JsonQuotes.DocumentExact`,
  `JsonLimits.TrailingBackslashMissed`).
* `separator` looks at the newest read only: it is right about a read exactly if no separator
  straddles its start (`Separators.ReadExact`), and about a run exactly if none straddles two
  reads (`Separators.RunExact`).
* `\x` escapes are read from their second digit on; they give the documented byte exactly in
  the cases of `Unescape.HexEscapeExact`.
* Under `newline` a frame is text also when only an earlier frame of the same read was UTF-8
  (`Separators.MarkedMeans`, `Separators.SecondLineMismarked`).  The UTF-8 test lets overlong
  forms and surrogates pass (`Utf8.PassesExactlyText`, `Utf8.OverlongPasses`).
* `dynamic32` adds in 32 bits (`DynamicLength.WrapExact`, `DynamicLength.WrappedLengthTaken`).
* A cookie that is empty and last in its header counts as missing; any other is found by the
  first cookie of its name (`Cookies.CookieIsFound`).
* The address of a peer is split at its first colon, so that one with an IPv6 host does not
  come through (`PeerAddress.AddressRoundTrip`).
* With the peer's buffer full to its last byte the next `recv` gets no room, returns 0 and closes
  the connection as if the peer had (`PeerRuns.FullBufferCloses`).
* The repository's README.md (lines 138-139) says that without a configured `protocol` the
  default backend fails clients that offer one.  The code announces none and fails nobody
  (`Upgrades.DefaultAnnounces`); the model follows the code.
* A request line that is refused changes nothing, and so does an empty line behind a request
  that is incomplete but has stated version 13; without version 13 an empty line closes with
  426, even when nothing else has been said (`Upgrades.RefusedChangesNothing`,
  `Upgrades.EmptyLineExact`).  The handlers' return values are not looked at
  (websocket.c:474-479).

## Model

| member | source | states |
|---|---|---|
| Bytes.XorExactly | websocket.c:365 | the exclusive or of two octets is the one octet whose eight bits are those that exactly one of the two has |
| Frames.MaskExactly | websocket.c:362-367 | section 5.3 of RFC 6455: masked octets are exactly those that have, at each place, the bits in which the payload octet and the key octet at that place modulo 4 differ |
| Frames.ClientRoundTrip | websocket.c:308-367 | a frame with a header of section 5.2, in any of the three length forms, a key and octets masked in this sense parses to its opcode and its payload and takes exactly its own size, whatever follows it |
| Frames.UnmaskedIsFound | websocket.c:356-360 | a frame without a mask, in any length form, is recognised as such |
| Frames.HeaderOctets | websocket.c:308-348 | a header is its first octet, mask bit and length code, and the extended length as two or eight octets, most significant first |
| Frames.ParseStable | websocket.c:308-354 | what the parser decided about the bytes in the buffer stays decided when more bytes arrive |
| Frames.LegalNeverWraps | websocket.c:351-354 | with the top bit of a 64-bit length at 0 the size never wraps around, and a frame is incomplete exactly while fewer bytes are there than it announces |
| Frames.HeaderIsMinimal | websocket.c:421-435 | no other legal encoding of a payload length is shorter than the one sent |
| Frames.ServerOctets | websocket.c:414-443 | a sent frame is the octet 128 plus opcode, the length in one, three or nine octets, most significant first, and the payload as it is |
| Frames.FinIsSent | websocket.c:422 | its first octet has FIN set, the three extension bits clear and the opcode below; its second has no mask bit |
| Frames.NamedOctets | websocket.c:421-425 | text, binary, close, ping and pong frames start with 0x81, 0x82, 0x88, 0x89 and 0x8A |
| Frames.ServerRoundTrip | websocket.c:414-443 | a reader that takes a message only from a final, unmasked frame without extension bits recovers opcode and payload of a sent frame and its size, for payloads below 2^63 bytes |
| Frames.WireInPieces | websocket.c:414-443 | a client that reads its wire in any pieces recovers exactly the frames sent |
| Frames.WireUnique | websocket.c:414-443 | two sequences of frames with the same bytes on the wire are the same sequence |
| FrameHeader.BuildHeader | websocket.c:415-435 | the header array is filled with exactly the header of that opcode and length, whose octets are those of `ServerOctets` |
| FrameHeader.ReadHeader | websocket.c:290-348 | reading the buffer byte by byte finds the header, or that more bytes are needed, as the format says |
| FrameHeader.Unmask | websocket.c:362-367 | unmasking in place leaves at every place the octet whose bits are those in which payload and key octet differ, and the rest of the buffer alone |
| Cutting.PiecesDoNotMatter | websocket.c:446-499 | any stream processor that decides stably cuts the same items out of a stream in pieces as in one pass, and keeps the same rest |
| Inbound.LegalHeadsDoNotWrap | websocket.c:335-351 | if every header met on the stream has a legal length the decoder never meets a wrapped size |
| Inbound.LoopIsOnePass | websocket.c:493-511 | the loop over the buffer, with the size limit, does what decoding the buffer in one pass does |
| Inbound.ChunkingDoesNotMatter | websocket.c:446-513 | a run of reads in state open leaves the connection, both sockets and the buffer exactly as one pass over the whole stream, whichever sends fail and wherever the stream is cut |
| Inbound.LoopLeavesIncomplete | websocket.c:308-354 | where no size wraps around, what stays in the buffer of an open connection is an incomplete frame |
| Inbound.LoopLeavesFrom | websocket.c:493-503 | it is an unmodified end of what was in the buffer |
| Inbound.LimitIsExact | websocket.c:505-511 | the size-limit disconnect happens exactly when all 16383 bytes are taken by a head frame that is still incomplete; otherwise room for a byte is left |
| Inbound.Transparency | websocket.c:356-410 | while sends succeed the peer gets the payloads of the data frames before the first closing frame, each ping before it one pong with the same payload, and the connection stays open exactly if there is no closing frame |
| Inbound.RunIsTransparent | websocket.c:290-410 | the same for whole runs of reads, told from the byte stream alone, with the one farewell the client is sent |
| Inbound.ClientReachesPeer | websocket.c:290-410 | what a conforming client means reaches the peer, whatever keys and length forms it uses and however its stream is cut |
| Inbound.FailedSendCloses | websocket.c:384-399 | a data frame closes the connection if and only if its payload does not get through, a ping if and only if its pong does not |
| Inbound.PeerGetsPrefix | websocket.c:384-392 | whichever sends fail, the peer's bytes are a prefix of what it should get |
| PeerStream.LoopConserves | websocksy.c:241-274 | for any framing function that does not answer negatively, and however the loop ends, segments and what is still held make up the bytes that were in the buffer |
| PeerStream.LoopEnds | websocksy.c:241-272 | with such a function the loop ends within as many rounds as there are bytes |
| PeerStream.RefusalNeverEnds | websocksy.c:241-272 | a function that refuses a buffer with the data it keeps, and keeps such data, keeps the loop from ever ending |
| PeerStream.ServiceEnds | websocksy.c:241-272 | one that answers with the data it keeps, and keeps such data, lets the loop end within as many rounds as there are bytes |
| PeerStream.OldOffsetEndsLoop | websocksy.c:260-272 | an answer of exactly the old bytes sends them and ends the loop with the new ones unexamined |
| PeerStream.AnswersPastOld | websocksy.c:260-272 | an answer of nothing or of more than the old bytes keeps the loop from ending in that way |
| Stalls.EarlyExactly | websocksy.c:241-272 | under a framing function whose answers depend on the bytes alone the loop ends with new bytes unexamined if and only if its answers come to exactly the old ones |
| Stalls.StoppedRead | websocksy.c:260-274 | a read that ends so sends or discards exactly the old bytes and leaves all of its own behind |
| Stalls.ReadLeaves | websocksy.c:260-274 | one that does not leaves nothing, or bytes that the framing function answers with 0 |
| PeerStream.LoopSends | websocksy.c:249-254 | while sends succeed the client's wire grows by exactly the segments that are not discarded |
| PeerRuns.PeerDataKeeps | websocksy.c:221-276 | the residue never takes the terminator's byte, and a read from the peer changes nothing on the client's side |
| PeerRuns.FullBufferCloses | websocksy.c:222-237 | bytes that are pending are read into the room there is, unless there is none: then the connection closes as if the peer had closed it |
| PeerRuns.ReadIsTerminated | websocksy.c:239-265 | the NUL written behind a read stays where it is, so that every call of the framing function finds one at or behind the data |
| PeerRuns.ReadConserves | websocksy.c:239-274 | one read: segments and new residue are old residue and new bytes; an overrunning answer closes without sending that segment |
| Losses.LoopFalls | websocksy.c:241-272 | whichever sends break off, the loop sends what it would send without failures up to the first segment whose send breaks off, and a part of that; it fails exactly if there is such a segment |
| Losses.ReadLoses | websocksy.c:249-274 | a read loses nothing, or a send failed; then of the new bytes nothing is kept, and of the old ones what was not sent |
| Losses.LossIsFailure | websocksy.c:249-274 | on a connection that stays open, segments and residue make up old residue and new bytes if and only if every send that the read gives rise to goes through |
| Losses.BehindFailure | websocksy.c:251-253 | behind a failed send the connection is open, the client has decoded exactly the segments before it, and is left with a proper part of the next frame |
| Losses.RunLossIsFailure | websocksy.c:221-276 | over whole runs of reads, every byte is accounted for if and only if all segments go through that the reads give rise to without failures, up to the first read of which one does not |
| Losses.NoLossIsFaultless | websocksy.c:221-276 | a run without a failed read is the run without failures |
| Losses.ClientGetsPrefix | websocksy.c:249-254 | whichever sends fail over a run, what the client decodes starts with the segments up to the first failure, whole and in order, whose text is a prefix of the peer's stream; without a failure these are all |
| PeerRuns.RunConserves | websocksy.c:221-276 | the same over whole runs of reads of any sizes |
| PeerRuns.PeerReachesClient | websocksy.c:241-274 | a conforming client decodes from its wire exactly the segments not discarded, and if none was, a prefix of the peer's stream |
| Segments.LoopSplits | websocksy.c:241-272 | a framing function that agrees with a splitter on what is in the buffer makes the loop cut it as the splitter does in one pass |
| Segments.SplitterExaminesAll | websocksy.c:260-272 | such a function never ends the loop with new bytes unexamined |
| Segments.RunSplits | websocksy.c:221-276 | over whole runs the segments are the one-pass split of the stream, and the residue is its last, incomplete segment |
| Segments.SegmentedRun | websocksy.c:221-276 | the same under every cutting into reads, for functions that agree wherever a read ends, and segments and residue make up the stream |
| Segments.LeftIsProperPrefix | websocksy.c:274 | the residue is a proper prefix of the next segment |
| Segments.RunIsBinary | websocksy.c:224-225 | a framing function that leaves the type alone sends binary frames only |
| FixedLength.FixedSegmentation | plugins/framing_fixedlength.c:23-31 | for block sizes 1 to 16383, every run under every cutting sends exactly the consecutive blocks of that size and keeps fewer bytes, so that room is always left |
| FixedLength.FramingFixedLength | plugins/framing_fixedlength.c:5-32 | the function with its lazily stored block size answers as the model says |
| FixedLength.ZeroForwards | plugins/framing_fixedlength.c:23-25 | a block size of 0 makes every read one binary frame and leaves nothing behind |
| LengthPrefixes.FieldRoundTrip | plugins/framing_dynamic32.c:57-62 | any number below 2^32, written as four octets in either byte order behind any bytes up to the offset, is read back, whatever follows |
| LengthPrefixes.SegmentsInReads | plugins/framing_dynamic32.c:56-67 | for every offset, static part and byte order: a stream of segments with their lengths written into their fields, and of a part of one more, goes out segment by segment as binary frames however it is cut into reads, and the part stays |
| LengthPrefixes.LittleEndianByDefault | plugins/framing_dynamic32.c:57-66 | `02 00 00 00` and two bytes are a segment of six when nothing is configured |
| DynamicLength.DynamicSegmentation | plugins/framing_dynamic32.c:56-67 | under every cutting the segments are the length-prefixed split of the stream as long as each announced segment fits the buffer; each has the size it announces; room is always left |
| DynamicLength.WrapExact | plugins/framing_dynamic32.c:64-66 | the documented length is answered if and only if the 32-bit sum does not wrap, or wraps to nothing or to more than there is |
| DynamicLength.ResidueDecides | plugins/framing_dynamic32.c:56-67 | for every residue, a read ends with its bytes unexamined if and only if the 32-bit sums over old and new bytes come to exactly the old ones |
| DynamicLength.WaitedNeedsWrap | plugins/framing_dynamic32.c:56-67 | behind bytes that have waited that takes a field that was incomplete and a sum that wraps around or ends in front of its field |
| DynamicLength.ReadLeavesWaited | websocksy.c:260-274 | a read that does not end so leaves nothing, or bytes that have waited |
| DynamicLength.SegmentLags | plugins/framing_dynamic32.c:56-67 | a concrete stream on which a whole segment stays unexamined, and is taken when the next byte comes without its sum wrapping |
| DynamicLength.WrappedLengthTaken | plugins/framing_dynamic32.c:64-66 | a concrete stream on which the wrapped sum cuts two bytes off where four gigabytes were announced |
| DynamicLength.FramingDynamic32 | plugins/framing_dynamic32.c:13-70 | the function, with the field loaded in either byte order, answers as the model says |
| Separators.ReadExact | builtins.c:250-260 | a read is cut greedily if and only if no separator straddles its start |
| Separators.RunExact | builtins.c:250-260 | the segments of a run are the greedy split of the stream if and only if no separator straddles two reads |
| Separators.SeparatorSegmentation | builtins.c:250-260 | over every run in which no separator straddles two reads the segments are the greedy split, each ending in a separator with none starting in front of it, and what stays behind has none |
| Separators.OneByteSegmentation | builtins.c:250-260 | with a separator of one byte this holds under every cutting |
| Separators.FramingNewline | builtins.c:272-301 | the function answers with the separator's length and marks what passes the UTF-8 test |
| Separators.FramingSeparator | builtins.c:186-261 | the function, from its configuration string on, parses it in place once, refuses it or finds the end of the first separator that starts in the newest read |
| Separators.SeparatedSearches | builtins.c:190-261 | `separator` searches for a separator if and only if its configuration string stands for that one, and leaves the type alone |
| Separators.SeparatedAnswers | builtins.c:220-226 | it never answers negatively if and only if the string has no hexadecimal escape that is cut short |
| Separators.SeparatedEnds | builtins.c:220-226 | the peer handler's loop ends under it if and only if the string stands for a separator or one is stored already |
| Separators.CutShortNeverEnds | builtins.c:220-226 | with the string `\x4` the first read never comes to an end |
| Separators.SearchExaminesAll | builtins.c:250-260 | the search never ends the loop with new bytes unexamined |
| Separators.TakingAllExaminesAll | websocksy.c:260-272 | nor does a function that takes everything |
| Separators.NewlineSearches | builtins.c:272-301 | `newline` searches for its line end in the same way, never answers negatively and marks text |
| Separators.ExpressionsAreLineEnds | builtins.c:274-289 | the four expressions that it passes on stand for the four line ends |
| Separators.MarkedMeans | builtins.c:300 | a frame of a read is text if and only if it or an earlier frame of that read passes the test; so a binary frame never passes |
| Separators.ReadMarks | websocksy.c:225-272 | the frames of every read under such a framing function are marked in this way |
| Separators.SecondLineMismarked | builtins.c:300 | two lines in one read, the second not UTF-8, are both sent as text |
| Separators.AutoForwards | builtins.c:119-166 | under `auto` the client is sent the reads, one frame each, typed by its own content, and nothing stays behind |
| Separators.BinaryForwards | builtins.c:171-173 | under `binary` too, all of them binary |
| Utf8.FramingAuto | builtins.c:119-166 | the loop marks the data as text exactly if they pass the test from their first byte on |
| Utf8.MasksAreRanges | builtins.c:8 | the bit masks of the source select the ranges of the model |
| Utf8.PassesExactlyUnits | builtins.c:122-158 | the test accepts exactly the byte strings that are made of units of one to four bytes with a matching lead byte |
| Utf8.TextPasses | builtins.c:115-118 | every text encoded by section 3 of RFC 3629 passes |
| Utf8.PassesExactlyText | builtins.c:122-158 | what passes is UTF-8 if and only if its units are shortest forms of scalar values |
| Utf8.OverlongPasses | builtins.c:145-151 | an overlong form passes and is no text |
| JsonScanner.ScanJson | plugins/framing_json.c:224-258 | the mutually recursive loops compute the scanner's length for every buffer with a NUL behind the data, reading inside the buffer only |
| JsonScanner.ScanArray | plugins/framing_json.c:10-60 | the array loop computes the length the container recursion gives |
| JsonScanner.ScanObject | plugins/framing_json.c:62-129 | the object loop computes the length the container recursion gives |
| JsonComplete.DocumentLength | plugins/framing_json.c:10-258 | a document rooted at array, object or string, none of whose strings ends with a backslash, behind blanks and before any bytes, is answered with its exact length if the scanner can read it, and with -1 if not |
| JsonGrammar.NumeralIsNumber | plugins/framing_json.c:169-185 | every number of section 6 of RFC 8259, with minus, fraction and exponent in characters, is one for the scanner |
| JsonGrammar.StringIsQuoted | plugins/framing_json.c:131-160 | every string of section 7 is one for the scanner, printable if and only if its plain characters go up to `~`, and ends with a backslash if and only if its last character is an escaped one |
| JsonGrammar.GrammarExact | plugins/framing_json.c:10-258 | every text of the grammar rooted at an array, an object or a string, behind any blanks of section 2 and before any bytes: its exact length is answered if and only if its strings are printable, none ends with a backslash and blanks behind a number start with a space |
| JsonGrammar.GrammarIsSound | plugins/framing_json.c:260-275 | such a text is a document that goes out as one text frame |
| JsonGrammar.DigitIsFound | plugins/framing_json.c:169-185 | an array of any one digit has length 3, whatever follows |
| JsonGrammar.NumberExact | plugins/framing_json.c:169-195 | a digit or a minus sign and any digits, signs, points and exponent letters behind it are taken if and only if a comma, a space or a closing bracket follows |
| JsonGrammar.NumberSoFar | plugins/framing_json.c:186-195 | at the end of the data such a text is taken as it is, unless it ends in a point, an exponent letter or a sign; then more is waited for |
| JsonGrammar.NothingElseStarts | plugins/framing_json.c:162-258 | data that start with anything but a blank, a bracket, a quotation mark, a minus sign, a digit or `n`, `t`, `f` are refused |
| JsonGrammar.StringRefused | plugins/framing_json.c:142-159 | a string is refused at its first octet below 0x20 or above 0x7E |
| JsonQuotes.DocumentExact | plugins/framing_json.c:10-258 | with strings that may end with a backslash admitted, the exact length is answered if and only if the document is scannable and no string or name ends with one |
| JsonPrefix.DocumentCut | plugins/framing_json.c:22-59 | a proper prefix of such a document in front of any bytes: they are counted in if and only if they begin with the closing bytes the prefix lacks, innermost first; else the answer is 0, or -1 right behind a comma between entries that the closer of its container does not follow |
| JsonPrefix.DocumentPrefix | plugins/framing_json.c:22-59 | so every proper prefix in front of a NUL gives 0, except -1 right behind a comma between entries at any depth |
| JsonStable.JsonBounds | plugins/framing_json.c:224-258 | on arbitrary bytes the result lies between -1 and the end of the terminated data |
| JsonStable.AppendedData | plugins/framing_json.c:224-258 | a positive result for a bracketed or quoted root does not change when bytes are appended |
| JsonLocal.JsonShares | plugins/framing_json.c:224-258 | a length that lies within fewer data is found in those alone, unless it is that of a number that ends with them |
| JsonLimits.StringExact | plugins/framing_json.c:142-159 | a string with escaped quotes is found at its length if and only if it is printable and does not end with a backslash |
| JsonLimits.TrailingBackslashMissed | plugins/framing_json.c:145 | a complete document for which the scanner asks for more |
| JsonFraming.FramingJson | plugins/framing_json.c:260-275 | documents are answered as text with their length, incomplete ones with 0, everything else as a whole |
| JsonFraming.DocumentInReads | plugins/framing_json.c:260-275 | a document in any number of reads is sent as exactly one text frame if and only if no read ends behind a comma between entries |
| JsonFraming.DocumentsInRead | plugins/framing_json.c:260-275 | a read that ends where a document ends sends every document in it as one text frame and leaves nothing behind |
| JsonFraming.DocumentsThenPart | websocksy.c:239-274 | a read that brings whole documents and a part of another sends the whole ones and closes if and only if what the last cut left behind the part begins with the closing bytes it lacks; else the part waits, or is dumped behind a comma |
| JsonFraming.LeftBehindIsKnown | websocksy.c:260-265 | what the last cut left there begins with the end of the last document and of the part |
| JsonFraming.TextsDecide | websocksy.c:239-274 | a part that lacks no more bytes than the last document has closes if and only if it lacks a prefix of these |
| JsonFraming.StaleBracketCloses | websocksy.c:239-257 | `[1][1` in one read closes the connection after the first array |
| MessageRuns.RunIsTold | websocksy.c:221-276 | for messages of any kind: if a test tells what single reads do, a run sends every complete message as one text frame and keeps the part of the next if and only if all of its reads pass |
| JsonRuns.DocumentsInReads | websocksy.c:221-276 | several documents, cut into reads anywhere and stopped anywhere: each complete one is sent as one text frame, and the part of the next stays in the buffer, if and only if every read leaves the part it ends with there |
| JsonStalls.ResidueDecides | websocksy.c:260-272 | for every residue, a read under `json` ends with its bytes unexamined if and only if the residue is complete values, each found at its length in the residue alone, the last of which may be a number that the first new byte ends; then these are sent, one text frame each, and the whole read stays behind |
| JsonStalls.ReadStallsExactly | plugins/framing_json.c:161-222 | behind bytes that have waited that is so if and only if they are blanks and a number whose last character is no digit and the first new byte ends it |
| JsonStalls.ReadLeavesWaited | websocksy.c:260-274 | a read that does not end so leaves nothing, or bytes that have waited |
| JsonStalls.FirstStopsAtNumber | websocksy.c:221-276 | over a run from an empty buffer the first read that ends so is the first one that meets such a number and ends it |
| JsonStalls.LagsBehind | websocksy.c:260-272 | with a whole document left in the buffer, every further read that brings a document sends the one before it, however long this goes on |
| JsonStalls.ArrayIsDocument | plugins/framing_json.c:10-60 | the array of the example is such a document |
| JsonStalls.CompleteArrayWaits | websocksy.c:260-272 | `1e` and then ` [2]`: the number is sent and the complete array waits |
| Messages.PartInRead | websocksy.c:241-274 | part of a message waits in the buffer, or is dumped as binary where it is cut at an unsafe place |
| Messages.MessageInReads | websocksy.c:221-276 | a message in any number of reads is sent as exactly one text frame if and only if no read ends at an unsafe place |
| Unescape.UnescapeInPlace | builtins.c:195-236 | replacing escapes within the string gives the replaced string, never overwriting what was not read, and fails exactly on a hexadecimal escape cut short |
| Unescape.EscapeRoundTrip | builtins.c:195-236 | every byte string can be written as a configuration string that gives it back |
| Unescape.HexIsRead | builtins.c:220-230 | a hexadecimal escape is read as the number that its second digit and the digit behind it write, or its second digit alone, digits being `0` to `9`, `A` to `F`, `a` to `f` |
| Unescape.HexIsRefused | builtins.c:220-226 | without two such digits behind it the escape makes the whole string stand for nothing |
| Unescape.OtherEscapes | builtins.c:201-219 | a backslash at the very end stands for NUL, and with an unknown letter for itself |
| Unescape.HexEscapeExact | builtins.c:220-230 | when a hexadecimal escape gives the byte it documents |
| TemplateBuffer.Replace | plugins/backend_file.c:58-80 | the replacement happens in place with its slashes turned, or is refused, and then nothing changes, exactly if it would leave no room for the terminator |
| TemplateBuffer.FindCookie | plugins/backend_file.c:128-154 | the scan of a cookie header finds what the header has, from the first piece between its separators on that starts it with the name and an equals sign, behind these; nothing if it ends there |
| Cookies.ScanIsLookup | plugins/backend_file.c:128-154 | the same for the function, for every header value and every name: what is found is behind the first piece from which on the header has the name and an equals sign, up to a semicolon |
| Cookies.CookieIsFound | plugins/backend_file.c:128-154 | in a header made of cookies, the value of the first one of the name is found if and only if there is one and it is not both empty and the last |
| TemplateBuffer.ExpandInPlace | plugins/backend_file.c:82-195 | on success the buffer holds the expansion, which is shorter than the buffer; the endpoint is left trimmed in any case |
| Template.ExpandIsSubstitution | plugins/backend_file.c:82-195 | the expansion succeeds if and only if every variable has a value and there is room at each step, and then is the literals with each variable replaced once, never looked at again, the endpoint losing one trailing slash per use |
| Placeholders.TemplateIsRead | plugins/backend_file.c:82-195 | a template written from plain characters and the three kinds of variables is taken apart into these |
| Placeholders.HeaderVariable | plugins/backend_file.c:155-180 | a header variable stands for the value of the first header with exactly that tag, and fails if and only if there is none |
| Placeholders.CookieVariable | plugins/backend_file.c:105-154 | a cookie variable stands for the first cookie of its name in the first header tagged `Cookie`, unless that is empty and the last there, and fails without such a header |
| Placeholders.EndpointVariable | plugins/backend_file.c:91-103 | the endpoint stands for the text behind its first slash without one slash at the end, and fails if it is empty |
| Placeholders.SlashesTurn | plugins/backend_file.c:72-78 | slashes of a value become underscores and nothing else changes |
| Placeholders.UnterminatedFails | plugins/backend_file.c:107-113 | a cookie or header variable without its closing percent sign makes the template fail |
| Template.OnlyLiteralSlashes | plugins/backend_file.c:72-78 | the slashes of the result are those of the template's literals |
| Template.ExpansionFits | plugins/backend_file.c:61-65 | the result is shorter than the buffer |
| Template.EmptyLastCookie | plugins/backend_file.c:152-154 | an empty cookie at the end of its header counts as missing, one before a semicolon does not |
| Requests.HeaderIsRead | websocket.c:217-281 | every header line as a client may write it, blanks around its value included, says what it means: key, version, `websocket` and `upgrade` in any mixture of small and capital letters, offers between commas, any other header, which is kept as it is, or in small letters where it is a `Connection` line without the word |
| Requests.ConnectionExactly | websocket.c:244-246 | a `Connection` line asks for the upgrade if and only if some seven octets of its value are the letters of `upgrade`, small or capital |
| Requests.UpgradeExactly | websocket.c:241-243 | an `Upgrade` line asks for it if and only if its value behind the blanks is `websocket`, in small or capital letters |
| Requests.CommasAlone | websocket.c:249-258 | empty tokens between commas make no offers, tokens of blanks an empty one |
| Requests.OtherLines | websocket.c:209-223 | a line is the empty one, folded or malformed exactly if it has no octet, starts with a blank, or has no colon |
| Requests.LineEndsAtNul | websocket.c:209-227 | a line is read up to its first NUL |
| Requests.RequestIsRead | websocket.c:112-133 | `GET `, a path without blanks, a blank and `HTTP/` are a request line, and the path is what is kept |
| Requests.OnlyRequestsAreRead | websocket.c:112-133 | every accepted request line is of this form |
| Requests.RequestIsTold | websocket.c:205-287 | behind a request line and any header lines in any order the record holds the path, the key and the version of the last such lines, every offer once, and the first ten other headers |
| Requests.RequestIsAnswered | websocket.c:137-203 | the answer to such a request, octet by octet, while sends succeed: 101 with the accept key of the key and the chosen offer if it is complete and the peer can be connected, 500 if not, 426 without version 13, nothing while something else is missing |
| Requests.BadLineIsRefused | websocket.c:212-223 | a folded line and one without a colon close the connection with the octets of their 500 response |
| Upgrades.SomeSaysMeans | websocket.c:241-246 | that the lines say something means that one of them does |
| Upgrades.OpenExactly | websocket.c:137-203 | open is reached from http on an empty line, if and only if the lines behind the request line hold a key, an upgrade and a connection token and 13 as the latest version, the peer can be connected and all sends go through |
| Upgrades.HttpKnows | websocket.c:109-283 | in state http the record holds the path of the request line and exactly what the lines behind it say: the latest key and version, both wishes, the offers and the first ten other headers |
| Upgrades.HandleForward | websocket.c:109-283 | a line moves the state forward only, whatever fails; a closed connection stays closed and sends nothing; open comes with a peer and closed without descriptors |
| Upgrades.EmptyLineExact | websocket.c:137-203 | an empty line leaves the connection in state http, unchanged, if and only if the version is 13 and something else is missing; without version 13 it closes with 426 |
| Upgrades.RefusedChangesNothing | websocket.c:109-134 | a first line changes nothing if and only if it is no request |
| Upgrades.UpgradeSends | websocket.c:148-195 | whichever sends fail, the client is sent a prefix of the response and nothing else, and all of it if the connection opens |
| Upgrades.AnnouncedIsOffered | websocket.c:179-186 | an announced subprotocol is one of the offers on the lines |
| Upgrades.DistinctIsDistinct | websocket.c:253-271 | offers are stored once each, and all of them |
| Upgrades.DistinctIsOrdered | websocket.c:253-271 | offers keep the order in which they were first made |
| Upgrades.DefaultPeerQuery | builtins.c:73-98 | the default backend's loop finds the first match up to letter case, or the first offer for `*` |
| Upgrades.DefaultChooses | websocksy.c:140-141 | with the default backend, the peer's subprotocol is its choice among the stored offers |
| Upgrades.LowerAgrees | builtins.c:86 | two texts are equal in lower case if and only if they are letter for letter the same, small or capital |
| Upgrades.DefaultIsFirst | builtins.c:81-96 | the default backend chooses the first offer for `*`, otherwise the first that is the configured one up to letter case, and none without configuration |
| Upgrades.DefaultAnnounces | builtins.c:81-96 | when the default backend announces a subprotocol, both ways |
| Runs.StepKeeps | websocksy.c:367-397 | every event keeps the invariant between handler calls and moves the connection forward |
| Runs.RunKeeps | websocket.c:26-95 | in every reachable state: open exactly with a peer's descriptor, closed exactly without a client's, both buffers within bounds; the state only moves forward and closed is silent |
| Runs.ShippedPeersAreProper | websocksy.c:268-272 | of the framing functions that come with the program only `separator` can answer negatively, and that exactly with a hexadecimal escape cut short |
| Runs.ClosingInOctets | websocket.c:26-47 | closing for a reason sends a close frame with it when open, a refusal during the handshake if that is at fault, and nothing otherwise or without a reason |
| Runs.EventsInOctets | websocksy.c:391-396 | the octets of the keep-alive ping, which changes nothing else, and of the close frames at shutdown and when the peer ends or fails; nothing is sent when the client has gone |
| Runs.PingFailureCloses | websocksy.c:391-396 | a keep-alive ping that fails closes the connection |
| Runs.SlotIsReusable | websocket.c:26-95 | closing resets everything that a new connection has to find empty |
| Stories.OpenWasAskedFor | websocket.c:137-203 | over every run an open connection has handled a request line and a complete request behind it |
| Bridge.BothWays | websocksy.c:373-388 | for reads from client and peer in any order and of any sizes that leave the connection open: the peer has the payloads of the client's frames, those left over from the handshake included once the client is read from, the client the peer's stream up to the residue and a pong for each ping, and nothing else |
| Bridge.BothWaysClosing | websocksy.c:373-388 | for those that close it: the same up to the last read, which sends what stands in front of the fault and then one farewell |
| Bridge.ClientReads | websocksy.c:373-388 | in both cases a conforming client decodes exactly that from its wire |
| WebSockets.WebSocket.Close | websocket.c:26-95 | closing the record is closing its value: farewell by state and reason, both descriptors, everything reset |
| WebSockets.WebSocket.SendFrame | websocket.c:414-443 | header and payload are sent, the payload only behind a complete header |
| WebSockets.WebSocket.HandleFrame | websocket.c:290-411 | one frame at the head of the buffer is acted on as the model says and counted; an incomplete one leaves everything as it was |
| WebSockets.WebSocket.ReadFrames | websocket.c:446-513 | a read in state open does to the record what it does to its value |
| WebSockets.WebSocket.ReadPeer | websocksy.c:221-276 | a read from the peer does to the record what it does to its value |
| WebSockets.WebSocket.PeerReadable | websocksy.c:227-237 | so do the end of the peer's stream and a failure |
| WebSockets.WebSocket.HandleNew | websocket.c:109-134 | a request line moves the record to state http with its path; any other line leaves it as it is |
| HeaderLines.ParseLine | websocket.c:209-283 | the scans through a line find what it says to the handshake |
| HeaderLines.SplitOffers | websocket.c:249-258 | the tokens between commas, each trimmed on both sides |
| PeerAddress.ResolvePeer | websocksy.c:146-164 | framing function, transport and port of the backend's peer are completed, the address being taken apart in place |
| PeerAddress.SchemesByName | websocksy.c:96-124 | `tcp://`, `udp://`, `fifotx://`, `fiforx://`, `unix://` and `unix-dgram://` stand for their transports and are taken off |
| PeerAddress.DetectionMeans | websocksy.c:96-124 | the transport detected is the one whose prefix the address has, which is taken off, and TCP if it has none |
| PeerAddress.AddressRoundTrip | websocksy.c:96-164 | an address names the transport, host and port it was made of, where a port belongs to it if and only if the host has no colon |
| PeerAddress.GivenIsKept | websocksy.c:146-164 | a transport that the backend gives is not looked for in the address, and neither is a port that it gives or that the transport has no use for |
| PeerAddress.BareAddress | websocksy.c:122-137 | without a prefix, host and port are found as those of a TCP peer |
| WebSockets.WebSocket.ConnectPeer | websocksy.c:140-191 | the backend's peer is completed and connected, or the connection is left without one |
| WebSockets.WebSocket.UpgradeHttp | websocket.c:137-203 | the upgrade of the record is that of its value |
| WebSockets.WebSocket.HandleAllLines | websocket.c:466-489 | all lines of a read are handled, whatever becomes of the connection meanwhile |

## Left out

- Inbound.ChunkingDoesNotMatter: assumes that no 64-bit length makes header size plus length wrap around 2^64; what `ws_frame` does then is outside any buffer. `Inbound.LegalHeadsDoNotWrap` gives it from section 5.2 of RFC 6455.
- WebSockets.WebSocket.ReadFrames: assumes the same.
- PeerStream.LoopConserves: assumes framing functions that do not answer negatively, because the loop does not end otherwise; `Runs.ShippedPeersAreProper` says which are such.
- Runs.RunKeeps: assumes the same of the framing functions that the backend can choose.
- Segments.LoopSplits: while sends succeed; what a failed one costs is in `Losses`.
- Bridge.BothWays: without keep-alive frames, which are sent in any state, and while sends succeed.
- Bridge.BothWaysClosing: the same.
- WebSockets.WebSocket.ConnectPeer: the hosts that the backend gives are C strings; so for `UpgradeHttp` and the handlers of lines that lead to it.
- HeaderLines.ParseLine: works on the line as a sequence; the terminators that the code writes into the read buffer are not modelled.
- Requests.RequestIsAnswered: while sends succeed; what a failed one leaves is in `Upgrades.UpgradeSends`.
- JsonGrammar.GrammarExact: for roots that show where they end; a number at the root is in `JsonGrammar.NumberExact` and `NumberSoFar`.
- Losses.ReadLoses: the parts of a frame that a failed send leaves on the wire are those of one oracle per `network_send`.
- DynamicLength.FramingDynamic32: options are taken as parsed, with an offset below 2^32 - 4; the option loop, which does not get past a comma, is not modelled.
- Unescape.Scanned: `sscanf` is taken to stop at the `x` of a second digit 0 followed by `x`.
- WebSockets.WebSocket.HandleAllLines: lines are given; how `ws_data` assembles them from reads (websocket.c:466-492), which sets rather than adds the offset and misses a line end cut by a read, is not modelled. `Runs` allows any lines and any bytes left over.
- WebSockets.WebSocket.Send: the repeated `send` calls of `network_send` are one oracle for how many bytes get out.
- The accept key (SHA-1 and base64) and `strtoul` are functions of the environment.
- Descriptors are numbers; socket creation, name resolution, `accept`, `select` and the order in which the main loop serves connections are not modelled, nor are its time stamps.
- A peer left behind by a second upgrade on the same connection is not closed in the code; the model does not count descriptors.
- The calls in which a framing function frees its data, allocation failures, and logging.
- The registry of plugins, the configuration files and the file lookup of the file backend.
- Fragmented messages and reserved bits, which the code does not look at.
