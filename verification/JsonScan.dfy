/**
 The length recognisers of the `json` framing function, as functions on positions.

 `d` is the memory the scanner may look at, `n` the end of the valid data and `i` the
 position a recogniser is started at.  The scanner looks at `d[n]` and, if it finds a
 closing bracket there, beyond it; memory past the end of `d` reads as NUL.  Results are
 the C results: a positive length, 0 for "incomplete", -1 for "not JSON".
 */
module JsonScan {
  import opened Bytes

  const NUL: byte := 0
  const QUOTE: byte := 0x22
  const PLUS: byte := 0x2B
  const MINUS: byte := 0x2D
  const DOT: byte := 0x2E
  const OPEN_ARRAY: byte := 0x5B
  const CLOSE_ARRAY: byte := 0x5D
  const OPEN_OBJECT: byte := 0x7B
  const CLOSE_OBJECT: byte := 0x7D

  const NULL_TEXT: bytes := [0x6E, 0x75, 0x6C, 0x6C]
  const TRUE_TEXT: bytes := [0x74, 0x72, 0x75, 0x65]
  const FALSE_TEXT: bytes := [0x66, 0x61, 0x6C, 0x73, 0x65]

  predicate IsPrint(c: byte) {
    0x20 <= c <= 0x7E
  }

  predicate IsDigit(c: byte) {
    0x30 <= c <= 0x39
  }

  predicate IsNumberStart(c: byte) {
    c == MINUS || IsDigit(c)
  }

  predicate IsExponent(c: byte) {
    c == 0x65 || c == 0x45
  }

  predicate IsNumberChar(c: byte) {
    IsDigit(c) || c == PLUS || c == MINUS || c == DOT || IsExponent(c)
  }

  predicate EndsNumber(c: byte) {
    c == COMMA || c == SPACE || c == CLOSE_OBJECT || c == CLOSE_ARRAY
  }

  predicate NeedsMoreDigits(c: byte) {
    c == DOT || IsExponent(c) || c == MINUS || c == PLUS
  }

  function At(d: bytes, i: nat): byte {
    if i < |d| then d[i] else NUL
  }

  /** Past the blanks at `i`, but never past `n` (nor back from beyond it). */
  function Skip(d: bytes, i: nat, n: nat): (r: nat)
    ensures i <= r && (i <= n ==> r <= n) && (n <= i ==> r == i)
    decreases n - i
  {
    if i < n && IsSpace(At(d, i)) then Skip(d, i + 1, n) else i
  }

  lemma {:induction false} SkipStops(d: bytes, i: nat, n: nat)
    ensures forall k {:trigger At(d, k)} :: i <= k < Skip(d, i, n) ==> IsSpace(At(d, k))
    ensures Skip(d, i, n) < n ==> !IsSpace(At(d, Skip(d, i, n)))
    decreases n - i
  {
    if i < n && IsSpace(At(d, i)) {
      SkipStops(d, i + 1, n);
    }
  }

  /** The bytes a string scan runs over. */
  predicate InString(d: bytes, k: nat) {
    IsPrint(At(d, k)) && (At(d, k) == QUOTE ==> k > 0 && At(d, k - 1) == BACKSLASH)
  }

  /** Where the search for the terminating quotation mark stops. */
  function StringStop(d: bytes, i: nat, n: nat): (r: nat)
    requires i <= n
    ensures i <= r <= n
    decreases n - i
  {
    if i < n && InString(d, i) then StringStop(d, i + 1, n) else i
  }

  lemma {:induction false} StringStops(d: bytes, i: nat, n: nat)
    requires i <= n
    ensures forall k {:trigger InString(d, k)} :: i <= k < StringStop(d, i, n) ==> InString(d, k)
    ensures StringStop(d, i, n) < n ==> !InString(d, StringStop(d, i, n))
    decreases n - i
  {
    if i < n && InString(d, i) {
      StringStops(d, i + 1, n);
    }
  }

  function StringLength(d: bytes, i: nat, n: nat): int
    requires i <= n
  {
    if i == n then 0
    else if At(d, i) != QUOTE then -1
    else
      var s := StringStop(d, i + 1, n);
      if At(d, s) == QUOTE && At(d, s - 1) != BACKSLASH then s + 1 - i
      else if s >= n then 0
      else -1
  }

  function NumberStop(d: bytes, i: nat, n: nat): (r: nat)
    requires i <= n
    ensures i <= r <= n
    decreases n - i
  {
    if i < n && IsNumberChar(At(d, i)) then NumberStop(d, i + 1, n) else i
  }

  lemma {:induction false} NumberStops(d: bytes, i: nat, n: nat)
    requires i <= n
    ensures forall k {:trigger At(d, k)} :: i <= k < NumberStop(d, i, n) ==> IsNumberChar(At(d, k))
    ensures NumberStop(d, i, n) < n ==> !IsNumberChar(At(d, NumberStop(d, i, n)))
    decreases n - i
  {
    if i < n && IsNumberChar(At(d, i)) {
      NumberStops(d, i + 1, n);
    }
  }

  /** The bytes of `d` from `i` up to `n` start with `word`. */
  predicate StartsWith(d: bytes, i: nat, n: nat, word: bytes) {
    i + |word| <= n && forall k {:trigger word[k]} :: 0 <= k < |word| ==> At(d, i + k) == word[k]
  }

  /** All bytes of `d` from `i` up to `n` are a prefix of `word`, and a shorter one. */
  predicate StartOf(d: bytes, i: nat, n: nat, word: bytes) {
    i <= n < i + |word| && forall k {:trigger word[k]} :: 0 <= k < n - i ==> At(d, i + k) == word[k]
  }

  function LiteralLength(d: bytes, i: nat, n: nat): int
    requires i <= n
  {
    if StartsWith(d, i, n, NULL_TEXT) then 4
    else if StartsWith(d, i, n, TRUE_TEXT) then 4
    else if StartsWith(d, i, n, FALSE_TEXT) then 5
    else if StartOf(d, i, n, NULL_TEXT) then 0
    else if StartOf(d, i, n, TRUE_TEXT) then 0
    else if StartOf(d, i, n, FALSE_TEXT) then 0
    else -1
  }

  lemma NotALiteral(d: bytes, i: nat, n: nat)
    requires i < n && IsNumberStart(At(d, i))
    ensures LiteralLength(d, i, n) == -1
  {
    assert At(d, i + 0) != NULL_TEXT[0] && At(d, i + 0) != TRUE_TEXT[0] && At(d, i + 0) != FALSE_TEXT[0];
  }

  function ValueLength(d: bytes, i: nat, n: nat): int
    requires i <= n
  {
    if i == n then 0
    else if IsNumberStart(At(d, i)) then
      var s := NumberStop(d, i + 1, n);
      if EndsNumber(At(d, s)) then s - i
      else if s >= n then if NeedsMoreDigits(At(d, s - 1)) then 0 else s - i
      else LiteralLength(d, i, n)
    else LiteralLength(d, i, n)
  }

  function Open(keyed: bool): byte {
    if keyed then OPEN_OBJECT else OPEN_ARRAY
  }

  function Close(keyed: bool): byte {
    if keyed then CLOSE_OBJECT else CLOSE_ARRAY
  }

  /** What a container loop does next: return, or read on at a position. */
  datatype Step = Stop(result: int) | Next(cur: nat)

  /** A key and its colon. */
  function KeyStep(d: bytes, p: nat, n: nat): (s: Step)
    requires p <= n
    ensures s.Next? ==> p < s.cur < n
  {
    var k := StringLength(d, p, n);
    if k <= 0 then Stop(k)
    else
      var c := Skip(d, p + k, n);
      if c >= n - 1 then Stop(0)
      else if At(d, c) != COLON then Stop(-1)
      else Next(c + 1)
  }

  /** What an entry has in front of its value: a key in an object, nothing in an array. */
  function LeadStep(d: bytes, p: nat, n: nat, keyed: bool): Step
    requires p <= n
  {
    if keyed then KeyStep(d, p, n) else Next(p)
  }

  /** Behind an entry that ends at `e`, in the container opened at `start`. */
  function AfterValue(d: bytes, start: nat, e: nat, n: nat, keyed: bool): (s: Step)
    ensures s.Next? ==> e < s.cur < n
  {
    var q := Skip(d, e, n);
    if At(d, q) == Close(keyed) then Stop(q + 1 - start)
    else if q >= n then Stop(0)
    else if At(d, q) != COMMA then Stop(-1)
    else if q + 1 < n then Next(q + 1)
    else if At(d, q + 1) == Close(keyed) then Stop(q + 2 - start)
    else Stop(-1)
  }

  function JsonLength(d: bytes, i: nat, n: nat): int
    requires i <= n
    decreases n - i, 2
  {
    if i == n then 0
    else
      var p := Skip(d, i, n);
      var r := if At(d, p) == OPEN_ARRAY then ContainerLength(d, p, n, false)
               else if At(d, p) == OPEN_OBJECT then ContainerLength(d, p, n, true)
               else if At(d, p) == QUOTE then StringLength(d, p, n)
               else ValueLength(d, p, n);
      if r <= 0 then r else p - i + r
  }

  /** The array and the object recogniser, which differ in brackets and keys only. */
  function ContainerLength(d: bytes, i: nat, n: nat, keyed: bool): int
    requires i <= n
    decreases n - i, 1
  {
    if i == n then 0
    else if At(d, i) != Open(keyed) then -1
    else EntriesLength(d, i, i + 1, true, n, keyed)
  }

  /** One round of the loop of these recognisers, about to read an entry at `cur`. */
  function EntryStep(d: bytes, start: nat, cur: nat, first: bool, n: nat, keyed: bool): (s: Step)
    requires start < cur <= n
    ensures s.Next? ==> cur < s.cur < n
    decreases n - cur, 3
  {
    var p := Skip(d, cur, n);
    if first && At(d, p) == Close(keyed) then Stop(p + 1 - start)
    else
      match LeadStep(d, p, n, keyed)
      case Stop(result) => Stop(result)
      case Next(v) =>
        var r := JsonLength(d, v, n);
        if r <= 0 then Stop(r) else AfterValue(d, start, v + r, n, keyed)
  }

  function EntriesLength(d: bytes, start: nat, cur: nat, first: bool, n: nat, keyed: bool): int
    requires start < cur <= n
    decreases n - cur, 4
  {
    match EntryStep(d, start, cur, first, n, keyed)
    case Stop(result) => result
    case Next(c) => EntriesLength(d, start, c, false, n, keyed)
  }

  /** Which recogniser takes over at a byte that is not a blank. */
  lemma Dispatch(d: bytes, i: nat, n: nat)
    requires i < n && !IsSpace(At(d, i))
    ensures JsonLength(d, i, n)
         == if At(d, i) == OPEN_ARRAY then EntriesLength(d, i, i + 1, true, n, false)
            else if At(d, i) == OPEN_OBJECT then EntriesLength(d, i, i + 1, true, n, true)
            else if At(d, i) == QUOTE then StringLength(d, i, n)
            else ValueLength(d, i, n)
  {
    assert Skip(d, i, n) == i;
    assert forall b {:trigger Open(b)} :: At(d, i) == Open(b) ==>
      ContainerLength(d, i, n, b) == EntriesLength(d, i, i + 1, true, n, b);
    assert Open(false) == OPEN_ARRAY && Open(true) == OPEN_OBJECT;
  }

  lemma {:induction false} SkipTwice(d: bytes, i: nat, n: nat)
    ensures Skip(d, Skip(d, i, n), n) == Skip(d, i, n)
    decreases n - i
  {
    if i < n && IsSpace(At(d, i)) {
      SkipTwice(d, i + 1, n);
    }
  }

  /** The blanks in front of a value only add to its length. */
  lemma SkippedBlanks(d: bytes, i: nat, p: nat, n: nat)
    requires i <= n && p == Skip(d, i, n)
    ensures var r := JsonLength(d, p, n);
            JsonLength(d, i, n) == if r <= 0 then r else p - i + r
  {
    SkipTwice(d, i, n);
  }

  /** One round of the loop whose value, behind its key, ends at `e`, or is refused. */
  lemma EntryRound(d: bytes, start: nat, cur: nat, first: bool, n: nat, keyed: bool,
                   v: nat, e: nat, q: nat)
    requires start < cur <= n && At(d, Skip(d, cur, n)) != Close(keyed)
    requires LeadStep(d, Skip(d, cur, n), n, keyed) == Next(v) && cur <= v < e && v <= n
    requires JsonLength(d, v, n) in {-1, e - v}
    requires Skip(d, e, n) == q < n && (At(d, q) == Close(keyed) || At(d, q) == COMMA)
    ensures EntriesLength(d, start, cur, first, n, keyed)
         == if JsonLength(d, v, n) == -1 then -1
            else if At(d, q) == Close(keyed) then q + 1 - start
            else if q + 1 < n then EntriesLength(d, start, q + 1, false, n, keyed)
            else if At(d, n) == Close(keyed) then n + 1 - start
            else -1
  {
  }

  /** One round in which the key is refused or incomplete. */
  lemma KeyRefused(d: bytes, start: nat, cur: nat, first: bool, n: nat, r: int)
    requires start < cur <= n && !(first && At(d, Skip(d, cur, n)) == CLOSE_OBJECT)
    requires KeyStep(d, Skip(d, cur, n), n) == Stop(r)
    ensures EntriesLength(d, start, cur, first, n, true) == r
  {
  }

  /** The loop returns what its value returns, or runs out of data behind it. */
  lemma EntryStops(d: bytes, start: nat, cur: nat, first: bool, n: nat, keyed: bool, v: nat, r: int)
    requires start < cur <= n && At(d, Skip(d, cur, n)) != Close(keyed)
    requires LeadStep(d, Skip(d, cur, n), n, keyed) == Next(v) && cur <= v <= n
    requires r == JsonLength(d, v, n) && (r > 0 ==> Skip(d, v + r, n) == n && At(d, n) != Close(keyed))
    ensures EntriesLength(d, start, cur, first, n, keyed) == if r <= 0 then r else 0
  {
  }

  lemma StepAtValue(d: bytes, start: nat, cur: nat, first: bool, n: nat, keyed: bool, v: nat)
    requires start < cur <= n && !(first && At(d, Skip(d, cur, n)) == Close(keyed))
    requires LeadStep(d, Skip(d, cur, n), n, keyed) == Next(v)
    ensures cur <= v <= n
    ensures EntryStep(d, start, cur, first, n, keyed)
         == var r := JsonLength(d, v, n); if r <= 0 then Stop(r) else AfterValue(d, start, v + r, n, keyed)
  {
  }

  lemma StepIs(d: bytes, start: nat, cur: nat, first: bool, n: nat, keyed: bool, p: nat, v: nat, r: nat, t: Step)
    requires start < cur <= n && p == Skip(d, cur, n) && !(first && At(d, p) == Close(keyed))
    requires LeadStep(d, p, n, keyed) == Next(v) && v <= n && JsonLength(d, v, n) == r > 0
    requires AfterValue(d, start, v + r, n, keyed) == t
    ensures EntryStep(d, start, cur, first, n, keyed) == t
  {
    StepAtValue(d, start, cur, first, n, keyed, v);
  }

  lemma JsonCases(d: bytes, i: nat, n: nat, p: nat)
    requires i < n && p == Skip(d, i, n)
    ensures var r := if At(d, p) == OPEN_ARRAY then ContainerLength(d, p, n, false)
                     else if At(d, p) == OPEN_OBJECT then ContainerLength(d, p, n, true)
                     else if At(d, p) == QUOTE then StringLength(d, p, n)
                     else ValueLength(d, p, n);
            JsonLength(d, i, n) == if r <= 0 then r else p - i + r
  {
  }
}
