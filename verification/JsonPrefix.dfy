/**
 A document that has not arrived completely, with anything behind it in memory: the scanner
 takes what stands there for the rest of the document if it begins with the closing bytes
 that the document still lacks; else it asks for more, except that it rejects the data that
 end right after a structural comma.
 */
module JsonPrefix {
  import opened Bytes
  import opened JsonScan
  import opened JsonTree
  import opened JsonPlaces
  import opened JsonComplete

  /** The data, which end at `n`, end with a comma of an array or object of the document at `i`. */
  predicate EndsAtComma(j: Json, i: nat, n: nat)
    decreases j, 0
  {
    j.Compound? && i < n && EntriesEndAtComma(j.entries, i + 1, n)
  }

  predicate EntriesEndAtComma(x: Entries, i: nat, n: nat)
    decreases x, 1
  {
    var p := i + KeySize(x.key) + |x.lead|;
    var e := p + Size(x.value);
    var q := e + |x.after|;
    if n < e then p < n && EndsAtComma(x.value, p, n)
    else x.More? && (n == q + 1 || (q + 1 < n && EntriesEndAtComma(x.rest, q + 1, n)))
  }

  /**
   The closing bytes, innermost first, that would complete the document at `i` for the
   scanner when the data end at `n`; none where nothing can: in a key, a literal or behind a
   backslash, in front of a value of an object, and in the blanks behind a comma.
   */
  function Lacking(j: Json, i: nat, n: nat): Option<bytes>
    decreases j, 0
  {
    match j
    case Leaf(Number, _) => Some([])
    case Leaf(Literal, _) => None
    case Leaf(String, text) => if i < n <= i + |text| && text[n - i - 1] == BACKSLASH then None else Some([QUOTE])
    case Leaf(EmptyArray, _) => Some([CLOSE_ARRAY])
    case Leaf(EmptyObject, _) => Some([CLOSE_OBJECT])
    case Compound(keyed, entries) => LackingIn(entries, keyed, true, i + 1, n)
  }

  function LackingIn(x: Entries, keyed: bool, first: bool, i: nat, n: nat): Option<bytes>
    decreases x, 1
  {
    var p := i + KeySize(x.key) + |x.lead|;
    var e := p + Size(x.value);
    var q := e + |x.after|;
    if n <= i + LeadingBlanks(x, keyed) then if first || n == i then Some([Close(keyed)]) else None
    else if n <= p then None
    else if n < e then ThenClose(Lacking(x.value, p, n), keyed)
    else if n <= q || x.Last? then Some([Close(keyed)])
    else LackingIn(x.rest, keyed, false, q + 1, n)
  }

  /** The blanks at the start of an entry. */
  function LeadingBlanks(x: Entries, keyed: bool): nat {
    if keyed && x.key.Key? then |x.key.before| else |x.lead|
  }

  function ThenClose(s: Option<bytes>, keyed: bool): Option<bytes> {
    if s.Some? then Some(s.value + [Close(keyed)]) else None
  }

  /** These bytes stand at `n`. */
  predicate Stands(d: bytes, n: nat, s: bytes)
    decreases |s|
  {
    s == [] || (At(d, n) == s[0] && Stands(d, n + 1, s[1..]))
  }

  lemma {:induction false} StandsThen(d: bytes, n: nat, s: bytes, c: byte)
    ensures Stands(d, n, s + [c]) <==> Stands(d, n, s) && At(d, n + |s|) == c
    decreases |s|
  {
    if s == [] {
      assert [] + [c] == [c] && [c][1..] == [];
    } else {
      assert (s + [c])[1..] == s[1..] + [c];
      StandsThen(d, n + 1, s[1..], c);
    }
  }

  /** What the scanner, started at `start`, makes of data that end at `n`. */
  function Outcome(d: bytes, n: nat, start: nat, lacking: Option<bytes>, comma: bool): int {
    if lacking.Some? && Stands(d, n, lacking.value) then n + |lacking.value| - start
    else if comma && lacking.Some? && lacking.value != [] && At(d, n) != lacking.value[0] then -1
    else 0
  }

  lemma CutNumber(d: bytes, i: nat, text: bytes, n: nat)
    requires Reads(d, i, text, n) && NumberText(text) && i < n <= i + |text|
    ensures ValueLength(d, i, n) in {0, n - i}
    ensures EndsNumber(At(d, n)) ==> ValueLength(d, i, n) == n - i
  {
    ReadsAt(d, i, text, n);
    NumberStops(d, i + 1, n);
    assert At(d, i) == text[0];
    assert NumberStop(d, i + 1, n) == n;
  }

  lemma CutLiteral(d: bytes, i: nat, text: bytes, n: nat)
    requires Reads(d, i, text, n) && text in {NULL_TEXT, TRUE_TEXT, FALSE_TEXT} && i < n < i + |text|
    ensures ValueLength(d, i, n) == 0
  {
    ReadsAt(d, i, text, n);
    assert At(d, i + 0) == text[0];
    assert StartOf(d, i, n, text);
    assert text != NULL_TEXT ==> text[0] != NULL_TEXT[0];
    assert text != TRUE_TEXT ==> text[0] != TRUE_TEXT[0];
    assert text != FALSE_TEXT ==> text[0] != FALSE_TEXT[0];
  }

  lemma CutString(d: bytes, i: nat, text: bytes, n: nat)
    requires Reads(d, i, text, n) && StringText(text) && Printable(text)
    requires i < n < i + |text|
    ensures StringLength(d, i, n) == if At(d, n) == QUOTE && text[n - i - 1] != BACKSLASH then n + 1 - i else 0
  {
    ReadsAt(d, i, text, n);
    RunsOver(d, i, text, n);
    StringStops(d, i + 1, n);
    assert At(d, n - 1) == text[n - 1 - i];
    assert forall k {:trigger InString(d, k)} :: i < k < n ==> InString(d, k);
  }

  lemma CutEmpty(d: bytes, i: nat, text: bytes, keyed: bool, n: nat)
    requires Reads(d, i, text, n) && Enclosed(Open(keyed), text, Close(keyed)) && BlankInside(text)
    requires i < n < i + |text|
    ensures EntriesLength(d, i, i + 1, true, n, keyed) == if At(d, n) == Close(keyed) then n + 1 - i else 0
  {
    ReadsAt(d, i, text, n);
    SkipStops(d, i + 1, n);
    assert Skip(d, i + 1, n) == n;
    assert keyed ==> KeyStep(d, n, n) == Stop(0);
    assert At(d, n) != Close(keyed) ==> EntryStep(d, i, i + 1, true, n, keyed) == Stop(0);
  }

  lemma OutcomeOfOne(d: bytes, n: nat, start: nat, c: byte, comma: bool)
    requires start < n
    ensures Outcome(d, n, start, Some([c]), comma) == if At(d, n) == c then n + 1 - start else if comma then -1 else 0
  {
    assert [c][1..] == [];
    assert Stands(d, n + 1, []);
    assert Stands(d, n, [c]) <==> At(d, n) == c;
  }

  /** What is known of the result for a value in which the data end. */
  ghost predicate CutResult(d: bytes, i: nat, j: Json, n: nat, r: int) {
    if IsNumber(j) then r in {0, n - i} && (EndsNumber(At(d, n)) ==> r == n - i)
    else r == Outcome(d, n, i, Lacking(j, i, n), EndsAtComma(j, i, n))
  }

  lemma CutLeaf(d: bytes, i: nat, kind: Kind, text: bytes, n: nat)
    requires Reads(d, i, text, n) && i < n < i + |text|
    requires LeafText(kind, text) && Scannable(Leaf(kind, text))
    ensures CutResult(d, i, Leaf(kind, text), n, JsonLength(d, i, n))
  {
    ValueStart(d, i, Leaf(kind, text), n);
    Dispatch(d, i, n);
    match kind
    case Number => CutNumber(d, i, text, n);
    case Literal => CutLiteral(d, i, text, n);
    case String =>
      CutString(d, i, text, n);
      OutcomeOfOne(d, n, i, QUOTE, false);
    case EmptyArray =>
      CutEmpty(d, i, text, false, n);
      OutcomeOfOne(d, n, i, CLOSE_ARRAY, false);
    case EmptyObject =>
      CutEmpty(d, i, text, true, n);
      OutcomeOfOne(d, n, i, CLOSE_OBJECT, false);
  }

  /** The data end inside a value. */
  lemma {:induction false} CutValue(d: bytes, i: nat, j: Json, n: nat)
    requires Lies(d, i, j, n) && Scannable(j) && i < n < i + Size(j)
    ensures CutResult(d, i, j, n, JsonLength(d, i, n))
    decreases j, 0
  {
    match j
    case Leaf(kind, text) => CutLeaf(d, i, kind, text, n);
    case Compound(keyed, entries) =>
      Dispatch(d, i, n);
      CutEntries(d, i, i + 1, true, entries, keyed, n);
  }

  /** Behind a value that ends where the data end or beyond, the loop returns. */
  lemma LoopReturns(d: bytes, start: nat, cur: nat, first: bool, n: nat, keyed: bool, v: nat, r: int, t: nat)
    requires start < cur <= n && !(first && At(d, Skip(d, cur, n)) == Close(keyed))
    requires LeadStep(d, Skip(d, cur, n), n, keyed) == Next(v) && cur <= v <= n
    requires r == JsonLength(d, v, n) && (r > 0 ==> n <= t == Skip(d, v + r, n))
    ensures EntriesLength(d, start, cur, first, n, keyed)
         == if r <= 0 then r else if At(d, t) == Close(keyed) then t + 1 - start else 0
  {
    StepAtValue(d, start, cur, first, n, keyed, v);
  }

  /** The loop around a value that lacks these bytes. */
  lemma OuterOutcome(d: bytes, n: nat, start: nat, p: nat, lacking: Option<bytes>, comma: bool, keyed: bool)
    requires start < p < n && (comma ==> lacking.Some? && lacking.value != [])
    ensures Outcome(d, n, start, ThenClose(lacking, keyed), comma)
         == OuterResult(d, start, p, Outcome(d, n, p, lacking, comma), keyed)
  {
    if lacking.Some? {
      StandsThen(d, n, lacking.value, Close(keyed));
      if lacking.value != [] {
        assert (lacking.value + [Close(keyed)])[0] == lacking.value[0];
      }
    }
  }

  /** What the loop makes of a value's result that reaches to the end of the data or beyond. */
  function OuterResult(d: bytes, start: nat, p: nat, r: int, keyed: bool): int {
    if r <= 0 then r else if At(d, p + r) == Close(keyed) then p + r + 1 - start else 0
  }

  /** A comma at the end of the data is followed by the closer of its container. */
  lemma {:induction false} CommaLacks(j: Json, i: nat, n: nat)
    requires EndsAtComma(j, i, n)
    ensures Lacking(j, i, n).Some? && Lacking(j, i, n).value != []
    decreases j, 0
  {
    CommaLacksIn(j.entries, j.keyed, true, i + 1, n);
  }

  lemma {:induction false} CommaLacksIn(x: Entries, keyed: bool, first: bool, i: nat, n: nat)
    requires EntriesEndAtComma(x, i, n)
    ensures LackingIn(x, keyed, first, i, n).Some? && LackingIn(x, keyed, first, i, n).value != []
    decreases x, 1
  {
    var p := i + KeySize(x.key) + |x.lead|;
    if n < p + Size(x.value) {
      CommaLacks(x.value, p, n);
    } else if n > p + Size(x.value) + |x.after| + 1 {
      CommaLacksIn(x.rest, keyed, false, p + Size(x.value) + |x.after| + 1, n);
    }
  }

  /** A comma is never the end of a document. */
  lemma {:induction false} CommaIsInside(j: Json, i: nat, n: nat)
    requires EndsAtComma(j, i, n)
    ensures n < i + Size(j)
    decreases j, 0
  {
    CommaIsInsideEntries(j.entries, i + 1, n);
  }

  lemma {:induction false} CommaIsInsideEntries(x: Entries, i: nat, n: nat)
    requires EntriesEndAtComma(x, i, n)
    ensures n < i + SizeEntries(x)
    decreases x, 1
  {
    var p := i + KeySize(x.key) + |x.lead|;
    if n >= p + Size(x.value) && n > p + Size(x.value) + |x.after| + 1 {
      CommaIsInsideEntries(x.rest, p + Size(x.value) + |x.after| + 1, n);
    }
  }

  /** Where the loop looks for the value that lies at `p`: at `v`. */
  lemma LookedFor(d: bytes, i: nat, key: Key, keyed: bool, n: nat, c: nat, p: nat) returns (v: nat)
    requires KeyLies(d, i, key, keyed, n) && (key.Key? ==> Printable(key.name)) && c == i + KeySize(key)
    requires c <= p == Skip(d, c, n) < n && StartsValue(At(d, p))
    ensures At(d, Skip(d, i, n)) != Close(keyed) && LeadStep(d, Skip(d, i, n), n, keyed) == Next(v)
    ensures i <= v <= p
    ensures JsonLength(d, v, n) == var r := JsonLength(d, p, n); if r <= 0 then r else p - v + r
  {
    if keyed {
      WholeKey(d, i, key, n);
      SkippedBlanks(d, c, p, n);
      v := c;
    } else {
      v := p;
    }
  }

  lemma LookedForAt(d: bytes, i: nat, x: Entries, keyed: bool, n: nat, c: nat, p: nat) returns (v: nat)
    requires EntriesLie(d, i, x, keyed, n) && (x.key.Key? ==> Printable(x.key.name)) && c == i + KeySize(x.key)
    requires p == c + |x.lead| < n
    ensures At(d, Skip(d, i, n)) != Close(keyed) && LeadStep(d, Skip(d, i, n), n, keyed) == Next(v)
    ensures i <= v <= p
    ensures JsonLength(d, v, n) == var r := JsonLength(d, p, n); if r <= 0 then r else p - v + r
  {
    BlanksThenValue(d, c, x.lead, p, x.value, n);
    v := LookedFor(d, i, x.key, keyed, n, c, p);
  }

  lemma {:induction false} ValueNotEmpty(d: bytes, i: nat, j: Json, n: nat)
    requires Lies(d, i, j, n)
    ensures Size(j) > 0
  {
  }

  /** The loop at a value whose result reaches to the end of the data or beyond. */
  lemma EntryOutcome(d: bytes, start: nat, cur: nat, first: bool, n: nat, keyed: bool, p: nat, v: nat)
    requires start < cur <= v <= p < n && At(d, Skip(d, cur, n)) != Close(keyed)
    requires LeadStep(d, Skip(d, cur, n), n, keyed) == Next(v)
    requires var r := JsonLength(d, p, n);
             (r > 0 ==> n <= p + r) && JsonLength(d, v, n) == if r <= 0 then r else p - v + r
    ensures EntriesLength(d, start, cur, first, n, keyed) == OuterResult(d, start, p, JsonLength(d, p, n), keyed)
  {
    var r := JsonLength(d, v, n);
    LoopReturns(d, start, cur, first, n, keyed, v, r, v + if r > 0 then r else 0);
  }

  /** The data end in the value of an entry. */
  lemma {:induction false} CutInValue(d: bytes, start: nat, cur: nat, first: bool, x: Entries, keyed: bool, n: nat,
                                      c: nat, p: nat, e: nat)
    requires EntriesLie(d, cur, x, keyed, n) && ScannableEntries(x) && start < cur
    requires c == cur + KeySize(x.key) && p == c + |x.lead| && e == p + Size(x.value) && p < n < e
    ensures EntriesLength(d, start, cur, first, n, keyed)
         == Outcome(d, n, start, LackingIn(x, keyed, first, cur, n), EntriesEndAtComma(x, cur, n))
    decreases x, 1
  {
    EntryParts(d, cur, x, keyed, n, c, p, e, e + |x.after|);
    BlanksThenValue(d, c, x.lead, p, x.value, n);
    var v := LookedFor(d, cur, x.key, keyed, n, c, p);
    CutValue(d, p, x.value, n);
    EntryOutcome(d, start, cur, first, n, keyed, p, v);
    CommaInEntry(x, cur, p, e, n);
    LackingInValue(x, keyed, first, cur, n, p);
    AroundValue(d, start, x.value, keyed, n, p, JsonLength(d, p, n));
  }

  /** The closer behind a value in which the data end. */
  lemma {:induction false} AroundValue(d: bytes, start: nat, j: Json, keyed: bool, n: nat, p: nat, r: int)
    requires start < p < n && CutResult(d, p, j, n, r)
    ensures OuterResult(d, start, p, r, keyed)
         == Outcome(d, n, start, ThenClose(Lacking(j, p, n), keyed), EndsAtComma(j, p, n))
  {
    if IsNumber(j) {
      assert [] + [Close(keyed)] == [Close(keyed)];
      OutcomeOfOne(d, n, start, Close(keyed), false);
    } else {
      if EndsAtComma(j, p, n) {
        CommaLacks(j, p, n);
      }
      OuterOutcome(d, n, start, p, Lacking(j, p, n), EndsAtComma(j, p, n), keyed);
    }
  }

  lemma {:induction false} LackingInValue(x: Entries, keyed: bool, first: bool, i: nat, n: nat, p: nat)
    requires ProperKey(x.key, keyed)
    requires p == i + KeySize(x.key) + |x.lead| && p < n < p + Size(x.value)
    ensures LackingIn(x, keyed, first, i, n) == ThenClose(Lacking(x.value, p, n), keyed)
  {
  }

  lemma {:induction false} CommaInEntry(x: Entries, i: nat, p: nat, e: nat, n: nat)
    requires p == i + KeySize(x.key) + |x.lead| && e == p + Size(x.value) && n <= e + |x.after|
    ensures EntriesEndAtComma(x, i, n) <==> p < n < e && EndsAtComma(x.value, p, n)
  {
  }

  /** The value of an entry is complete and the data end in the blanks behind it. */
  lemma {:induction false} CutBehindValue(d: bytes, start: nat, cur: nat, first: bool, x: Entries, keyed: bool, n: nat,
                                          c: nat, p: nat, e: nat)
    requires EntriesLie(d, cur, x, keyed, n) && ScannableEntries(x) && start < cur
    requires c == cur + KeySize(x.key) && p == c + |x.lead| && e == p + Size(x.value) && p < e <= n <= e + |x.after|
    ensures EntriesLength(d, start, cur, first, n, keyed)
         == Outcome(d, n, start, LackingIn(x, keyed, first, cur, n), EntriesEndAtComma(x, cur, n))
    decreases x, 1
  {
    LoopBehindValue(d, start, cur, first, x, keyed, n, c, p, e);
    KeyIsProper(d, cur, x, keyed, n);
    CommaInEntry(x, cur, p, e, n);
    LackingBehindValue(x, keyed, first, cur, n, p, e);
    OutcomeOfOne(d, n, start, Close(keyed), false);
  }

  lemma KeyIsProper(d: bytes, i: nat, x: Entries, keyed: bool, n: nat)
    requires EntriesLie(d, i, x, keyed, n)
    ensures ProperKey(x.key, keyed)
  {
  }

  lemma {:induction false} LoopBehindValue(d: bytes, start: nat, cur: nat, first: bool, x: Entries, keyed: bool, n: nat,
                                           c: nat, p: nat, e: nat)
    requires EntriesLie(d, cur, x, keyed, n) && ScannableEntries(x) && start < cur
    requires c == cur + KeySize(x.key) && p == c + |x.lead| && e == p + Size(x.value) && p < e <= n <= e + |x.after|
    ensures EntriesLength(d, start, cur, first, n, keyed) == if At(d, n) == Close(keyed) then n + 1 - start else 0
    decreases x, 1, 0
  {
    EntryParts(d, cur, x, keyed, n, c, p, e, e + |x.after|);
    var v := LookedForAt(d, cur, x, keyed, n, c, p);
    var r := BehindResult(d, p, x.value, e, x.after, n);
    LoopReturns(d, start, cur, first, n, keyed, v, JsonLength(d, v, n), n);
  }

  lemma {:induction false} LackingBehindValue(x: Entries, keyed: bool, first: bool, i: nat, n: nat, p: nat, e: nat)
    requires ProperKey(x.key, keyed)
    requires p == i + KeySize(x.key) + |x.lead| && e == p + Size(x.value) && p < e <= n <= e + |x.after|
    ensures LackingIn(x, keyed, first, i, n) == Some([Close(keyed)])
  {
  }

  /** The result for a complete value with blanks behind it up to the end of the data. */
  lemma {:induction false} BehindResult(d: bytes, p: nat, j: Json, e: nat, after: bytes, n: nat) returns (r: int)
    requires Lies(d, p, j, n) && Scannable(j) && SpacedAfter(j, after) && BlanksLie(d, e, after, n)
    requires e == p + Size(j) && p < e <= n <= e + |after|
    ensures r == JsonLength(d, p, n) && r >= 0
    ensures r > 0 ==> Skip(d, p + r, n) == n
    ensures r == 0 ==> !EndsNumber(At(d, n))
    decreases j, 1
  {
    r := JsonLength(d, p, n);
    if e == n && IsNumber(j) {
      ValueStart(d, p, j, n);
      Dispatch(d, p, n);
      CutNumber(d, p, j.text, n);
    } else {
      ReadsAt(d, e, after, n);
      assert e < n ==> At(d, e) == after[0];
      WholeValue(d, p, j, n);
      SkipBlanks(d, e, after, n);
    }
  }

  /** The data end in front of an entry's value. */
  lemma {:induction false} CutBeforeValue(d: bytes, start: nat, cur: nat, first: bool, x: Entries, keyed: bool, n: nat)
    requires EntriesLie(d, cur, x, keyed, n) && ScannableEntries(x) && start < cur
    requires cur <= n <= cur + KeySize(x.key) + |x.lead| && (n == cur ==> first)
    ensures EntriesLength(d, start, cur, first, n, keyed)
         == Outcome(d, n, start, LackingIn(x, keyed, first, cur, n), EntriesEndAtComma(x, cur, n))
  {
    var c := cur + KeySize(x.key);
    var p := c + |x.lead|;
    var e := p + Size(x.value);
    EntryParts(d, cur, x, keyed, n, c, p, e, e + |x.after|);
    ValueNotEmpty(d, p, x.value, n);
    CommaInEntry(x, cur, p, e, n);
    OutcomeOfOne(d, n, start, Close(keyed), false);
    if n <= cur + LeadingBlanks(x, keyed) {
      SkipBlanks(d, cur, if keyed then x.key.before else x.lead, n);
      NothingThere(d, start, cur, first, n, keyed);
    } else if n <= c {
      CutKey(d, cur, x.key, n);
      KeyRefused(d, start, cur, first, n, 0);
    } else {
      WholeKey(d, cur, x.key, n);
      SkipBlanks(d, c, x.lead, n);
      SkippedBlanks(d, c, n, n);
      EntryStops(d, start, cur, first, n, true, c, 0);
    }
  }

  /** Only blanks are left of the data. */
  lemma NothingThere(d: bytes, start: nat, cur: nat, first: bool, n: nat, keyed: bool)
    requires start < cur <= n && Skip(d, cur, n) == n
    ensures EntriesLength(d, start, cur, first, n, keyed) == if first && At(d, n) == Close(keyed) then n + 1 - start else 0
  {
    assert keyed ==> KeyStep(d, n, n) == Stop(0);
    assert JsonLength(d, n, n) == 0;
  }

  /** The data end in a key, or right behind its colon. */
  lemma CutKey(d: bytes, cur: nat, key: Key, n: nat)
    requires key.Key? && KeyLies(d, cur, key, true, n) && Printable(key.name)
    requires cur + |key.before| < n <= cur + KeySize(key)
    ensures var k := Skip(d, cur, n);
            k <= n && At(d, k) != CLOSE_OBJECT && KeyStep(d, k, n) == Stop(0)
  {
    var k := cur + |key.before|;
    KeyStart(d, cur, key, n);
    if n < k + |key.name| {
      CutString(d, k, key.name, n);
    } else {
      WholeString(d, k, key.name, n);
      SkipBlanks(d, k + |key.name|, key.mid, n);
    }
  }

  lemma KeyStart(d: bytes, cur: nat, key: Key, n: nat)
    requires key.Key? && KeyLies(d, cur, key, true, n) && cur + |key.before| < n
    ensures Skip(d, cur, n) == cur + |key.before| && At(d, cur + |key.before|) == QUOTE
  {
    var k := cur + |key.before|;
    ReadsAt(d, k, key.name, n);
    assert At(d, k) == key.name[0];
    SkipBlanks(d, cur, key.before, n);
  }

  lemma {:induction false} CommaBehindEntry(x: Entries, i: nat, q: nat, n: nat)
    requires q == i + KeySize(x.key) + |x.lead| + Size(x.value) + |x.after| < n && x.More?
    ensures EntriesEndAtComma(x, i, n) <==> n == q + 1 || EntriesEndAtComma(x.rest, q + 1, n)
  {
    assert n == q + 1 ==> !EntriesEndAtComma(x.rest, q + 1, n);
  }

  lemma {:induction false} CutEntries(d: bytes, start: nat, cur: nat, first: bool, x: Entries, keyed: bool, n: nat)
    requires EntriesLie(d, cur, x, keyed, n) && ScannableEntries(x) && start < cur
    requires cur <= n < cur + SizeEntries(x) && (n == cur ==> first)
    ensures EntriesLength(d, start, cur, first, n, keyed)
         == Outcome(d, n, start, LackingIn(x, keyed, first, cur, n), EntriesEndAtComma(x, cur, n))
    decreases x, 4
  {
    var c := cur + KeySize(x.key);
    var p := c + |x.lead|;
    var e := p + Size(x.value);
    EntryParts(d, cur, x, keyed, n, c, p, e, e + |x.after|);
    ValueNotEmpty(d, p, x.value, n);
    if n <= p {
      CutBeforeValue(d, start, cur, first, x, keyed, n);
    } else if n < e {
      CutInValue(d, start, cur, first, x, keyed, n, c, p, e);
    } else if n <= e + |x.after| {
      CutBehindValue(d, start, cur, first, x, keyed, n, c, p, e);
    } else {
      CutMore(d, start, cur, first, x, keyed, n);
    }
  }

  lemma {:induction false} CutMore(d: bytes, start: nat, cur: nat, first: bool, x: Entries, keyed: bool, n: nat)
    requires EntriesLie(d, cur, x, keyed, n) && ScannableEntries(x) && start < cur
    requires cur + KeySize(x.key) + |x.lead| + Size(x.value) + |x.after| < n < cur + SizeEntries(x)
    ensures EntriesLength(d, start, cur, first, n, keyed)
         == Outcome(d, n, start, LackingIn(x, keyed, first, cur, n), EntriesEndAtComma(x, cur, n))
    decreases x, 3
  {
    var q, good := WholeEntry(d, start, cur, first, x, keyed, n);
    CommaBehindEntry(x, cur, q, n);
    LackingBehind(x, keyed, first, cur, n, q);
    CutBehindComma(d, start, x.rest, keyed, n, q, EntriesLength(d, start, cur, first, n, keyed));
  }

  /** The rest of the entries, behind the comma at `q`. */
  lemma {:induction false} CutBehindComma(d: bytes, start: nat, rest: Entries, keyed: bool, n: nat, q: nat, r: int)
    requires EntriesLie(d, q + 1, rest, keyed, n) && ScannableEntries(rest)
    requires start <= q < n < q + 1 + SizeEntries(rest)
    requires r == if q + 1 < n then EntriesLength(d, start, q + 1, false, n, keyed)
                  else if At(d, n) == Close(keyed) then n + 1 - start else -1
    ensures r == Outcome(d, n, start, LackingIn(rest, keyed, false, q + 1, n), n == q + 1 || EntriesEndAtComma(rest, q + 1, n))
    decreases rest, 5
  {
    if q + 1 < n {
      CutEntries(d, start, q + 1, false, rest, keyed, n);
    } else {
      LackingAtComma(rest, keyed, n);
      OutcomeOfOne(d, n, start, Close(keyed), true);
    }
  }

  lemma {:induction false} LackingBehind(x: Entries, keyed: bool, first: bool, i: nat, n: nat, q: nat)
    requires q == i + KeySize(x.key) + |x.lead| + Size(x.value) + |x.after| < n && x.More? && ProperKey(x.key, keyed)
    requires Size(x.value) > 0
    ensures LackingIn(x, keyed, first, i, n) == LackingIn(x.rest, keyed, false, q + 1, n)
  {
  }

  lemma {:induction false} LackingAtComma(x: Entries, keyed: bool, i: nat)
    ensures LackingIn(x, keyed, false, i, i) == Some([Close(keyed)])
  {
  }

  /**
   The data are a proper prefix of blanks and document, whatever comes behind them: the
   scanner is content, with the closing bytes counted, exactly if what comes begins with
   those that the document lacks.  Otherwise the document is incomplete, except right behind
   a structural comma that is not followed by a closer, which is taken for an error.
   */
  lemma {:induction false} DocumentCut(d: bytes, i: nat, blank: bytes, j: Json, n: nat)
    requires Blank(blank) && WellFormed(j) && Scannable(j) && Bracketed(j)
    requires Reads(d, i, blank + Render(j), n) && i + |blank| < n < i + |blank| + |Render(j)|
    ensures JsonLength(d, i, n)
         == Outcome(d, n, i, Lacking(j, i + |blank|, n), EndsAtComma(j, i + |blank|, n))
  {
    var p := i + |blank|;
    ReadsSplit(d, i, blank, Render(j), n);
    ReadsLies(d, p, j, n);
    RenderSize(j);
    ValueStart(d, p, j, n);
    SkipBlanks(d, i, blank, n);
    CutValue(d, p, j, n);
    SkippedBlanks(d, i, p, n);
  }

  /** Data that end before the document starts are incomplete. */
  lemma {:induction false} BlanksCut(d: bytes, i: nat, blank: bytes, j: Json, n: nat)
    requires Blank(blank) && Reads(d, i, blank + Render(j), n) && i <= n <= i + |blank|
    ensures JsonLength(d, i, n) == 0
  {
    ReadsSplit(d, i, blank, Render(j), n);
    SkipBlanks(d, i, blank, n);
    SkippedBlanks(d, i, n, n);
  }

  /** No closing byte is a NUL. */
  lemma {:induction false} LackingIsVisible(j: Json, i: nat, n: nat)
    requires Lacking(j, i, n).Some?
    ensures NUL !in Lacking(j, i, n).value && (!IsNumber(j) ==> Lacking(j, i, n).value != [])
    decreases j, 0
  {
    if j.Compound? {
      LackingInIsVisible(j.entries, j.keyed, true, i + 1, n);
    }
  }

  lemma {:induction false} LackingInIsVisible(x: Entries, keyed: bool, first: bool, i: nat, n: nat)
    requires LackingIn(x, keyed, first, i, n).Some?
    ensures NUL !in LackingIn(x, keyed, first, i, n).value && LackingIn(x, keyed, first, i, n).value != []
    decreases x, 1
  {
    var p := i + KeySize(x.key) + |x.lead|;
    var q := p + Size(x.value) + |x.after|;
    if p < n < p + Size(x.value) && Lacking(x.value, p, n).Some? {
      LackingIsVisible(x.value, p, n);
    }
    if x.More? && LackingIn(x.rest, keyed, false, q + 1, n).Some? {
      LackingInIsVisible(x.rest, keyed, false, q + 1, n);
    }
  }

  /**
   With a NUL behind the data, as a fresh read leaves it: the document is incomplete, except
   right behind a structural comma, which the scanner takes for an error.
   */
  lemma {:induction false} DocumentPrefix(d: bytes, i: nat, blank: bytes, j: Json, n: nat)
    requires Blank(blank) && WellFormed(j) && Scannable(j) && Bracketed(j)
    requires Reads(d, i, blank + Render(j), n) && i <= n < i + |blank| + |Render(j)| && At(d, n) == NUL
    ensures JsonLength(d, i, n) == if n > i + |blank| && EndsAtComma(j, i + |blank|, n) then -1 else 0
  {
    if n <= i + |blank| {
      BlanksCut(d, i, blank, j, n);
    } else {
      DocumentCut(d, i, blank, j, n);
      NothingStands(d, i, j, i + |blank|, n);
    }
  }

  lemma {:induction false} NothingStands(d: bytes, start: nat, j: Json, i: nat, n: nat)
    requires At(d, n) == NUL && !IsNumber(j)
    ensures Outcome(d, n, start, Lacking(j, i, n), EndsAtComma(j, i, n)) == if EndsAtComma(j, i, n) then -1 else 0
  {
    var lacking := Lacking(j, i, n);
    if lacking.Some? {
      LackingIsVisible(j, i, n);
      assert lacking.value[0] in lacking.value;
    }
    if EndsAtComma(j, i, n) {
      CommaLacks(j, i, n);
    }
  }
}
