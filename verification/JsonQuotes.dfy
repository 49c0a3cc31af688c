/**
 Documents whose strings may end with a backslash.  The scanner takes a quotation mark behind
 a backslash for a part of the string, so it takes such a string for longer than it is.  What
 it accepts is followed by a reader that tells the inside of strings from the outside as the
 scanner does; a document leads that reader back outside exactly if no string ends with a
 backslash.
 */
module JsonQuotes {
  import opened Bytes
  import opened JsonScan
  import opened JsonTree
  import opened JsonPlaces
  import opened JsonComplete
  import opened JsonLimits
  import opened JsonLocal

  datatype Place = Outside | Inside | Lost

  /** A backslash outside strings is nothing the scanner accepts. */
  function Turn(d: bytes, k: nat, p: Place): Place {
    match p
    case Outside => if At(d, k) == QUOTE then Inside else if At(d, k) == BACKSLASH then Lost else Outside
    case Inside => if At(d, k) == QUOTE && !(k > 0 && At(d, k - 1) == BACKSLASH) then Outside else Inside
    case Lost => Lost
  }

  function Walk(d: bytes, i: nat, e: nat, p: Place): Place
    decreases e - i
  {
    if i >= e then p else Walk(d, i + 1, e, Turn(d, i, p))
  }

  lemma {:induction false} WalkOn(d: bytes, i: nat, m: nat, e: nat, p: Place)
    requires i <= m <= e
    ensures Walk(d, i, e, p) == Walk(d, m, e, Walk(d, i, m, p))
    decreases m - i
  {
    if i < m {
      WalkOn(d, i + 1, m, e, Turn(d, i, p));
    }
  }

  predicate Unquoted(c: byte) {
    c != QUOTE && c != BACKSLASH
  }

  lemma {:induction false} WalkPlain(d: bytes, i: nat, e: nat, p: Place)
    requires forall k {:trigger At(d, k)} :: i <= k < e ==> Unquoted(At(d, k))
    ensures Walk(d, i, e, p) == p
    decreases e - i
  {
    if i < e {
      assert Unquoted(At(d, i));
      WalkPlain(d, i + 1, e, p);
    }
  }

  lemma {:induction false} WalkLost(d: bytes, i: nat, e: nat)
    ensures Walk(d, i, e, Lost) == Lost
    decreases e - i
  {
    if i < e {
      WalkLost(d, i + 1, e);
    }
  }

  lemma WalkOne(d: bytes, i: nat, p: Place)
    ensures Walk(d, i, i + 1, p) == Turn(d, i, p)
  {
    assert Walk(d, i + 1, i + 1, Turn(d, i, p)) == Turn(d, i, p);
  }

  // What the scanner accepts.

  lemma {:induction false} WalkInString(d: bytes, i: nat, n: nat)
    requires i <= n
    ensures Walk(d, i, StringStop(d, i, n), Inside) == Inside
    decreases n - i
  {
    if i < n && InString(d, i) {
      WalkInString(d, i + 1, n);
    }
  }

  lemma StringWalk(d: bytes, i: nat, n: nat)
    requires i <= n && StringLength(d, i, n) > 0
    ensures Walk(d, i, i + StringLength(d, i, n), Outside) == Outside
  {
    var s := StringStop(d, i + 1, n);
    WalkOne(d, i, Outside);
    WalkOn(d, i, i + 1, s, Outside);
    WalkInString(d, i + 1, n);
    WalkOn(d, i, s, s + 1, Outside);
    WalkOne(d, s, Inside);
  }

  lemma BlanksWalk(d: bytes, i: nat, n: nat)
    ensures Walk(d, i, Skip(d, i, n), Outside) == Outside
  {
    SkipStops(d, i, n);
    WalkPlain(d, i, Skip(d, i, n), Outside);
  }

  lemma WordWalk(d: bytes, i: nat, n: nat, word: bytes)
    requires StartsWith(d, i, n, word) && forall k :: 0 <= k < |word| ==> Unquoted(word[k])
    ensures Walk(d, i, i + |word|, Outside) == Outside
  {
    forall k {:trigger At(d, k)} | i <= k < i + |word| ensures Unquoted(At(d, k)) {
      assert At(d, i + (k - i)) == word[k - i];
    }
    WalkPlain(d, i, i + |word|, Outside);
  }

  lemma ValueWalk(d: bytes, i: nat, n: nat)
    requires i <= n && ValueLength(d, i, n) > 0
    ensures Walk(d, i, i + ValueLength(d, i, n), Outside) == Outside
  {
    if IsNumberStart(At(d, i)) {
      NotALiteral(d, i, n);
      NumberStops(d, i + 1, n);
      WalkPlain(d, i, NumberStop(d, i + 1, n), Outside);
    } else if StartsWith(d, i, n, NULL_TEXT) {
      WordWalk(d, i, n, NULL_TEXT);
    } else if StartsWith(d, i, n, TRUE_TEXT) {
      WordWalk(d, i, n, TRUE_TEXT);
    } else {
      WordWalk(d, i, n, FALSE_TEXT);
    }
  }

  lemma LeadWalk(d: bytes, p: nat, n: nat, keyed: bool)
    requires p <= n && LeadStep(d, p, n, keyed).Next?
    ensures p <= LeadStep(d, p, n, keyed).cur <= n
    ensures Walk(d, p, LeadStep(d, p, n, keyed).cur, Outside) == Outside
  {
    if keyed {
      var q := p + StringLength(d, p, n);
      var c := Skip(d, q, n);
      StringWalk(d, p, n);
      BlanksWalk(d, q, n);
      WalkOn(d, p, q, c, Outside);
      WalkOne(d, c, Outside);
      WalkOn(d, p, c, c + 1, Outside);
    }
  }

  /** Where a step leaves off that does not fail. */
  function Reached(s: Step, start: nat): (e: nat)
    requires s.Stop? ==> s.result > 0
  {
    if s.Next? then s.cur else start + s.result
  }

  lemma AfterWalk(d: bytes, start: nat, e: nat, n: nat, keyed: bool)
    requires start < e
    requires var s := AfterValue(d, start, e, n, keyed); s.Next? || s.result > 0
    ensures var s := AfterValue(d, start, e, n, keyed);
            e <= Reached(s, start) && Walk(d, e, Reached(s, start), Outside) == Outside
  {
    var q := Skip(d, e, n);
    BlanksWalk(d, e, n);
    WalkOne(d, q, Outside);
    WalkOn(d, e, q, q + 1, Outside);
    var s := AfterValue(d, start, e, n, keyed);
    if Reached(s, start) == q + 2 {
      WalkOne(d, q + 1, Outside);
      WalkOn(d, e, q + 1, q + 2, Outside);
    }
  }

  lemma {:induction false} JsonWalk(d: bytes, i: nat, n: nat)
    requires i <= n && JsonLength(d, i, n) > 0
    ensures Walk(d, i, i + JsonLength(d, i, n), Outside) == Outside
    decreases n - i, 2, 0
  {
    var p := Skip(d, i, n);
    JsonCases(d, i, n, p);
    BlanksWalk(d, i, n);
    if At(d, p) == OPEN_ARRAY {
      ContainerWalk(d, p, n, false);
    } else if At(d, p) == OPEN_OBJECT {
      ContainerWalk(d, p, n, true);
    } else if At(d, p) == QUOTE {
      StringWalk(d, p, n);
    } else {
      ValueWalk(d, p, n);
    }
    WalkOn(d, i, p, i + JsonLength(d, i, n), Outside);
  }

  lemma {:induction false} ContainerWalk(d: bytes, i: nat, n: nat, keyed: bool)
    requires i <= n && ContainerLength(d, i, n, keyed) > 0
    ensures Walk(d, i, i + ContainerLength(d, i, n, keyed), Outside) == Outside
    decreases n - i, 1
  {
    EntriesWalk(d, i, i + 1, true, n, keyed);
    ReachesPast(d, i, i + 1, true, n, keyed);
    WalkOne(d, i, Outside);
    WalkOn(d, i, i + 1, i + ContainerLength(d, i, n, keyed), Outside);
  }

  lemma {:induction false} EntryWalk(d: bytes, start: nat, cur: nat, first: bool, n: nat, keyed: bool)
    requires start < cur <= n
    requires var s := EntryStep(d, start, cur, first, n, keyed); s.Next? || s.result > 0
    ensures var s := EntryStep(d, start, cur, first, n, keyed);
            cur <= Reached(s, start) && Walk(d, cur, Reached(s, start), Outside) == Outside
    decreases n - cur, 4
  {
    var p := Skip(d, cur, n);
    BlanksWalk(d, cur, n);
    if first && At(d, p) == Close(keyed) {
      WalkOne(d, p, Outside);
      WalkOn(d, cur, p, p + 1, Outside);
    } else {
      EntryWalkAt(d, start, cur, first, n, keyed, p, LeadStep(d, p, n, keyed).cur);
    }
  }

  lemma {:induction false} EntryWalkAt(d: bytes, start: nat, cur: nat, first: bool, n: nat, keyed: bool, p: nat, v: nat)
    requires start < cur <= n && p == Skip(d, cur, n) && Walk(d, cur, p, Outside) == Outside
    requires !(first && At(d, p) == Close(keyed)) && LeadStep(d, p, n, keyed) == Next(v)
    requires var s := EntryStep(d, start, cur, first, n, keyed); s.Next? || s.result > 0
    ensures var s := EntryStep(d, start, cur, first, n, keyed);
            cur <= Reached(s, start) && Walk(d, cur, Reached(s, start), Outside) == Outside
    decreases n - cur, 3
  {
    LeadWalk(d, p, n, keyed);
    WalkOn(d, cur, p, v, Outside);
    StepAtValue(d, start, cur, first, n, keyed, v);
    ValueWalks(d, start, v, n, keyed);
    WalkOn(d, cur, v, Reached(AfterValue(d, start, v + JsonLength(d, v, n), n, keyed), start), Outside);
  }

  lemma {:induction false} ValueWalks(d: bytes, start: nat, v: nat, n: nat, keyed: bool)
    requires start < v <= n && JsonLength(d, v, n) > 0
    requires var s := AfterValue(d, start, v + JsonLength(d, v, n), n, keyed); s.Next? || s.result > 0
    ensures var s := AfterValue(d, start, v + JsonLength(d, v, n), n, keyed);
            v <= Reached(s, start) && Walk(d, v, Reached(s, start), Outside) == Outside
    decreases n - v, 2, 1
  {
    var e := v + JsonLength(d, v, n);
    JsonWalk(d, v, n);
    AfterWalk(d, start, e, n, keyed);
    WalkOn(d, v, e, Reached(AfterValue(d, start, e, n, keyed), start), Outside);
  }

  lemma {:induction false} EntriesWalk(d: bytes, start: nat, cur: nat, first: bool, n: nat, keyed: bool)
    requires start < cur <= n && EntriesLength(d, start, cur, first, n, keyed) > 0
    ensures cur <= start + EntriesLength(d, start, cur, first, n, keyed)
    ensures Walk(d, cur, start + EntriesLength(d, start, cur, first, n, keyed), Outside) == Outside
    decreases n - cur, 5
  {
    var s := EntryStep(d, start, cur, first, n, keyed);
    var r := EntriesLength(d, start, cur, first, n, keyed);
    LengthByStep(d, start, cur, first, n, keyed, s, r);
    EntryWalk(d, start, cur, first, n, keyed);
    if s.Next? {
      EntriesWalk(d, start, s.cur, false, n, keyed);
      WalkOn(d, cur, s.cur, start + r, Outside);
    }
  }

  lemma LengthByStep(d: bytes, start: nat, cur: nat, first: bool, n: nat, keyed: bool, s: Step, r: int)
    requires start < cur <= n && s == EntryStep(d, start, cur, first, n, keyed)
    requires r == EntriesLength(d, start, cur, first, n, keyed)
    ensures if s.Next? then r == EntriesLength(d, start, s.cur, false, n, keyed) else r == s.result
  {
  }

  // What a document is.

  /** As in a well-formed document, except that strings may end with a backslash. */
  predicate LooseLeaf(kind: Kind, text: bytes) {
    if kind.String? then QuotesEscaped(text) else LeafText(kind, text)
  }

  predicate LooseKey(key: Key, keyed: bool) {
    match key
    case NoKey => !keyed
    case Key(before, name, mid) => keyed && Blank(before) && QuotesEscaped(name) && Blank(mid)
  }

  predicate Loose(j: Json) {
    match j
    case Leaf(kind, text) => LooseLeaf(kind, text)
    case Compound(keyed, entries) => LooseEntries(entries, keyed)
  }

  predicate LooseEntries(x: Entries, keyed: bool) {
    && LooseKey(x.key, keyed) && Blank(x.lead) && Loose(x.value) && Blank(x.after)
    && (x.More? ==> LooseEntries(x.rest, keyed))
  }

  predicate CleanEnd(text: bytes) {
    |text| >= 2 && text[|text| - 2] != BACKSLASH
  }

  predicate CleanKey(key: Key) {
    key.Key? ==> CleanEnd(key.name)
  }

  /** No string of the document, names included, ends with a backslash. */
  predicate Clean(j: Json) {
    match j
    case Leaf(kind, text) => kind.String? ==> CleanEnd(text)
    case Compound(_, entries) => CleanEntries(entries)
  }

  predicate CleanEntries(x: Entries) {
    CleanKey(x.key) && Clean(x.value) && (x.More? ==> CleanEntries(x.rest))
  }

  lemma {:induction false} WellFormedIsClean(j: Json)
    ensures WellFormed(j) <==> Loose(j) && Clean(j)
    decreases j, 0
  {
    if j.Compound? {
      WellFormedEntriesAreClean(j.entries, j.keyed);
    }
  }

  lemma {:induction false} WellFormedEntriesAreClean(x: Entries, keyed: bool)
    ensures WellFormedEntries(x, keyed) <==> LooseEntries(x, keyed) && CleanEntries(x)
    decreases x, 0
  {
    WellFormedIsClean(x.value);
    if x.More? {
      WellFormedEntriesAreClean(x.rest, keyed);
    }
  }

  /**
   The reader comes through these bytes: from outside strings it is back outside exactly if
   they are clean, and once it takes the outside for the inside it does not recover.
   */
  ghost predicate Turned(d: bytes, i: nat, e: nat, clean: bool) {
    (Walk(d, i, e, Outside) == Outside <==> clean) && Walk(d, i, e, Inside) != Outside
  }

  lemma TurnedOn(d: bytes, i: nat, m: nat, e: nat, a: bool, b: bool)
    requires i <= m <= e && Turned(d, i, m, a) && Turned(d, m, e, b)
    ensures Turned(d, i, e, a && b)
  {
    WalkOn(d, i, m, e, Outside);
    WalkOn(d, i, m, e, Inside);
    WalkLost(d, m, e);
  }

  lemma TurnedPlain(d: bytes, i: nat, e: nat)
    requires forall k {:trigger At(d, k)} :: i <= k < e ==> Unquoted(At(d, k))
    ensures Turned(d, i, e, true)
  {
    WalkPlain(d, i, e, Outside);
    WalkPlain(d, i, e, Inside);
  }

  /** Bytes without quotation marks and backslashes. */
  lemma TurnedText(d: bytes, i: nat, text: bytes, n: nat)
    requires Reads(d, i, text, n) && i + |text| <= n && forall k :: 0 <= k < |text| ==> Unquoted(text[k])
    ensures Turned(d, i, i + |text|, true)
  {
    ReadsAt(d, i, text, n);
    assert forall k {:trigger At(d, k)} :: i <= k < i + |text| ==> At(d, k) == text[k - i];
    TurnedPlain(d, i, i + |text|);
  }

  /** The byte in front of this place is no backslash. */
  predicate NotEscaped(d: bytes, i: nat) {
    i > 0 ==> At(d, i - 1) != BACKSLASH
  }

  lemma {:induction false} WalkEscaped(d: bytes, k: nat, e: nat)
    requires k > 0 && forall m {:trigger At(d, m)} :: k <= m < e && At(d, m) == QUOTE ==> At(d, m - 1) == BACKSLASH
    ensures Walk(d, k, e, Inside) == Inside
    decreases e - k
  {
    if k < e {
      assert At(d, k) == QUOTE ==> At(d, k - 1) == BACKSLASH;
      WalkEscaped(d, k + 1, e);
    }
  }

  /** Taken for the outside of strings, the same bytes have a backslash that does not belong there, or no mark. */
  lemma {:induction false} WalkInverted(d: bytes, k: nat, e: nat)
    requires 0 < k && At(d, k - 1) != BACKSLASH
    requires forall m {:trigger At(d, m)} :: k <= m < e && At(d, m) == QUOTE ==> At(d, m - 1) == BACKSLASH
    ensures Walk(d, k, e, Outside) != Inside
    decreases e - k
  {
    if k < e {
      assert At(d, k) != QUOTE;
      if At(d, k) == BACKSLASH {
        WalkLost(d, k + 1, e);
      } else {
        assert At(d, k + 1 - 1) != BACKSLASH;
        WalkInverted(d, k + 1, e);
      }
    }
  }

  /** A string: its three parts are the opening mark, what is inside, and the closing mark. */
  lemma TurnedString(d: bytes, i: nat, text: bytes, n: nat)
    requires QuotesEscaped(text) && Reads(d, i, text, n) && i + |text| <= n && NotEscaped(d, i)
    ensures Turned(d, i, i + |text|, CleanEnd(text))
  {
    var e := i + |text| - 1;
    StringPlaces(d, i, text, n);
    WalkEscaped(d, i + 1, e);
    WalkInverted(d, i + 1, e);
    WalkOne(d, i, Outside);
    WalkOne(d, i, Inside);
    WalkOn(d, i, i + 1, e, Outside);
    WalkOn(d, i, i + 1, e, Inside);
    WalkOne(d, e, Walk(d, i, e, Outside));
    WalkOne(d, e, Walk(d, i, e, Inside));
    WalkOn(d, i, e, e + 1, Outside);
    WalkOn(d, i, e, e + 1, Inside);
  }

  lemma StringPlaces(d: bytes, i: nat, text: bytes, n: nat)
    requires QuotesEscaped(text) && Reads(d, i, text, n) && i + |text| <= n
    ensures var e := i + |text| - 1;
            && At(d, i) == QUOTE == At(d, e) && (At(d, e - 1) == BACKSLASH <==> !CleanEnd(text))
            && forall m {:trigger At(d, m)} :: i + 1 <= m < e && At(d, m) == QUOTE ==> At(d, m - 1) == BACKSLASH
  {
    ReadsAt(d, i, text, n);
    var e := i + |text| - 1;
    assert At(d, i) == text[0] && At(d, e) == text[|text| - 1] && At(d, e - 1) == text[|text| - 2];
    forall m {:trigger At(d, m)} | i + 1 <= m < e && At(d, m) == QUOTE ensures At(d, m - 1) == BACKSLASH {
      assert EscapedAt(text, m - i);
      assert At(d, m) == text[m - i] && At(d, m - 1) == text[m - i - 1];
    }
  }

  predicate PlainText(text: bytes) {
    forall k :: 0 <= k < |text| ==> Unquoted(text[k])
  }

  lemma TurnedPart(d: bytes, i: nat, text: bytes, n: nat)
    requires PlainText(text) && Reads(d, i, text, n) && i + |text| <= n && NotEscaped(d, i)
    ensures Turned(d, i, i + |text|, true) && NotEscaped(d, i + |text|)
  {
    TurnedText(d, i, text, n);
    ReadsAt(d, i, text, n);
    if text != [] {
      assert At(d, i + |text| - 1) == text[|text| - 1];
    }
  }

  lemma BlankIsPlain(s: bytes)
    requires Blank(s)
    ensures PlainText(s)
  {
  }

  /** Plain bytes, a string, plain bytes. */
  lemma TurnedAround(d: bytes, i: nat, before: bytes, a: nat, name: bytes, b: nat, behind: bytes, n: nat)
    requires PlainText(before) && QuotesEscaped(name) && PlainText(behind) && NotEscaped(d, i)
    requires Reads(d, i, before, n) && Reads(d, a, name, n) && Reads(d, b, behind, n)
    requires a == i + |before| && b == a + |name| && b + |behind| <= n
    ensures Turned(d, i, b + |behind|, CleanEnd(name)) && NotEscaped(d, b + |behind|)
  {
    TurnedPart(d, i, before, n);
    TurnedString(d, a, name, n);
    StringPlaces(d, a, name, n);
    TurnedPart(d, b, behind, n);
    TurnedThree(d, i, a, b, b + |behind|, true, CleanEnd(name));
  }

  lemma TurnedParts(d: bytes, i: nat, before: bytes, name: bytes, behind: bytes, text: bytes, n: nat)
    requires PlainText(before) && QuotesEscaped(name) && PlainText(behind) && NotEscaped(d, i)
    requires text == before + name + behind && Reads(d, i, text, n) && i + |text| <= n
    ensures Turned(d, i, i + |text|, CleanEnd(name)) && NotEscaped(d, i + |text|)
  {
    ReadsSplit(d, i, before + name, behind, n);
    ReadsSplit(d, i, before, name, n);
    TurnedAround(d, i, before, i + |before|, name, i + |before| + |name|, behind, n);
  }

  lemma TurnedKey(d: bytes, i: nat, key: Key, keyed: bool, n: nat)
    requires LooseKey(key, keyed) && Reads(d, i, KeyText(key), n) && i + |KeyText(key)| <= n && NotEscaped(d, i)
    ensures |KeyText(key)| == KeySize(key)
    ensures Turned(d, i, i + KeySize(key), CleanKey(key)) && NotEscaped(d, i + KeySize(key))
  {
    if key.Key? {
      BlankIsPlain(key.before);
      BlankIsPlain(key.mid);
      TurnedParts(d, i, key.before, key.name, key.mid + [COLON], KeyText(key), n);
      KeyTextSize(key);
    } else {
      TurnedPlain(d, i, i);
    }
  }

  lemma TurnedLeaf(d: bytes, i: nat, kind: Kind, text: bytes, n: nat)
    requires LooseLeaf(kind, text) && Reads(d, i, text, n) && i + |text| <= n && NotEscaped(d, i)
    ensures Turned(d, i, i + |text|, Clean(Leaf(kind, text))) && NotEscaped(d, i + |text|)
  {
    if kind.String? {
      TurnedString(d, i, text, n);
      StringPlaces(d, i, text, n);
    } else {
      assert PlainText(text);
      TurnedPart(d, i, text, n);
    }
  }

  lemma {:induction false} TurnedJson(d: bytes, i: nat, j: Json, n: nat)
    requires Loose(j) && Reads(d, i, Render(j), n) && i + Size(j) <= n && NotEscaped(d, i)
    ensures Turned(d, i, i + Size(j), Clean(j)) && NotEscaped(d, i + Size(j))
    decreases j, 0
  {
    match j
    case Leaf(kind, text) => TurnedLeaf(d, i, kind, text, n);
    case Compound(keyed, entries) =>
      ReadsSplit(d, i, [Open(keyed)], RenderEntries(entries, keyed), n);
      TurnedPart(d, i, [Open(keyed)], n);
      TurnedEntries(d, i + 1, entries, keyed, n);
      TurnedOn(d, i, i + 1, i + Size(j), true, CleanEntries(entries));
  }

  /** The parts of an entry in front of its tail. */
  lemma {:induction false} TurnedEntry(d: bytes, i: nat, x: Entries, keyed: bool, n: nat) returns (q: nat)
    requires LooseEntries(x, keyed) && Reads(d, i, RenderEntries(x, keyed), n) && i + SizeEntries(x) <= n
    requires NotEscaped(d, i)
    ensures q == i + KeySize(x.key) + |x.lead| + Size(x.value) + |x.after|
    ensures Turned(d, i, q, CleanKey(x.key) && Clean(x.value)) && NotEscaped(d, q) && Reads(d, q, Tail(x, keyed), n)
    decreases x, 1
  {
    var c, p, e;
    c, p, e, q := PartsOf(d, i, x, keyed, n);
    TurnedLead(d, i, x.key, keyed, x.lead, c, p, n);
    TurnedValue(d, p, x.value, x.after, e, q, n);
    TurnedOn(d, i, p, q, CleanKey(x.key), Clean(x.value));
  }

  /** A value and the blanks behind it. */
  lemma {:induction false} TurnedValue(d: bytes, p: nat, j: Json, after: bytes, e: nat, q: nat, n: nat)
    requires Loose(j) && Blank(after) && Reads(d, p, Render(j), n) && Reads(d, e, after, n)
    requires e == p + Size(j) && q == e + |after| <= n && NotEscaped(d, p)
    ensures Turned(d, p, q, Clean(j)) && NotEscaped(d, q)
    decreases j, 1
  {
    TurnedJson(d, p, j, n);
    BlankIsPlain(after);
    TurnedPart(d, e, after, n);
    TurnedOn(d, p, e, q, Clean(j), true);
  }

  lemma PartsOf(d: bytes, i: nat, x: Entries, keyed: bool, n: nat) returns (c: nat, p: nat, e: nat, q: nat)
    requires Reads(d, i, RenderEntries(x, keyed), n)
    ensures c == i + KeySize(x.key) && p == c + |x.lead| && e == p + Size(x.value) && q == e + |x.after|
    ensures Reads(d, i, KeyText(x.key), n) && Reads(d, c, x.lead, n) && Reads(d, p, Render(x.value), n)
    ensures Reads(d, e, x.after, n) && Reads(d, q, Tail(x, keyed), n)
  {
    TailText(x, keyed);
    RenderSize(x.value);
    KeyTextSize(x.key);
    c, p, e, q := ReadsFive(d, i, KeyText(x.key), x.lead, Render(x.value), x.after, Tail(x, keyed), n);
  }

  /** A key and the blanks behind it. */
  lemma TurnedLead(d: bytes, i: nat, key: Key, keyed: bool, lead: bytes, c: nat, p: nat, n: nat)
    requires LooseKey(key, keyed) && Blank(lead) && Reads(d, i, KeyText(key), n) && Reads(d, c, lead, n)
    requires c == i + KeySize(key) && p == c + |lead| <= n && NotEscaped(d, i)
    ensures Turned(d, i, p, CleanKey(key)) && NotEscaped(d, p)
  {
    KeyTextSize(key);
    BlankIsPlain(lead);
    TurnedKey(d, i, key, keyed, n);
    TurnedPart(d, c, lead, n);
    TurnedOn(d, i, c, p, CleanKey(key), true);
  }

  lemma TurnedThree(d: bytes, i: nat, p: nat, e: nat, q: nat, a: bool, b: bool)
    requires i <= p <= e <= q && Turned(d, i, p, a) && Turned(d, p, e, b) && Turned(d, e, q, true)
    ensures Turned(d, i, q, a && b)
  {
    TurnedOn(d, i, p, e, a, b);
    TurnedOn(d, i, e, q, a && b, true);
  }

  lemma KeyTextSize(key: Key)
    ensures |KeyText(key)| == KeySize(key)
  {
  }

  /** The size of what follows an entry. */
  function TailSize(x: Entries): nat {
    1 + if x.More? then SizeEntries(x.rest) else 0
  }

  lemma {:induction false} TurnedTail(d: bytes, q: nat, x: Entries, keyed: bool, n: nat)
    requires LooseEntries(x, keyed) && Reads(d, q, Tail(x, keyed), n) && q + TailSize(x) <= n && NotEscaped(d, q)
    ensures Turned(d, q, q + TailSize(x), x.More? ==> CleanEntries(x.rest)) && NotEscaped(d, q + TailSize(x))
    decreases x, 0
  {
    if x.Last? {
      TurnedPart(d, q, [Close(keyed)], n);
    } else {
      ReadsSplit(d, q, [COMMA], RenderEntries(x.rest, keyed), n);
      TurnedPart(d, q, [COMMA], n);
      TurnedEntries(d, q + 1, x.rest, keyed, n);
      TurnedOn(d, q, q + 1, q + 1 + SizeEntries(x.rest), true, CleanEntries(x.rest));
    }
  }

  lemma {:induction false} TurnedEntries(d: bytes, i: nat, x: Entries, keyed: bool, n: nat)
    requires LooseEntries(x, keyed) && Reads(d, i, RenderEntries(x, keyed), n) && i + SizeEntries(x) <= n
    requires NotEscaped(d, i)
    ensures Turned(d, i, i + SizeEntries(x), CleanEntries(x)) && NotEscaped(d, i + SizeEntries(x))
    decreases x, 2
  {
    var q := TurnedEntry(d, i, x, keyed, n);
    TurnedTail(d, q, x, keyed, n);
    TurnedBoth(d, i, q, q + TailSize(x), x);
  }

  lemma TurnedBoth(d: bytes, i: nat, q: nat, e: nat, x: Entries)
    requires i <= q <= e && Turned(d, i, q, CleanKey(x.key) && Clean(x.value))
    requires Turned(d, q, e, x.More? ==> CleanEntries(x.rest))
    ensures Turned(d, i, e, CleanEntries(x))
  {
    var head, tail := CleanKey(x.key) && Clean(x.value), x.More? ==> CleanEntries(x.rest);
    TurnedOn(d, i, q, e, head, tail);
    CleanParts(x, head, tail);
  }

  lemma CleanParts(x: Entries, head: bool, tail: bool)
    requires (head <==> CleanKey(x.key) && Clean(x.value)) && (tail <==> (x.More? ==> CleanEntries(x.rest)))
    ensures CleanEntries(x) <==> head && tail
  {
  }

  /**
   Data that start with any blanks and a document, whatever follows: the scanner returns
   their exact length if and only if the document is scannable and none of its strings ends
   with a backslash.
   */
  lemma {:induction false} DocumentExact(d: bytes, blank: bytes, j: Json, n: nat)
    requires Blank(blank) && Loose(j) && Bracketed(j)
    requires Reads(d, 0, blank + Render(j), n) && |blank| + |Render(j)| <= n
    ensures JsonLength(d, 0, n) == |blank| + |Render(j)| <==> Scannable(j) && Clean(j)
    ensures Clean(j) && !Scannable(j) ==> JsonLength(d, 0, n) == -1
  {
    WellFormedIsClean(j);
    LooseIsSome(j);
    if Clean(j) {
      DocumentLength(d, 0, blank, j, n);
    } else {
      var p := |blank|;
      ReadsSplit(d, 0, blank, Render(j), n);
      RenderSize(j);
      BlankIsPlain(blank);
      TurnedPart(d, 0, blank, n);
      TurnedJson(d, p, j, n);
      TurnedOn(d, 0, p, p + Size(j), true, false);
      if JsonLength(d, 0, n) > 0 {
        JsonWalk(d, 0, n);
      }
    }
  }

  lemma LooseIsSome(j: Json)
    requires Loose(j) && Bracketed(j)
    ensures |Render(j)| > 0
  {
  }
}
