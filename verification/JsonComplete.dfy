/**
 The scanner returns the exact length of every document it can scan, and rejects every
 other one, whatever follows it in memory.
 */
module JsonComplete {
  import opened Bytes
  import opened JsonScan
  import opened JsonTree
  import opened JsonPlaces

  lemma WholeString(d: bytes, i: nat, text: bytes, n: nat)
    requires Reads(d, i, text, n) && StringText(text) && i + |text| <= n
    ensures StringLength(d, i, n) == if Printable(text) then |text| else -1
  {
    ReadsAt(d, i, text, n);
    RunsOver(d, i, text, n);
    StringStops(d, i + 1, n);
    var s := StringStop(d, i + 1, n);
    var e := i + |text| - 1;
    assert At(d, i) == text[0] && At(d, e) == QUOTE && At(d, e - 1) == text[|text| - 2];
    assert !InString(d, e);
    assert forall k :: 0 <= k < |text| ==> text[k] == At(d, i + k);
    if s < e {
      assert At(d, s) == text[s - i];
    } else {
      assert forall k {:trigger text[k]} :: 1 <= k < |text| - 1 ==> InString(d, i + k);
    }
  }

  lemma WholeNumber(d: bytes, i: nat, text: bytes, n: nat)
    requires Reads(d, i, text, n) && NumberText(text) && i + |text| < n
    requires IsSpace(At(d, i + |text|)) || EndsNumber(At(d, i + |text|))
    ensures ValueLength(d, i, n) == if EndsNumber(At(d, i + |text|)) then |text| else -1
  {
    ReadsAt(d, i, text, n);
    var s := NumberStop(d, i + 1, n);
    NumberStops(d, i + 1, n);
    assert At(d, i) == text[0];
    assert !IsNumberChar(At(d, i + |text|));
    assert s == i + |text|;
    NotALiteral(d, i, n);
  }

  lemma WholeLiteral(d: bytes, i: nat, text: bytes, n: nat)
    requires Reads(d, i, text, n) && text in {NULL_TEXT, TRUE_TEXT, FALSE_TEXT} && i + |text| <= n
    ensures ValueLength(d, i, n) == |text|
  {
    ReadsAt(d, i, text, n);
    assert At(d, i + 0) == text[0];
    assert StartsWith(d, i, n, text);
    assert text != NULL_TEXT ==> text[0] != NULL_TEXT[0];
    assert text != TRUE_TEXT ==> text[0] != TRUE_TEXT[0];
  }

  lemma WholeEmpty(d: bytes, i: nat, text: bytes, keyed: bool, n: nat)
    requires Reads(d, i, text, n) && Enclosed(Open(keyed), text, Close(keyed)) && BlankInside(text)
    requires i + |text| <= n
    ensures EntriesLength(d, i, i + 1, true, n, keyed) == |text|
  {
    ReadsAt(d, i, text, n);
    assert At(d, i + |text| - 1) == text[|text| - 1];
    SkipStops(d, i + 1, n);
    assert Skip(d, i + 1, n) == i + |text| - 1;
  }

  /** The value lies within the data; behind a number comes a blank or a byte that ends it. */
  predicate Whole(d: bytes, i: nat, j: Json, n: nat) {
    var e := i + Size(j);
    && Lies(d, i, j, n) && e <= n
    && (IsNumber(j) ==> e < n && (IsSpace(At(d, e)) || EndsNumber(At(d, e))))
  }

  predicate Readable(d: bytes, i: nat, j: Json) {
    Scannable(j) && (IsNumber(j) ==> EndsNumber(At(d, i + Size(j))))
  }

  lemma WholeLeaf(d: bytes, i: nat, kind: Kind, text: bytes, n: nat)
    requires Whole(d, i, Leaf(kind, text), n)
    ensures JsonLength(d, i, n) == if Readable(d, i, Leaf(kind, text)) then |text| else -1
  {
    ValueStart(d, i, Leaf(kind, text), n);
    Dispatch(d, i, n);
    match kind
    case Number => WholeNumber(d, i, text, n);
    case Literal => WholeLiteral(d, i, text, n);
    case String => WholeString(d, i, text, n);
    case EmptyArray => WholeEmpty(d, i, text, false, n);
    case EmptyObject => WholeEmpty(d, i, text, true, n);
  }

  lemma {:induction false} WholeValue(d: bytes, i: nat, j: Json, n: nat)
    requires Whole(d, i, j, n)
    ensures JsonLength(d, i, n) == if Readable(d, i, j) then Size(j) else -1
    decreases j, 0
  {
    match j
    case Leaf(kind, text) => WholeLeaf(d, i, kind, text, n);
    case Compound(keyed, entries) =>
      Dispatch(d, i, n);
      WholeEntries(d, i, i + 1, true, entries, keyed, n);
  }

  /** Behind a value come blanks and then a byte that is neither blank nor part of it. */
  lemma BehindValue(d: bytes, e: nat, after: bytes, q: nat, n: nat)
    requires BlanksLie(d, e, after, n) && q == e + |after| < n
    requires At(d, q) in {COMMA, CLOSE_ARRAY, CLOSE_OBJECT}
    ensures Skip(d, e, n) == q
    ensures IsSpace(At(d, e)) || EndsNumber(At(d, e))
    ensures EndsNumber(At(d, e)) <==> after == [] || after[0] == SPACE
  {
    ReadsAt(d, e, after, n);
    SkipBlanks(d, e, after, n);
    assert after != [] ==> At(d, e) == after[0];
  }

  /** A key and its colon. */
  lemma WholeKey(d: bytes, cur: nat, key: Key, n: nat)
    requires key.Key? && KeyLies(d, cur, key, true, n) && cur + KeySize(key) < n
    ensures At(d, Skip(d, cur, n)) == QUOTE
    ensures KeyStep(d, Skip(d, cur, n), n)
         == if Printable(key.name) then Next(cur + KeySize(key)) else Stop(-1)
  {
    var k := cur + |key.before|;
    SkipBlanks(d, cur, key.before, n);
    WholeString(d, k, key.name, n);
    SkipBlanks(d, k + |key.name|, key.mid, n);
  }

  lemma BlanksThenValue(d: bytes, c: nat, lead: bytes, p: nat, j: Json, n: nat)
    requires BlanksLie(d, c, lead, n) && p == c + |lead| && Lies(d, p, j, n) && p < n
    ensures Skip(d, c, n) == p && Size(j) > 0 && StartsValue(At(d, p))
  {
    ValueStart(d, p, j, n);
    SkipBlanks(d, c, lead, n);
  }

  lemma {:induction false} ValueBetween(d: bytes, c: nat, lead: bytes, p: nat, j: Json, e: nat, after: bytes, q: nat,
                                        n: nat)
    requires p == c + |lead| && e == p + Size(j) && q == e + |after| && q < n
    requires BlanksLie(d, c, lead, n) && Lies(d, p, j, n) && BlanksLie(d, e, after, n)
    requires At(d, q) in {COMMA, CLOSE_ARRAY, CLOSE_OBJECT}
    ensures Skip(d, c, n) == p && p < e && StartsValue(At(d, p)) && Skip(d, e, n) == q
    ensures JsonLength(d, p, n) == if Scannable(j) && SpacedAfter(j, after) then e - p else -1
    decreases j, 1
  {
    BlanksThenValue(d, c, lead, p, j, n);
    BehindValue(d, e, after, q, n);
    WholeValue(d, p, j, n);
  }

  /** The value of an entry: found at `c`, behind the key, or at `p`, behind the blanks. */
  lemma {:induction false} ValueRound(d: bytes, i: nat, x: Entries, keyed: bool, n: nat)
    returns (c: nat, p: nat, e: nat, q: nat)
    requires EntriesLie(d, i, x, keyed, n)
    requires i + KeySize(x.key) + |x.lead| + Size(x.value) + |x.after| < n
    ensures c == i + KeySize(x.key) && c <= p < e <= q < n && q == c + |x.lead| + Size(x.value) + |x.after|
    ensures Skip(d, c, n) == p && StartsValue(At(d, p)) && Skip(d, e, n) == q
    ensures At(d, q) == if x.Last? then Close(keyed) else COMMA
    ensures KeyLies(d, i, x.key, keyed, n) && (x.More? ==> EntriesLie(d, q + 1, x.rest, keyed, n))
    ensures JsonLength(d, p, n) == if Scannable(x.value) && SpacedAfter(x.value, x.after) then e - p else -1
    decreases x, 1
  {
    c := i + KeySize(x.key);
    p := c + |x.lead|;
    e := p + Size(x.value);
    q := e + |x.after|;
    EntryParts(d, i, x, keyed, n, c, p, e, q);
    ValueBetween(d, c, x.lead, p, x.value, e, x.after, q, n);
  }

  /** Where the loop looks for the value that lies at `p`: at `v`. */
  lemma ValueFrom(d: bytes, i: nat, key: Key, keyed: bool, n: nat, c: nat, p: nat, e: nat) returns (v: nat)
    requires KeyLies(d, i, key, keyed, n) && c == i + KeySize(key) && p < e && p < n
    requires Skip(d, c, n) == p && StartsValue(At(d, p)) && JsonLength(d, p, n) in {-1, e - p}
    ensures i <= v < e && v <= n && At(d, Skip(d, i, n)) != Close(keyed)
    ensures LeadStep(d, Skip(d, i, n), n, keyed) == if keyed && !Printable(key.name) then Stop(-1) else Next(v)
    ensures JsonLength(d, v, n) == if JsonLength(d, p, n) == -1 then -1 else e - v
  {
    if keyed {
      WholeKey(d, i, key, n);
      SkippedBlanks(d, c, p, n);
      v := c;
    } else {
      v := p;
    }
  }

  /** One entry: the loop goes on behind the comma, or returns. */
  lemma {:induction false} WholeEntry(d: bytes, start: nat, cur: nat, first: bool, x: Entries, keyed: bool, n: nat)
    returns (q: nat, good: bool)
    requires EntriesLie(d, cur, x, keyed, n) && start < cur
    requires cur + KeySize(x.key) + |x.lead| + Size(x.value) + |x.after| < n
    ensures q == cur + KeySize(x.key) + |x.lead| + Size(x.value) + |x.after| && cur < q < n
    ensures x.More? ==> EntriesLie(d, q + 1, x.rest, keyed, n)
    ensures cur + SizeEntries(x) == q + 1 + if x.More? then SizeEntries(x.rest) else 0
    ensures ScannableEntries(x) <==> good && (x.More? ==> ScannableEntries(x.rest))
    ensures EntriesLength(d, start, cur, first, n, keyed)
         == if !good then -1
            else if x.Last? then q + 1 - start
            else if q + 1 < n then EntriesLength(d, start, q + 1, false, n, keyed)
            else if At(d, n) == Close(keyed) then n + 1 - start
            else -1
    decreases x, 2
  {
    var c, p, e;
    c, p, e, q := ValueRound(d, cur, x, keyed, n);
    good := (x.key.Key? ==> Printable(x.key.name)) && Scannable(x.value) && SpacedAfter(x.value, x.after);
    var v := ValueFrom(d, cur, x.key, keyed, n, c, p, e);
    if keyed && !Printable(x.key.name) {
      KeyRefused(d, start, cur, first, n, -1);
    } else {
      EntryRound(d, start, cur, first, n, keyed, v, e, q);
    }
  }

  lemma {:induction false} WholeEntries(d: bytes, start: nat, cur: nat, first: bool, x: Entries, keyed: bool, n: nat)
    requires EntriesLie(d, cur, x, keyed, n) && start < cur
    requires cur + SizeEntries(x) <= n
    ensures EntriesLength(d, start, cur, first, n, keyed)
         == if ScannableEntries(x) then cur + SizeEntries(x) - start else -1
    decreases x, 3
  {
    var q, good := WholeEntry(d, start, cur, first, x, keyed, n);
    if x.More? {
      WholeEntries(d, start, q + 1, false, x.rest, keyed, n);
    }
  }

  /**
   A document rooted at an array, an object or a string, behind any blanks and in front of
   any bytes, valid or left over: the scanner returns the exact length of blanks and
   document if the document is scannable and -1 if it is not.
   */
  lemma DocumentLength(d: bytes, i: nat, blank: bytes, j: Json, n: nat)
    requires Blank(blank) && WellFormed(j) && Bracketed(j)
    requires Reads(d, i, blank + Render(j), n) && i + |blank| + |Render(j)| <= n
    ensures JsonLength(d, i, n) == if Scannable(j) then |blank| + |Render(j)| else -1
  {
    var p := i + |blank|;
    ReadsSplit(d, i, blank, Render(j), n);
    ReadsLies(d, p, j, n);
    RenderSize(j);
    WholeDocument(d, i, blank, j, n);
  }

  lemma WholeDocument(d: bytes, i: nat, blank: bytes, j: Json, n: nat)
    requires BlanksLie(d, i, blank, n) && Lies(d, i + |blank|, j, n) && Bracketed(j)
    requires i + |blank| + Size(j) <= n
    ensures JsonLength(d, i, n) == if Scannable(j) then |blank| + Size(j) else -1
  {
    var p := i + |blank|;
    if p < n {
      ValueStart(d, p, j, n);
    }
    WholeValue(d, p, j, n);
    SkipBlanks(d, i, blank, n);
    SkippedBlanks(d, i, p, n);
  }
}
