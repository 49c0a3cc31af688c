/**
 Documents as they lie in memory: which byte of a document is where, as far as the data
 reach.  All reasoning about the scanner is done on these places.
 */
module JsonPlaces {
  import opened Bytes
  import opened JsonScan
  import opened JsonTree

  function KeySize(key: Key): nat {
    match key
    case NoKey => 0
    case Key(before, name, mid) => |before| + |name| + |mid| + 1
  }

  function Size(j: Json): nat {
    match j
    case Leaf(_, text) => |text|
    case Compound(_, entries) => 1 + SizeEntries(entries)
  }

  function SizeEntries(x: Entries): (n: nat)
    ensures n > 0
  {
    KeySize(x.key) + |x.lead| + Size(x.value) + |x.after| + 1 + if x.More? then SizeEntries(x.rest) else 0
  }

  predicate ReadsByte(d: bytes, i: nat, c: byte, n: nat) {
    i < n ==> At(d, i) == c
  }

  /** The data, which end at `n`, have the text `s` at `i`, or as much of it as they reach. */
  predicate Reads(d: bytes, i: nat, s: bytes, n: nat)
    decreases |s|
  {
    s == [] || (ReadsByte(d, i, s[0], n) && Reads(d, i + 1, s[1..], n))
  }

  lemma {:induction false} ReadsAt(d: bytes, i: nat, s: bytes, n: nat)
    ensures Reads(d, i, s, n) <==>
      forall p {:trigger At(d, p)} :: i <= p < i + |s| && p < n ==> At(d, p) == s[p - i]
    decreases |s|
  {
    if s != [] {
      ReadsAt(d, i + 1, s[1..], n);
      assert forall p {:trigger At(d, p)} :: i + 1 <= p < i + |s| ==> s[1..][p - i - 1] == s[p - i];
    }
  }

  /** Inside a string with escaped quotation marks the string scan stops at no printable byte. */
  lemma RunsOver(d: bytes, i: nat, text: bytes, n: nat)
    requires InnerEscaped(text) && Reads(d, i, text, n)
    ensures forall m: nat {:trigger InString(d, m)} ::
              i < m < i + |text| - 1 && m < n && IsPrint(At(d, m)) ==> InString(d, m)
  {
    ReadsAt(d, i, text, n);
    forall m: nat {:trigger InString(d, m)} | i < m < i + |text| - 1 && m < n && IsPrint(At(d, m)) ensures InString(d, m) {
      assert EscapedAt(text, m - i);
      assert At(d, m) == text[m - i] && At(d, m - 1) == text[m - 1 - i];
    }
  }

  /** A proper key lies at `i`. */
  predicate KeyLies(d: bytes, i: nat, key: Key, keyed: bool, n: nat) {
    && ProperKey(key, keyed)
    && (key.Key? ==>
          && Reads(d, i, key.before, n) && Reads(d, i + |key.before|, key.name, n)
          && Reads(d, i + |key.before| + |key.name|, key.mid, n)
          && ReadsByte(d, i + |key.before| + |key.name| + |key.mid|, COLON, n))
  }

  predicate BlanksLie(d: bytes, i: nat, s: bytes, n: nat) {
    Blank(s) && Reads(d, i, s, n)
  }

  /** A well-formed document lies at `i`. */
  predicate Lies(d: bytes, i: nat, j: Json, n: nat)
    decreases j, 0
  {
    match j
    case Leaf(kind, text) => LeafText(kind, text) && Reads(d, i, text, n)
    case Compound(keyed, entries) => ReadsByte(d, i, Open(keyed), n) && EntriesLie(d, i + 1, entries, keyed, n)
  }

  predicate EntriesLie(d: bytes, i: nat, x: Entries, keyed: bool, n: nat)
    decreases x, 0
  {
    var c := i + KeySize(x.key);
    var p := c + |x.lead|;
    var e := p + Size(x.value);
    var q := e + |x.after|;
    && KeyLies(d, i, x.key, keyed, n) && BlanksLie(d, c, x.lead, n)
    && Lies(d, p, x.value, n) && BlanksLie(d, e, x.after, n)
    && ReadsByte(d, q, if x.Last? then Close(keyed) else COMMA, n)
    && (x.More? ==> EntriesLie(d, q + 1, x.rest, keyed, n))
  }

  lemma {:induction false} ReadsSplit(d: bytes, i: nat, a: bytes, b: bytes, n: nat)
    ensures Reads(d, i, a + b, n) <==> Reads(d, i, a, n) && Reads(d, i + |a|, b, n)
    decreases |a|
  {
    if a == [] {
      assert a + b == b;
    } else {
      ReadsSplit(d, i + 1, a[1..], b, n);
      assert (a + b)[1..] == a[1..] + b;
    }
  }

  lemma {:induction false} RenderSize(j: Json)
    ensures |Render(j)| == Size(j)
    decreases j, 0
  {
    if j.Compound? {
      RenderEntriesSize(j.entries, j.keyed);
    }
  }

  lemma {:induction false} RenderEntriesSize(x: Entries, keyed: bool)
    ensures |RenderEntries(x, keyed)| == SizeEntries(x)
    decreases x, 0
  {
    RenderSize(x.value);
    if x.More? {
      RenderEntriesSize(x.rest, keyed);
    }
  }

  /** Data that read as the text of a document have each of its parts in its place. */
  lemma {:induction false} ReadsLies(d: bytes, i: nat, j: Json, n: nat)
    requires WellFormed(j) && Reads(d, i, Render(j), n)
    ensures Lies(d, i, j, n)
    decreases j, 0
  {
    if j.Compound? {
      ReadsSplit(d, i, [Open(j.keyed)], RenderEntries(j.entries, j.keyed), n);
      ReadsEntriesLie(d, i + 1, j.entries, j.keyed, n);
    }
  }

  lemma ReadsFive(d: bytes, i: nat, a: bytes, b: bytes, c: bytes, e: bytes, f: bytes, n: nat)
    returns (j: nat, k: nat, l: nat, m: nat)
    requires Reads(d, i, a + b + c + e + f, n)
    ensures j == i + |a| && k == j + |b| && l == k + |c| && m == l + |e|
    ensures Reads(d, i, a, n) && Reads(d, j, b, n) && Reads(d, k, c, n) && Reads(d, l, e, n) && Reads(d, m, f, n)
  {
    j := i + |a|;
    k := j + |b|;
    l := k + |c|;
    m := l + |e|;
    ReadsSplit(d, i, a + b + c + e, f, n);
    ReadsSplit(d, i, a + b + c, e, n);
    ReadsSplit(d, i, a + b, c, n);
    ReadsSplit(d, i, a, b, n);
  }

  /** What follows an entry: the closing bracket, or a comma and more entries. */
  function Tail(x: Entries, keyed: bool): bytes {
    if x.Last? then [Close(keyed)] else [COMMA] + RenderEntries(x.rest, keyed)
  }

  lemma TailText(x: Entries, keyed: bool)
    ensures RenderEntries(x, keyed) == KeyText(x.key) + x.lead + Render(x.value) + x.after + Tail(x, keyed)
  {
    if x.More? {
      var head := KeyText(x.key) + x.lead + Render(x.value) + x.after;
      assert head + [COMMA] + RenderEntries(x.rest, keyed) == head + ([COMMA] + RenderEntries(x.rest, keyed));
    }
  }

  lemma {:induction false} ReadsTail(d: bytes, q: nat, x: Entries, keyed: bool, n: nat)
    requires WellFormedEntries(x, keyed) && Reads(d, q, Tail(x, keyed), n)
    ensures ReadsByte(d, q, if x.Last? then Close(keyed) else COMMA, n)
    ensures x.More? ==> EntriesLie(d, q + 1, x.rest, keyed, n)
    decreases x, 0
  {
    if x.More? {
      ReadsSplit(d, q, [COMMA], RenderEntries(x.rest, keyed), n);
      ReadsEntriesLie(d, q + 1, x.rest, keyed, n);
    }
  }

  /** The parts of a key, as far as the data reach. */
  predicate KeyReads(d: bytes, i: nat, key: Key, n: nat) {
    key.Key? ==>
      && Reads(d, i, key.before, n) && Reads(d, i + |key.before|, key.name, n)
      && Reads(d, i + |key.before| + |key.name|, key.mid, n)
      && ReadsByte(d, i + |key.before| + |key.name| + |key.mid|, COLON, n)
  }

  lemma ReadsKey(d: bytes, i: nat, key: Key, n: nat)
    requires Reads(d, i, KeyText(key), n)
    ensures KeyReads(d, i, key, n) && |KeyText(key)| == KeySize(key)
  {
    match key
    case NoKey =>
    case Key(before, name, mid) =>
      var text := KeyText(key);
      ReadsKeyParts(d, i, before, name, mid, text, n);
  }

  lemma KeyLiesFrom(d: bytes, i: nat, key: Key, keyed: bool, n: nat)
    requires ProperKey(key, keyed) && KeyReads(d, i, key, n)
    ensures KeyLies(d, i, key, keyed, n)
  {
  }

  lemma ReadsKeyParts(d: bytes, i: nat, before: bytes, name: bytes, mid: bytes, text: bytes, n: nat)
    requires text == before + name + mid + [COLON] && Reads(d, i, text, n)
    ensures Reads(d, i, before, n) && Reads(d, i + |before|, name, n) && Reads(d, i + |before| + |name|, mid, n)
    ensures ReadsByte(d, i + |before| + |name| + |mid|, COLON, n)
    ensures |text| == |before| + |name| + |mid| + 1
  {
    ReadsFour(d, i, before, name, mid, [COLON], n);
    assert [COLON][0] == COLON;
  }

  lemma ReadsFour(d: bytes, i: nat, a: bytes, b: bytes, c: bytes, e: bytes, n: nat)
    requires Reads(d, i, a + b + c + e, n)
    ensures Reads(d, i, a, n) && Reads(d, i + |a|, b, n) && Reads(d, i + |a| + |b|, c, n)
    ensures Reads(d, i + |a| + |b| + |c|, e, n)
  {
    ReadsSplit(d, i, a + b + c, e, n);
    ReadsSplit(d, i, a + b, c, n);
    ReadsSplit(d, i, a, b, n);
  }

  lemma ReadsParts(d: bytes, i: nat, x: Entries, keyed: bool, n: nat) returns (c: nat, p: nat, e: nat, q: nat)
    requires WellFormedEntries(x, keyed) && Reads(d, i, RenderEntries(x, keyed), n)
    ensures c == i + KeySize(x.key) && p == c + |x.lead| && e == p + Size(x.value) && q == e + |x.after|
    ensures KeyLies(d, i, x.key, keyed, n) && BlanksLie(d, c, x.lead, n) && Reads(d, p, Render(x.value), n)
    ensures BlanksLie(d, e, x.after, n) && Reads(d, q, Tail(x, keyed), n)
  {
    TailText(x, keyed);
    c, p, e, q := ReadsFive(d, i, KeyText(x.key), x.lead, Render(x.value), x.after, Tail(x, keyed), n);
    ReadsKey(d, i, x.key, n);
    KeyLiesFrom(d, i, x.key, keyed, n);
    RenderSize(x.value);
  }

  lemma {:induction false} ReadsEntriesLie(d: bytes, i: nat, x: Entries, keyed: bool, n: nat)
    requires WellFormedEntries(x, keyed) && Reads(d, i, RenderEntries(x, keyed), n)
    ensures EntriesLie(d, i, x, keyed, n)
    decreases x, 1
  {
    var c, p, e, q := ReadsParts(d, i, x, keyed, n);
    ReadsLies(d, p, x.value, n);
    ReadsTail(d, q, x, keyed, n);
    EntryParts(d, i, x, keyed, n, c, p, e, q);
  }

  /** The parts of an entry, each in its place. */
  lemma EntryParts(d: bytes, i: nat, x: Entries, keyed: bool, n: nat, c: nat, p: nat, e: nat, q: nat)
    requires c == i + KeySize(x.key) && p == c + |x.lead| && e == p + Size(x.value) && q == e + |x.after|
    ensures EntriesLie(d, i, x, keyed, n) <==>
      && KeyLies(d, i, x.key, keyed, n) && BlanksLie(d, c, x.lead, n) && Lies(d, p, x.value, n)
      && BlanksLie(d, e, x.after, n) && ReadsByte(d, q, if x.Last? then Close(keyed) else COMMA, n)
      && (x.More? ==> EntriesLie(d, q + 1, x.rest, keyed, n))
  {
  }

  /** Over blanks the scanner skips to their end, or to the end of the data. */
  lemma SkipBlanks(d: bytes, i: nat, s: bytes, n: nat)
    requires BlanksLie(d, i, s, n) && i <= n
    requires i + |s| < n ==> !IsSpace(At(d, i + |s|))
    ensures Skip(d, i, n) == Min(i + |s|, n)
  {
    ReadsAt(d, i, s, n);
    SkipStops(d, i, n);
  }

  predicate StartsValue(c: byte) {
    !IsSpace(c) && c != CLOSE_ARRAY && c != CLOSE_OBJECT
  }

  /** What the scanner sees where a value starts. */
  lemma ValueStart(d: bytes, i: nat, j: Json, n: nat)
    requires Lies(d, i, j, n) && i < n
    ensures Size(j) > 0 && StartsValue(At(d, i))
    ensures At(d, i) == OPEN_ARRAY <==> (j.Leaf? && j.kind.EmptyArray?) || (j.Compound? && !j.keyed)
    ensures At(d, i) == OPEN_OBJECT <==> (j.Leaf? && j.kind.EmptyObject?) || (j.Compound? && j.keyed)
    ensures At(d, i) == QUOTE <==> j.Leaf? && j.kind.String?
  {
    if j.Leaf? {
      assert j.text != [] && At(d, i) == j.text[0];
    }
  }
}
