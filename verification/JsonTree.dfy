/**
 JSON documents as trees that keep their layout, their text, and what it takes for the
 scanner to get through them.
 */
module JsonTree {
  import opened Bytes
  import opened JsonScan

  datatype Kind = Number | Literal | String | EmptyArray | EmptyObject

  /** The name of a key is kept with its quotation marks. */
  datatype Key = NoKey | Key(before: bytes, name: bytes, mid: bytes)

  /** A leaf is kept as it is written; a compound has at least one entry. */
  datatype Json = Leaf(kind: Kind, text: bytes) | Compound(keyed: bool, entries: Entries)

  /** The entries of an array (without keys) or of an object (with keys). */
  datatype Entries =
    | Last(key: Key, lead: bytes, value: Json, after: bytes)
    | More(key: Key, lead: bytes, value: Json, after: bytes, rest: Entries)

  function KeyText(key: Key): bytes {
    match key
    case NoKey => []
    case Key(before, name, mid) => before + name + mid + [COLON]
  }

  function Render(j: Json): bytes {
    match j
    case Leaf(_, text) => text
    case Compound(keyed, entries) => [Open(keyed)] + RenderEntries(entries, keyed)
  }

  /** The entries and the closing bracket. */
  function RenderEntries(x: Entries, keyed: bool): bytes {
    var head := KeyText(x.key) + x.lead + Render(x.value) + x.after;
    match x
    case Last(_, _, _, _) => head + [Close(keyed)]
    case More(_, _, _, _, rest) => head + [COMMA] + RenderEntries(rest, keyed)
  }

  predicate Blank(s: bytes) {
    forall k :: 0 <= k < |s| ==> IsSpace(s[k])
  }

  predicate NumberText(s: bytes) {
    && s != [] && IsNumberStart(s[0])
    && forall k :: 1 <= k < |s| ==> IsNumberChar(s[k])
  }

  predicate Enclosed(open: byte, text: bytes, close: byte) {
    |text| >= 2 && text[0] == open && text[|text| - 1] == close
  }

  predicate BlankInside(text: bytes) {
    forall k :: 1 <= k < |text| - 1 ==> IsSpace(text[k])
  }

  predicate EscapedAt(text: bytes, k: nat) {
    0 < k < |text| && text[k] == QUOTE ==> text[k - 1] == BACKSLASH
  }

  predicate InnerEscaped(text: bytes) {
    forall k {:trigger EscapedAt(text, k)} :: 1 <= k < |text| - 1 ==> EscapedAt(text, k)
  }

  /**
   A quoted string in which every inner quotation mark comes behind a backslash, and no
   backslash comes before the closing one.
   */
  predicate StringText(text: bytes) {
    && Enclosed(QUOTE, text, QUOTE)
    && InnerEscaped(text)
    && text[|text| - 2] != BACKSLASH
  }

  predicate LeafText(kind: Kind, text: bytes) {
    match kind
    case Number => NumberText(text)
    case Literal => text in {NULL_TEXT, TRUE_TEXT, FALSE_TEXT}
    case String => StringText(text)
    case EmptyArray => Enclosed(OPEN_ARRAY, text, CLOSE_ARRAY) && BlankInside(text)
    case EmptyObject => Enclosed(OPEN_OBJECT, text, CLOSE_OBJECT) && BlankInside(text)
  }

  predicate ProperKey(key: Key, keyed: bool) {
    match key
    case NoKey => !keyed
    case Key(before, name, mid) => keyed && Blank(before) && StringText(name) && Blank(mid)
  }

  predicate WellFormed(j: Json) {
    match j
    case Leaf(kind, text) => LeafText(kind, text)
    case Compound(keyed, entries) => WellFormedEntries(entries, keyed)
  }

  predicate WellFormedEntries(x: Entries, keyed: bool) {
    && ProperKey(x.key, keyed) && Blank(x.lead) && WellFormed(x.value) && Blank(x.after)
    && (x.More? ==> WellFormedEntries(x.rest, keyed))
  }

  predicate IsNumber(j: Json) {
    j.Leaf? && j.kind.Number?
  }

  /** The roots whose end does not depend on what follows them. */
  predicate Bracketed(j: Json) {
    j.Leaf? ==> !j.kind.Number? && !j.kind.Literal?
  }

  predicate Printable(s: bytes) {
    forall k :: 0 <= k < |s| ==> IsPrint(s[k])
  }

  /** Blanks after a number start with a space. */
  predicate SpacedAfter(value: Json, after: bytes) {
    IsNumber(value) && after != [] ==> after[0] == SPACE
  }

  /**
   What the scanner needs beyond well-formedness: printable strings and, after a number,
   a space before any other blank.
   */
  predicate Scannable(j: Json) {
    match j
    case Leaf(kind, text) => kind.String? ==> Printable(text)
    case Compound(_, entries) => ScannableEntries(entries)
  }

  predicate ScannableEntries(x: Entries) {
    && (x.key.Key? ==> Printable(x.key.name))
    && Scannable(x.value) && SpacedAfter(x.value, x.after)
    && (x.More? ==> ScannableEntries(x.rest))
  }
}
