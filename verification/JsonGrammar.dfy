/**
 JSON by its grammar, RFC 8259, in characters: what a text is made of, and that the scanner
 finds the length of every such text with an array, an object or a string at its root,
 exactly if its layout and its strings allow it.
 */
module JsonGrammar {
  import opened Bytes
  import opened JsonScan
  import opened JsonTree
  import opened JsonPlaces
  import opened JsonLimits
  import opened JsonQuotes
  import JsonFraming

  function Code(c: char): byte {
    (c as int % 256) as byte
  }

  /** Section 2: blanks, tabs, line feeds and carriage returns. */
  predicate White(s: bytes) {
    forall k :: 0 <= k < |s| ==> s[k] in {0x20, 0x09, 0x0A, 0x0D}
  }

  predicate Digit(b: byte) {
    Code('0') <= b <= Code('9')
  }

  predicate Digits(s: bytes) {
    s != [] && forall k :: 0 <= k < |s| ==> Digit(s[k])
  }

  /** Section 6: the parts of a number; one that is left out is empty. */
  datatype Numeral = Numeral(minus: bytes, whole: bytes, fraction: bytes, exponent: bytes)

  predicate IsMinus(s: bytes) {
    s == [] || s == [Code('-')]
  }

  /** One or more digits, the first of several not being 0. */
  predicate IsWhole(s: bytes) {
    Digits(s) && (|s| > 1 ==> s[0] != Code('0'))
  }

  predicate IsFraction(s: bytes) {
    s == [] || (s[0] == Code('.') && Digits(s[1..]))
  }

  predicate IsExponentPart(s: bytes) {
    s == [] ||
    (|s| >= 2 && s[0] in {Code('e'), Code('E')} &&
     Digits(if s[1] in {Code('+'), Code('-')} then s[2..] else s[1..]))
  }

  predicate IsNumeral(n: Numeral) {
    IsMinus(n.minus) && IsWhole(n.whole) && IsFraction(n.fraction) && IsExponentPart(n.exponent)
  }

  function NumeralText(n: Numeral): bytes {
    n.minus + n.whole + n.fraction + n.exponent
  }

  /** Section 7: a character as it is, a short escape, or an escape by number. */
  datatype Character = Plain(b: byte) | Escape(b: byte) | Unicode(digits: bytes)

  predicate IsHexDigit(b: byte) {
    Digit(b) || Code('A') <= b <= Code('F') || Code('a') <= b <= Code('f')
  }

  /** Octets above 0x7F are those of longer characters in UTF-8. */
  predicate IsCharacter(c: Character) {
    match c
    case Plain(b) => b >= 0x20 && b != Code('"') && b != Code('\\')
    case Escape(b) =>
      b in {Code('"'), Code('\\'), Code('/'), Code('b'), Code('f'), Code('n'), Code('r'), Code('t')}
    case Unicode(digits) => |digits| == 4 && forall k :: 0 <= k < 4 ==> IsHexDigit(digits[k])
  }

  function CharacterText(c: Character): bytes {
    match c
    case Plain(b) => [b]
    case Escape(b) => [Code('\\'), b]
    case Unicode(digits) => [Code('\\'), Code('u')] + digits
  }

  predicate AreCharacters(s: seq<Character>) {
    s == [] || (IsCharacter(s[0]) && AreCharacters(s[1..]))
  }

  function CharactersText(s: seq<Character>): bytes {
    if s == [] then [] else CharacterText(s[0]) + CharactersText(s[1..])
  }

  function StringOf(s: seq<Character>): bytes {
    [Code('"')] + CharactersText(s) + [Code('"')]
  }

  /** What the scanner asks of strings: characters up to `~`, and no escaped backslash at the end. */
  predicate AllPrintable(s: seq<Character>) {
    s == [] || ((s[0].Plain? ==> s[0].b <= Code('~')) && AllPrintable(s[1..]))
  }

  predicate EndsWithBackslash(s: seq<Character>) {
    s != [] && s[|s| - 1] == Escape(Code('\\'))
  }

  datatype Word = NullWord | TrueWord | FalseWord

  function WordText(w: Word): bytes {
    match w
    case NullWord => [Code('n'), Code('u'), Code('l'), Code('l')]
    case TrueWord => [Code('t'), Code('r'), Code('u'), Code('e')]
    case FalseWord => [Code('f'), Code('a'), Code('l'), Code('s'), Code('e')]
  }

  /** Section 3: values, with the blanks that are written between their parts. */
  datatype Value =
    | Atom(word: Word)
    | Num(numeral: Numeral)
    | Str(characters: seq<Character>)
    | Nothing(keyed: bool, inside: bytes)
    | Members(keyed: bool, members: MemberList)

  datatype MemberList =
    | One(name: MemberName, before: bytes, value: Value, behind: bytes)
    | Many(name: MemberName, before: bytes, value: Value, behind: bytes, rest: MemberList)

  datatype MemberName = Unnamed | Named(before: bytes, name: seq<Character>, behind: bytes)

  function Opening(keyed: bool): byte {
    if keyed then Code('{') else Code('[')
  }

  function Closing(keyed: bool): byte {
    if keyed then Code('}') else Code(']')
  }

  predicate IsMemberName(l: MemberName, keyed: bool) {
    match l
    case Unnamed => !keyed
    case Named(before, name, behind) => keyed && White(before) && AreCharacters(name) && White(behind)
  }

  predicate IsValue(v: Value) {
    match v
    case Atom(_) => true
    case Num(n) => IsNumeral(n)
    case Str(s) => AreCharacters(s)
    case Nothing(_, inside) => White(inside)
    case Members(keyed, m) => AreMembers(m, keyed)
  }

  predicate AreMembers(m: MemberList, keyed: bool) {
    && IsMemberName(m.name, keyed) && White(m.before) && IsValue(m.value) && White(m.behind)
    && (m.Many? ==> AreMembers(m.rest, keyed))
  }

  function NameText(l: MemberName): bytes {
    match l
    case Unnamed => []
    case Named(before, name, behind) => before + StringOf(name) + behind + [Code(':')]
  }

  function ValueText(v: Value): bytes {
    match v
    case Atom(w) => WordText(w)
    case Num(n) => NumeralText(n)
    case Str(s) => StringOf(s)
    case Nothing(keyed, inside) => [Opening(keyed)] + inside + [Closing(keyed)]
    case Members(keyed, m) => [Opening(keyed)] + MembersText(m, keyed)
  }

  /** The members and the closing bracket. */
  function MembersText(m: MemberList, keyed: bool): bytes {
    var first := NameText(m.name) + m.before + ValueText(m.value) + m.behind;
    match m
    case One(_, _, _, _) => first + [Closing(keyed)]
    case Many(_, _, _, _, rest) => first + [Code(',')] + MembersText(rest, keyed)
  }

  /** Strings of printable characters, and no blanks behind a number that start with anything but a space. */
  predicate Legible(v: Value) {
    match v
    case Str(s) => AllPrintable(s)
    case Members(_, m) => LegibleMembers(m)
    case _ => true
  }

  predicate LegibleMembers(m: MemberList) {
    && (m.name.Named? ==> AllPrintable(m.name.name)) && Legible(m.value)
    && (m.value.Num? && m.behind != [] ==> m.behind[0] == 0x20)
    && (m.Many? ==> LegibleMembers(m.rest))
  }

  /** No string, member names included, ends with a backslash. */
  predicate Unslashed(v: Value) {
    match v
    case Str(s) => !EndsWithBackslash(s)
    case Members(_, m) => UnslashedMembers(m)
    case _ => true
  }

  predicate UnslashedMembers(m: MemberList) {
    && (m.name.Named? ==> !EndsWithBackslash(m.name.name)) && Unslashed(m.value)
    && (m.Many? ==> UnslashedMembers(m.rest))
  }

  // The tree of a text.

  function TreeOf(v: Value): Json {
    match v
    case Atom(w) => Leaf(Literal, WordText(w))
    case Num(n) => Leaf(Number, NumeralText(n))
    case Str(s) => Leaf(String, StringOf(s))
    case Nothing(keyed, inside) => Leaf(if keyed then EmptyObject else EmptyArray, ValueText(v))
    case Members(keyed, m) => Compound(keyed, TreesOf(m))
  }

  function TreesOf(m: MemberList): Entries {
    match m
    case One(name, before, value, behind) => Last(KeyOf(name), before, TreeOf(value), behind)
    case Many(name, before, value, behind, rest) => More(KeyOf(name), before, TreeOf(value), behind, TreesOf(rest))
  }

  function KeyOf(l: MemberName): Key {
    match l
    case Unnamed => NoKey
    case Named(before, name, behind) => Key(before, StringOf(name), behind)
  }

  /** Every number of section 6 is made of the scanner's number characters. */
  lemma NumeralIsNumber(n: Numeral)
    requires IsNumeral(n)
    ensures NumberText(NumeralText(n))
  {
    MinusChars(n.minus);
    DigitChars(n.whole);
    FractionChars(n.fraction);
    ExponentChars(n.exponent);
    CharsJoin(n.minus, n.whole);
    CharsJoin(n.minus + n.whole, n.fraction);
    CharsJoin(n.minus + n.whole + n.fraction, n.exponent);
    var text := NumeralText(n);
    assert text[0] == (n.minus + n.whole)[0];
    assert n.minus == [] ==> text[0] == n.whole[0] && Digit(n.whole[0]);
    assert n.minus != [] ==> text[0] == n.minus[0];
  }

  predicate NumberChars(s: bytes) {
    forall k :: 0 <= k < |s| ==> IsNumberChar(s[k])
  }

  lemma MinusChars(s: bytes)
    requires IsMinus(s)
    ensures NumberChars(s)
  {
  }

  lemma DigitChars(s: bytes)
    requires Digits(s)
    ensures NumberChars(s)
  {
    forall k | 0 <= k < |s| ensures IsNumberChar(s[k]) {
      assert Digit(s[k]);
    }
  }

  lemma CharsJoin(a: bytes, b: bytes)
    requires NumberChars(a) && NumberChars(b)
    ensures NumberChars(a + b)
  {
  }

  lemma FractionChars(s: bytes)
    requires IsFraction(s)
    ensures NumberChars(s)
  {
    if s != [] {
      DigitChars(s[1..]);
      SplitAt(s, 1);
      CharsJoin(s[..1], s[1..]);
    }
  }

  lemma ExponentChars(s: bytes)
    requires IsExponentPart(s)
    ensures NumberChars(s)
  {
    if s != [] {
      var n := if s[1] in {Code('+'), Code('-')} then 2 else 1;
      DigitChars(s[n..]);
      SplitAt(s, n);
      CharsJoin(s[..n], s[n..]);
    }
  }

  lemma WhiteIsBlank(s: bytes)
    requires White(s)
    ensures Blank(s)
  {
  }

  lemma WordIsLiteral(w: Word)
    ensures WordText(w) in {NULL_TEXT, TRUE_TEXT, FALSE_TEXT}
  {
  }

  /** A quotation mark within the characters of a string comes behind a backslash. */
  predicate Escaped(s: bytes, k: nat) {
    k < |s| && s[k] == Code('"') ==> k > 0 && s[k - 1] == Code('\\')
  }

  lemma {:induction false} CharactersEscape(s: seq<Character>)
    requires AreCharacters(s)
    ensures forall k: nat :: Escaped(CharactersText(s), k)
  {
    if s != [] {
      CharactersEscape(s[1..]);
      var a, b := CharacterText(s[0]), CharactersText(s[1..]);
      CharacterEscapes(s[0]);
      forall k: nat ensures Escaped(a + b, k) {
        assert Escaped(a, k);
        assert k >= |a| ==> Escaped(b, k - |a|);
      }
    }
  }

  lemma CharacterEscapes(c: Character)
    requires IsCharacter(c)
    ensures forall k: nat :: Escaped(CharacterText(c), k)
  {
    forall k: nat ensures Escaped(CharacterText(c), k) {
      assert c.Unicode? && 2 <= k < 6 ==> CharacterText(c)[k] == c.digits[k - 2] && IsHexDigit(c.digits[k - 2]);
    }
  }

  lemma {:induction false} CharactersPrint(s: seq<Character>)
    requires AreCharacters(s)
    ensures Printable(CharactersText(s)) <==> AllPrintable(s)
  {
    if s != [] {
      CharactersPrint(s[1..]);
      var a, b := CharacterText(s[0]), CharactersText(s[1..]);
      CharacterPrints(s[0]);
      PrintableJoin(a, b);
    }
  }

  lemma CharacterPrints(c: Character)
    requires IsCharacter(c)
    ensures Printable(CharacterText(c)) <==> (c.Plain? ==> c.b <= Code('~'))
  {
    match c
    case Plain(b) => assert CharacterText(c)[0] == b;
    case Escape(_) =>
    case Unicode(digits) => assert forall k :: 0 <= k < 4 ==> IsHexDigit(digits[k]);
  }

  lemma PrintableJoin(a: bytes, b: bytes)
    ensures Printable(a + b) <==> Printable(a) && Printable(b)
  {
    if Printable(a + b) {
      forall k | 0 <= k < |a| ensures IsPrint(a[k]) {
        assert (a + b)[k] == a[k];
      }
      forall k | 0 <= k < |b| ensures IsPrint(b[k]) {
        assert (a + b)[|a| + k] == b[k];
      }
    }
  }

  lemma {:induction false} CharactersEnd(s: seq<Character>)
    requires AreCharacters(s) && s != []
    ensures var text := CharactersText(s);
            text != [] && (text[|text| - 1] == Code('\\') <==> EndsWithBackslash(s))
  {
    var c, text := s[0], CharactersText(s);
    if |s| == 1 {
      assert CharactersText(s[1..]) == [];
      assert text == CharacterText(c);
      assert c.Unicode? ==> text[5] == c.digits[3] && IsHexDigit(c.digits[3]);
    } else {
      CharactersEnd(s[1..]);
      assert s[1..][|s| - 2] == s[|s| - 1];
      assert text == CharacterText(c) + CharactersText(s[1..]);
    }
  }

  /** Strings of section 7 as the scanner's documents have them. */
  lemma StringIsQuoted(s: seq<Character>)
    requires AreCharacters(s)
    ensures QuotesEscaped(StringOf(s)) && (CleanEnd(StringOf(s)) <==> !EndsWithBackslash(s))
    ensures Printable(StringOf(s)) <==> AllPrintable(s)
  {
    var inner, text := CharactersText(s), StringOf(s);
    CharactersEscape(s);
    forall k: nat | 1 <= k < |text| - 1 ensures EscapedAt(text, k) {
      assert Escaped(inner, k - 1) && text[k] == inner[k - 1];
    }
    CharactersPrint(s);
    PrintableJoin([Code('"')], inner);
    PrintableJoin([Code('"')] + inner, [Code('"')]);
    if s == [] {
      assert inner == [];
    } else {
      CharactersEnd(s);
      assert text[|text| - 2] == inner[|inner| - 1];
    }
  }

  lemma EmptyIsLoose(v: Value)
    requires IsValue(v) && v.Nothing?
    ensures Loose(TreeOf(v))
  {
    var text := ValueText(v);
    WhiteIsBlank(v.inside);
    forall k | 1 <= k < |text| - 1 ensures IsSpace(text[k]) {
      assert text[k] == v.inside[k - 1];
    }
  }

  lemma {:induction false} TreeText(v: Value)
    ensures Render(TreeOf(v)) == ValueText(v)
    decreases v, 0
  {
    if v.Members? {
      TreesText(v.members, v.keyed);
    }
  }

  lemma {:induction false} TreesText(m: MemberList, keyed: bool)
    ensures RenderEntries(TreesOf(m), keyed) == MembersText(m, keyed)
    decreases m, 0
  {
    TreeText(m.value);
    if m.Many? {
      TreesText(m.rest, keyed);
    }
  }

  /** The tree of a text is a document whose strings may end with a backslash. */
  lemma {:induction false} TreeIsLoose(v: Value)
    requires IsValue(v)
    ensures Loose(TreeOf(v)) && (Scannable(TreeOf(v)) <==> Legible(v)) && (Clean(TreeOf(v)) <==> Unslashed(v))
    decreases v, 0
  {
    match v
    case Atom(w) => WordIsLiteral(w);
    case Num(n) => NumeralIsNumber(n);
    case Str(s) => StringIsQuoted(s);
    case Nothing(_, _) => EmptyIsLoose(v);
    case Members(keyed, m) => TreesAreLoose(m, keyed);
  }

  lemma NameIsLoose(l: MemberName, keyed: bool)
    requires IsMemberName(l, keyed)
    ensures LooseKey(KeyOf(l), keyed)
    ensures CleanKey(KeyOf(l)) <==> (l.Named? ==> !EndsWithBackslash(l.name))
    ensures KeyOf(l).Key? == l.Named? && (l.Named? ==> (Printable(KeyOf(l).name) <==> AllPrintable(l.name)))
  {
    if l.Named? {
      StringIsQuoted(l.name);
      WhiteIsBlank(l.before);
      WhiteIsBlank(l.behind);
    }
  }

  lemma {:induction false} TreesAreLoose(m: MemberList, keyed: bool)
    requires AreMembers(m, keyed)
    ensures LooseEntries(TreesOf(m), keyed)
    ensures ScannableEntries(TreesOf(m)) <==> LegibleMembers(m)
    ensures CleanEntries(TreesOf(m)) <==> UnslashedMembers(m)
    decreases m, 0
  {
    NameIsLoose(m.name, keyed);
    WhiteIsBlank(m.before);
    WhiteIsBlank(m.behind);
    TreeIsLoose(m.value);
    if m.Many? {
      TreesAreLoose(m.rest, keyed);
    }
  }

  /** The roots whose end shows. */
  predicate Rooted(v: Value) {
    v.Str? || v.Nothing? || v.Members?
  }

  lemma TextStands(text: bytes, rest: bytes, n: nat)
    ensures Reads(text + rest, 0, text, n)
  {
    ReadsAt(text + rest, 0, text, n);
  }

  /**
   Data that start with any blanks and a text of the grammar, whatever follows: their exact
   length is found if and only if the text is legible and no string in it ends with a
   backslash.
   */
  lemma GrammarExact(blank: bytes, v: Value, rest: bytes, n: nat)
    requires White(blank) && IsValue(v) && Rooted(v)
    requires |blank| + |ValueText(v)| <= n
    ensures var d, size := blank + ValueText(v) + rest, |blank| + |ValueText(v)|;
            && (JsonLength(d, 0, n) == size <==> Legible(v) && Unslashed(v))
            && (Unslashed(v) && !Legible(v) ==> JsonLength(d, 0, n) == -1)
  {
    WhiteIsBlank(blank);
    TreeIsLoose(v);
    TreeText(v);
    TextStands(blank + ValueText(v), rest, n);
    DocumentExact(blank + ValueText(v) + rest, blank, TreeOf(v), n);
  }

  /** Such a text is a document that the framing function recognises. */
  lemma GrammarIsSound(blank: bytes, v: Value)
    requires White(blank) && IsValue(v) && Rooted(v) && Legible(v) && Unslashed(v)
    ensures var x := JsonFraming.Document(blank, TreeOf(v));
            JsonFraming.Sound(x) && JsonFraming.Text(x) == blank + ValueText(v)
  {
    WhiteIsBlank(blank);
    TreeIsLoose(v);
    TreeText(v);
    WellFormedIsClean(TreeOf(v));
  }

  lemma DigitIsNumeral(digit: byte)
    requires Digit(digit)
    ensures var n := Numeral([], [digit], [], []); IsNumeral(n) && NumeralText(n) == [digit]
  {
  }

  lemma OneNumber(n: Numeral, m: MemberList)
    requires IsNumeral(n) && m == One(Unnamed, [], Num(n), [])
    ensures AreMembers(m, false) && LegibleMembers(m) && UnslashedMembers(m)
    ensures MembersText(m, false) == NumeralText(n) + [Code(']')]
  {
    assert [] + [] + NumeralText(n) + [] == NumeralText(n);
  }

  /** An array of one digit, whatever follows it. */
  lemma DigitIsFound(digit: byte, rest: bytes, n: nat)
    requires Code('0') <= digit <= Code('9') && n >= 3
    ensures JsonLength([Code('['), digit, Code(']')] + rest, 0, n) == 3
  {
    var numeral := Numeral([], [digit], [], []);
    var m := One(Unnamed, [], Num(numeral), []);
    DigitIsNumeral(digit);
    OneNumber(numeral, m);
    var v := Members(false, m);
    assert ValueText(v) == [Code('['), digit, Code(']')];
    assert [] + ValueText(v) == ValueText(v);
    GrammarExact([], v, rest, n);
  }

  // What is not in the grammar.

  predicate NumberOctet(b: byte) {
    Digit(b) || b in {Code('+'), Code('-'), Code('.'), Code('e'), Code('E')}
  }

  /** A digit or a minus sign, and then digits, signs, points and exponent letters in any order. */
  predicate LooksLikeNumber(s: bytes) {
    s != [] && (Digit(s[0]) || s[0] == Code('-')) && forall k :: 0 <= k < |s| ==> NumberOctet(s[k])
  }

  lemma {:induction false} NumberEnds(d: bytes, i: nat, e: nat, n: nat)
    requires i <= e < n && !IsNumberChar(At(d, e))
    requires forall k {:trigger At(d, k)} :: i <= k < e ==> IsNumberChar(At(d, k))
    ensures NumberStop(d, i, n) == e
    decreases e - i
  {
    if i < e {
      NumberEnds(d, i + 1, e, n);
    }
  }

  /** Such a text is taken for a number if a comma, a space or a closing bracket follows, and refused otherwise. */
  lemma NumberExact(s: bytes, b: byte, rest: bytes, n: nat)
    requires LooksLikeNumber(s) && !NumberOctet(b) && |s| < n
    ensures JsonLength(s + [b] + rest, 0, n)
         == if b in {Code(','), Code(' '), Code(']'), Code('}')} then |s| else -1
  {
    var d := s + [b] + rest;
    assert At(d, 0) == s[0] && At(d, |s|) == b;
    forall k {:trigger At(d, k)} | 1 <= k < |s| ensures IsNumberChar(At(d, k)) {
      assert At(d, k) == s[k] && NumberOctet(s[k]);
    }
    NumberEnds(d, 1, |s|, n);
    Dispatch(d, 0, n);
    NotALiteral(d, 0, n);
  }

  /** With the data at their end it waits for more exactly behind a point, an exponent letter or a sign. */
  lemma NumberSoFar(s: bytes, b: byte, rest: bytes)
    requires LooksLikeNumber(s) && b !in {Code(','), Code(' '), Code(']'), Code('}')}
    ensures JsonLength(s + [b] + rest, 0, |s|)
         == if s[|s| - 1] in {Code('.'), Code('e'), Code('E'), Code('-'), Code('+')} then 0 else |s|
  {
    var d, n := s + [b] + rest, |s|;
    forall k {:trigger At(d, k)} | 0 <= k < n ensures At(d, k) == s[k] && IsNumberChar(At(d, k)) {
      assert NumberOctet(s[k]);
    }
    assert At(d, n) == b;
    NumberToEnd(d, 1, n);
    Dispatch(d, 0, n);
  }

  lemma {:induction false} NumberToEnd(d: bytes, i: nat, n: nat)
    requires i <= n && forall k {:trigger At(d, k)} :: i <= k < n ==> IsNumberChar(At(d, k))
    ensures NumberStop(d, i, n) == n
    decreases n - i
  {
    if i < n {
      NumberToEnd(d, i + 1, n);
    }
  }

  /** No value, and no blank in front of one, starts with this octet. */
  predicate StartsNothing(b: byte) {
    && b !in {0x20, 0x09, 0x0A, 0x0B, 0x0C, 0x0D} && !Digit(b)
    && b !in {Code('['), Code('{'), Code('"'), Code('-'), Code('n'), Code('t'), Code('f')}
  }

  lemma StartsNothingHere(b: byte)
    requires StartsNothing(b)
    ensures !IsSpace(b) && !IsNumberStart(b) && b !in {OPEN_ARRAY, OPEN_OBJECT, QUOTE}
    ensures b != NULL_TEXT[0] && b != TRUE_TEXT[0] && b != FALSE_TEXT[0]
  {
  }

  lemma RefusedAtStart(d: bytes, n: nat, b: byte)
    requires n > 0 && At(d, 0) == b && !IsSpace(b) && !IsNumberStart(b) && b !in {OPEN_ARRAY, OPEN_OBJECT, QUOTE}
    requires b != NULL_TEXT[0] && b != TRUE_TEXT[0] && b != FALSE_TEXT[0]
    ensures JsonLength(d, 0, n) == -1
  {
    assert At(d, 0 + 0) == b;
    Dispatch(d, 0, n);
  }

  /** Nothing but blanks, brackets, strings, numbers and the three words can start a document. */
  lemma NothingElseStarts(b: byte, rest: bytes, n: nat)
    requires StartsNothing(b) && n > 0
    ensures JsonLength([b] + rest, 0, n) == -1
  {
    StartsNothingHere(b);
    RefusedAtStart([b] + rest, n, b);
  }

  /** A string is refused at its first octet outside the printable ones. */
  lemma StringRefused(s: bytes, b: byte, rest: bytes, n: nat)
    requires forall k :: 0 <= k < |s| ==> 0x20 <= s[k] <= 0x7E && s[k] != Code('"')
    requires !(0x20 <= b <= 0x7E) && 1 + |s| < n
    ensures JsonLength([Code('"')] + s + [b] + rest, 0, n) == -1
  {
    var d := [Code('"')] + s + [b] + rest;
    assert At(d, 0) == Code('"') && At(d, 1 + |s|) == b;
    StringStops(d, 1, n);
    var stop := StringStop(d, 1, n);
    assert stop < 1 + |s| ==> At(d, stop) == s[stop - 1];
    assert stop > 1 + |s| ==> InString(d, 1 + |s|);
    Dispatch(d, 0, n);
  }
}
