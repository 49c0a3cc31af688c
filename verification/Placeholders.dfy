/**
 Path templates as the file backend documents them: which variables a template has, and what
 each of them stands for.
 */
module Placeholders {
  import opened Bytes
  import opened Memory
  import opened Connection
  import opened Template
  import opened Cookies

  /** A piece of a template: a character, or a variable, whose name has no percent sign. */
  datatype Part = Plain(b: byte) | TheEndpoint | CookieNamed(name: bytes) | HeaderTagged(tag: bytes)

  predicate IsPart(p: Part) {
    match p
    case Plain(b) => b != 0x25
    case TheEndpoint => true
    case CookieNamed(name) => 0x25 !in name
    case HeaderTagged(tag) => 0x25 !in tag
  }

  function PartText(p: Part): bytes {
    match p
    case Plain(b) => [b]
    case TheEndpoint => Ascii("%endpoint%")
    case CookieNamed(name) => Ascii("%cookie:") + name + [0x25]
    case HeaderTagged(tag) => Ascii("%header:") + tag + [0x25]
  }

  function PieceOf(p: Part): Piece {
    if p.Plain? then Literal(p.b) else Variable(PartText(p))
  }

  predicate AreParts(parts: seq<Part>) {
    parts == [] || (IsPart(parts[0]) && AreParts(parts[1..]))
  }

  function TemplateText(parts: seq<Part>): bytes {
    if parts == [] then [] else PartText(parts[0]) + TemplateText(parts[1..])
  }

  function PiecesOf(parts: seq<Part>): seq<Piece> {
    if parts == [] then [] else [PieceOf(parts[0])] + PiecesOf(parts[1..])
  }

  /** The percent sign that ends a name is the first one behind its start. */
  lemma {:induction false} IndexOfEnd(word: bytes, name: bytes, rest: bytes, i: nat)
    requires 0x25 !in name && |word| <= i <= |word| + |name|
    ensures IndexOf(word + name + [0x25] + rest, i, PERCENT) == |word| + |name|
    decreases |word| + |name| - i
  {
    var s := word + name + [0x25] + rest;
    if i < |word| + |name| {
      assert s[i] == name[i - |word|];
      IndexOfEnd(word, name, rest, i + 1);
    } else {
      assert s[i] == 0x25;
    }
  }

  lemma NamedEnd(word: bytes, name: bytes, rest: bytes)
    requires 0x25 !in name && word in {COOKIE, HEADER}
    ensures var v := word + name + [0x25]; IsVariable(v + rest) && VariableEnd(v + rest) == |v|
  {
    var s := word + name + [0x25] + rest;
    assert s[0..|word|] == word;
    WordsDiffer(s);
    IndexOfEnd(word, name, rest, |word|);
  }

  lemma PlainIsNone(s: bytes)
    requires s != [] && s[0] != 0x25
    ensures !IsVariable(s)
  {
    assert forall w: bytes :: StartsAt(s, 0, w) && |w| > 1 ==> s[0] == s[0..|w|][0] == w[0];
    assert ENDPOINT[0] == 0x25 && COOKIE[0] == 0x25 && HEADER[0] == 0x25;
  }

  lemma PartFirst(p: Part, rest: bytes)
    requires IsPart(p)
    ensures Pieces(PartText(p) + rest) == [PieceOf(p)] + Pieces(rest)
  {
    var text := PartText(p);
    var s := text + rest;
    assert s[..|text|] == text && s[|text|..] == rest;
    match p
    case Plain(b) => PlainIsNone(s);
    case TheEndpoint => WordsDiffer(s);
    case CookieNamed(name) => NamedEnd(COOKIE, name, rest);
    case HeaderTagged(tag) => NamedEnd(HEADER, tag, rest);
  }

  /** A template is taken apart into what it was made of. */
  lemma {:induction false} TemplateIsRead(parts: seq<Part>)
    requires AreParts(parts)
    ensures Pieces(TemplateText(parts)) == PiecesOf(parts)
  {
    if parts != [] {
      TemplateIsRead(parts[1..]);
      PartFirst(parts[0], TemplateText(parts[1..]));
    }
  }

  /** The first header with exactly this tag. */
  predicate FirstTagged(headers: seq<HttpHeader>, tag: bytes, i: nat) {
    i < |headers| && headers[i].tag == tag && forall j :: 0 <= j < i ==> headers[j].tag != tag
  }

  predicate NoneTagged(headers: seq<HttpHeader>, tag: bytes) {
    forall j :: 0 <= j < |headers| ==> headers[j].tag != tag
  }

  lemma {:induction false} HeaderIsFirst(headers: seq<HttpHeader>, tag: bytes, i: nat)
    requires FirstTagged(headers, tag, i)
    ensures HeaderValue(headers, tag) == Some(headers[i].value)
  {
    if i > 0 {
      forall j | 0 <= j < i - 1 ensures headers[1..][j].tag != tag {
        assert headers[1..][j] == headers[j + 1];
      }
      HeaderIsFirst(headers[1..], tag, i - 1);
    }
  }

  lemma {:induction false} HeaderIsMissing(headers: seq<HttpHeader>, tag: bytes)
    ensures HeaderValue(headers, tag) == None <==> NoneTagged(headers, tag)
  {
    if headers != [] && headers[0].tag != tag {
      HeaderIsMissing(headers[1..], tag);
      assert forall j :: 1 <= j < |headers| ==> headers[j] == headers[1..][j - 1];
      if NoneTagged(headers[1..], tag) {
        forall j | 0 <= j < |headers| ensures headers[j].tag != tag {
          assert j > 0 ==> headers[1..][j - 1].tag != tag;
        }
      } else {
        var j :| 0 <= j < |headers[1..]| && headers[1..][j].tag == tag;
        assert headers[j + 1].tag == tag;
      }
    }
  }

  lemma NamedFront(word: bytes, name: bytes)
    requires 0x25 !in name && word in {COOKIE, HEADER}
    ensures var v := word + name + [0x25];
            && StartsAt(v, 0, word) && !StartsAt(v, 0, ENDPOINT) && (word == HEADER ==> !StartsAt(v, 0, COOKIE))
            && IndexOf(v, |word|, PERCENT) == |word| + |name| && v[|word|..|word| + |name|] == name
  {
    var v := word + name + [0x25];
    assert v[0..|word|] == word && v + [] == v;
    WordsDiffer(v);
    IndexOfEnd(word, name, [], |word|);
  }

  lemma HeaderFront(tag: bytes, endpoint: bytes, headers: seq<HttpHeader>)
    requires 0x25 !in tag
    ensures ValueOf(PartText(HeaderTagged(tag)), endpoint, headers) == HeaderValue(headers, tag)
  {
    NamedFront(HEADER, tag);
  }

  /** A header variable stands for the value of the first header with that tag, and fails if there is none. */
  lemma HeaderVariable(tag: bytes, endpoint: bytes, headers: seq<HttpHeader>, i: nat)
    requires 0x25 !in tag
    ensures var value := ValueOf(PartText(HeaderTagged(tag)), endpoint, headers);
            && (FirstTagged(headers, tag, i) ==> value == Some(headers[i].value))
            && (value == None <==> NoneTagged(headers, tag))
  {
    HeaderFront(tag, endpoint, headers);
    HeaderIsMissing(headers, tag);
    if FirstTagged(headers, tag, i) {
      HeaderIsFirst(headers, tag, i);
    }
  }

  lemma CookieFront(name: bytes, endpoint: bytes, headers: seq<HttpHeader>)
    requires 0x25 !in name
    ensures ValueOf(PartText(CookieNamed(name)), endpoint, headers)
         == match HeaderValue(headers, Ascii("Cookie"))
            case None => None
            case Some(v) => CookieAt(v, name, 0)
  {
    NamedFront(COOKIE, name);
  }

  /**
   A cookie variable stands for the first cookie of that name in the first header with the tag
   `Cookie`, if and only if there is one and it is not both empty and the last there; without
   such a header it fails.
   */
  lemma CookieVariable(name: bytes, endpoint: bytes, headers: seq<HttpHeader>, i: nat, pairs: seq<Pair>)
    requires 0x25 !in name && 0x3D !in name && 0x3B !in name && AreCookies(pairs)
    ensures var value := ValueOf(PartText(CookieNamed(name)), endpoint, headers);
            && (NoneTagged(headers, Ascii("Cookie")) ==> value == None)
            && (FirstTagged(headers, Ascii("Cookie"), i) && headers[i].value == Printed(pairs) ==>
                  var k := FirstNamed(pairs, name);
                  value == if k == |pairs| || (k == |pairs| - 1 && pairs[k].value == []) then None
                           else Some(pairs[k].value))
  {
    CookieFront(name, endpoint, headers);
    HeaderIsMissing(headers, Ascii("Cookie"));
    if FirstTagged(headers, Ascii("Cookie"), i) {
      HeaderIsFirst(headers, Ascii("Cookie"), i);
      CookieIsFound(pairs, name);
    }
  }

  /** The endpoint stands for what is behind its first slash, without one slash at the end. */
  lemma EndpointVariable(text: bytes, headers: seq<HttpHeader>)
    ensures ValueOf(PartText(TheEndpoint), [0x2F] + text + [0x2F], headers) == Some(text)
    ensures text == [] || text[|text| - 1] != 0x2F ==>
              ValueOf(PartText(TheEndpoint), [0x2F] + text, headers) == Some(text)
    ensures ValueOf(PartText(TheEndpoint), [], headers) == None
  {
    var v := PartText(TheEndpoint);
    assert StartsAt(v, 0, ENDPOINT);
    assert ([0x2F] + text + [0x2F])[..|text| + 1][1..] == text && ([0x2F] + text)[1..] == text;
  }

  /** Slashes of a value become underscores, and nothing else changes. */
  lemma SlashesTurn(a: bytes, b: bytes)
    requires 0x2F !in a
    ensures Sanitized(a) == a && Sanitized(a + [0x2F] + b) == a + [0x5F] + Sanitized(b)
  {
    forall i | 0 <= i < |a| ensures Sanitized(a)[i] == a[i] {
      assert a[i] in a;
    }
    var s := a + [0x2F] + b;
    forall i | 0 <= i < |s| ensures Sanitized(s)[i] == (a + [0x5F] + Sanitized(b))[i] {
      assert i < |a| ==> s[i] == a[i] && a[i] in a;
    }
  }

  /** A variable whose name does not end makes the template fail. */
  lemma UnterminatedFails(word: bytes, name: bytes, done: bytes, endpoint: bytes, headers: seq<HttpHeader>, size: nat)
    requires word in {Ascii("%cookie:"), Ascii("%header:")} && 0x25 !in name
    ensures !Expand(done, word + name, endpoint, headers, size).ok
  {
    var s := word + name;
    assert s[0..|word|] == word && s[|word|..] == name;
    WordsDiffer(s);
    assert forall k :: |word| <= k < |s| ==> s[k] == name[k - |word|];
    IndexOfNone(s, |word|, PERCENT);
  }
}
