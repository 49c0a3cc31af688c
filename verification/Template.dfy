/**
 The path templates of the file backend: variables are replaced within the buffer, from
 left to right, and inserted text is never looked at again.
 */
module Template {
  import opened Bytes
  import opened Connection
  import opened Memory

  const PERCENT: byte := 37
  const SLASH: byte := 47
  const UNDERSCORE: byte := 95
  const SEMICOLON: byte := 59
  const EQUALS: byte := 61
  const ENDPOINT: bytes := Ascii("%endpoint%")
  const COOKIE: bytes := Ascii("%cookie:")
  const HEADER: bytes := Ascii("%header:")
  const SEPARATOR: bytes := [SEMICOLON, SPACE]

  /** One trailing slash goes, unless it is all there is. */
  function Trimmed(endpoint: bytes): bytes {
    if |endpoint| >= 2 && endpoint[|endpoint| - 1] == SLASH then endpoint[..|endpoint| - 1] else endpoint
  }

  /** Inserted text has no slashes. */
  function Sanitized(s: bytes): (r: bytes)
    ensures |r| == |s|
    ensures SLASH !in r
  {
    seq(|s|, i requires 0 <= i < |s| => if s[i] == SLASH then UNDERSCORE else s[i])
  }

  predicate SeparatorAt(v: bytes, i: nat) {
    i + 1 < |v| && v[i] == SEMICOLON && v[i + 1] == SPACE
  }

  function NextCookie(v: bytes, i: nat): (r: nat)
    requires i <= |v|
    ensures i <= r <= |v|
    decreases |v| - i
  {
    if i < |v| && !SeparatorAt(v, i) then NextCookie(v, i + 1) else i
  }

  /** The cookie of this name in the header value from `i` on; an empty one at the very end is not found. */
  function CookieAt(v: bytes, name: bytes, i: nat): Option<bytes>
    requires i <= |v|
    decreases |v| - i
  {
    if |v| - i < |name| + 1 then None
    else if v[i + |name|] == EQUALS && v[i..i + |name|] == name then
      var from := i + |name| + 1;
      if from == |v| then None else Some(v[from..IndexOf(v, from, SEMICOLON)])
    else
      var next := NextCookie(v, i);
      if next + 2 < |v| then CookieAt(v, name, next + 2) else None
  }

  function HeaderValue(headers: seq<HttpHeader>, tag: bytes): Option<bytes> {
    if headers == [] then None
    else if headers[0].tag == tag then Some(headers[0].value)
    else HeaderValue(headers[1..], tag)
  }

  /** What stands at the front of a template: plain text, a variable of this width with or without a value. */
  datatype Front = Plain | Missing(endpoint: bytes) | Value(text: bytes, width: nat, endpoint: bytes)

  function FrontOf(rest: bytes, endpoint: bytes, headers: seq<HttpHeader>): (f: Front)
    requires rest != []
    ensures f.Value? ==> 0 < f.width <= |rest|
  {
    if StartsAt(rest, 0, ENDPOINT) then
      if endpoint == [] then Missing(endpoint) else Value(Trimmed(endpoint)[1..], |ENDPOINT|, Trimmed(endpoint))
    else if StartsAt(rest, 0, COOKIE) then
      var end := IndexOf(rest, |COOKIE|, PERCENT);
      if end == |rest| then Missing(endpoint)
      else
        match HeaderValue(headers, Ascii("Cookie"))
        case None => Missing(endpoint)
        case Some(v) =>
          match CookieAt(v, rest[|COOKIE|..end], 0)
          case None => Missing(endpoint)
          case Some(text) => Value(text, end + 1, endpoint)
    else if StartsAt(rest, 0, HEADER) then
      var end := IndexOf(rest, |HEADER|, PERCENT);
      if end == |rest| then Missing(endpoint)
      else
        match HeaderValue(headers, rest[|HEADER|..end])
        case None => Missing(endpoint)
        case Some(text) => Value(text, end + 1, endpoint)
    else Plain
  }

  /** The endpoint is trimmed even if the expansion fails later on. */
  datatype Expansion = Expansion(ok: bool, text: bytes, endpoint: bytes)

  /** The insertion would not leave room for the terminator. */
  predicate TooLong(done: nat, rest: nat, width: nat, content: nat, size: nat) {
    width < content && done + rest + content - width >= size
  }

  /** Left-to-right substitution: `done` is expanded, `rest` is still template text. */
  function Expand(done: bytes, rest: bytes, endpoint: bytes, headers: seq<HttpHeader>, size: nat): Expansion
    decreases |rest|
  {
    if rest == [] then Expansion(true, done, endpoint)
    else
      match FrontOf(rest, endpoint, headers)
      case Plain => Expand(done + [rest[0]], rest[1..], endpoint, headers, size)
      case Missing(left) => Expansion(false, [], left)
      case Value(text, width, left) =>
        if TooLong(|done|, |rest|, width, |text|, size) then Expansion(false, [], left)
        else Expand(done + Sanitized(text), rest[width..], left, headers, size)
  }

  lemma {:induction false} ExpansionFits(done: bytes, rest: bytes, endpoint: bytes, headers: seq<HttpHeader>, size: nat)
    requires |done| + |rest| < size
    ensures var x := Expand(done, rest, endpoint, headers, size); x.ok ==> |x.text| < size && done <= x.text
    decreases |rest|
  {
    if rest != [] {
      match FrontOf(rest, endpoint, headers)
      case Plain => ExpansionFits(done + [rest[0]], rest[1..], endpoint, headers, size);
      case Missing(_) =>
      case Value(text, width, left) =>
        if !TooLong(|done|, |rest|, width, |text|, size) {
          ExpansionFits(done + Sanitized(text), rest[width..], left, headers, size);
        }
    }
  }

  /** A template in pieces: literal bytes and variables as they are written. */
  datatype Piece = Literal(b: byte) | Variable(text: bytes)

  predicate IsVariable(rest: bytes) {
    StartsAt(rest, 0, ENDPOINT) || StartsAt(rest, 0, COOKIE) || StartsAt(rest, 0, HEADER)
  }

  /** How far the variable at the front reaches. */
  function VariableEnd(rest: bytes): (n: nat)
    requires rest != []
    ensures 0 < n <= |rest|
  {
    if StartsAt(rest, 0, ENDPOINT) then |ENDPOINT|
    else if StartsAt(rest, 0, COOKIE) then Min(IndexOf(rest, |COOKIE|, PERCENT) + 1, |rest|)
    else if StartsAt(rest, 0, HEADER) then Min(IndexOf(rest, |HEADER|, PERCENT) + 1, |rest|)
    else 1
  }

  /** The pieces depend on the template alone. */
  function Pieces(rest: bytes): seq<Piece>
    decreases |rest|
  {
    if rest == [] then []
    else if IsVariable(rest) then [Variable(rest[..VariableEnd(rest)])] + Pieces(rest[VariableEnd(rest)..])
    else [Literal(rest[0])] + Pieces(rest[1..])
  }

  /** The value of a variable, looked up on its own. */
  function ValueOf(variable: bytes, endpoint: bytes, headers: seq<HttpHeader>): Option<bytes> {
    if variable == [] then None
    else
      match FrontOf(variable, endpoint, headers)
      case Value(text, _, _) => Some(text)
      case _ => None
  }

  /** The endpoint after this many trailing slashes were taken off, one at a time. */
  function After(pieces: seq<Piece>, endpoint: bytes): bytes {
    if pieces == [] then endpoint
    else After(pieces[1..], if pieces[0] == Variable(ENDPOINT) then Trimmed(endpoint) else endpoint)
  }

  /** The reference: literals stay, variables become their values, without slashes. */
  function Substituted(pieces: seq<Piece>, endpoint: bytes, headers: seq<HttpHeader>): Option<bytes> {
    if pieces == [] then Some([])
    else
      match pieces[0]
      case Literal(b) => Joined([b], Substituted(pieces[1..], endpoint, headers))
      case Variable(v) =>
        match ValueOf(v, endpoint, headers)
        case None => None
        case Some(text) =>
          Joined(Sanitized(text), Substituted(pieces[1..], if v == ENDPOINT then Trimmed(endpoint) else endpoint, headers))
  }

  function Joined(a: bytes, b: Option<bytes>): Option<bytes> {
    if b.Some? then Some(a + b.value) else None
  }

  lemma {:induction false} IndexInPrefix(s: bytes, t: bytes, i: nat, b: byte)
    requires i <= |s|
    ensures IndexOf(s, i, b) < |s| ==> IndexOf(s + t, i, b) == IndexOf(s, i, b)
    ensures IndexOf(s + t, i, b) < |s| ==> IndexOf(s, i, b) == IndexOf(s + t, i, b)
    decreases |s| - i
  {
    if i < |s| && s[i] != b {
      IndexInPrefix(s, t, i + 1, b);
    }
  }

  lemma StartsInPrefix(s: bytes, t: bytes, word: bytes)
    requires |word| <= |s|
    ensures StartsAt(s + t, 0, word) == StartsAt(s, 0, word)
  {
    SliceOfPrefix(s, t, 0, |word|);
  }

  lemma WordsDiffer(s: bytes)
    ensures StartsAt(s, 0, ENDPOINT) ==> !StartsAt(s, 0, COOKIE) && !StartsAt(s, 0, HEADER)
    ensures StartsAt(s, 0, COOKIE) ==> !StartsAt(s, 0, HEADER)
  {
    assert forall w: bytes :: StartsAt(s, 0, w) && |w| > 1 ==> s[1] == s[0..|w|][1] == w[1];
    assert ENDPOINT[1] != COOKIE[1] && ENDPOINT[1] != HEADER[1] && COOKIE[1] != HEADER[1];
  }

  /** A variable is looked up by its own text. */
  lemma FrontAlone(rest: bytes, endpoint: bytes, headers: seq<HttpHeader>)
    requires rest != [] && IsVariable(rest)
    ensures var n := VariableEnd(rest);
            var v := rest[..n];
            && FrontOf(v, endpoint, headers) == FrontOf(rest, endpoint, headers)
            && (FrontOf(rest, endpoint, headers).Value? ==> FrontOf(rest, endpoint, headers).width == n)
  {
    var n := VariableEnd(rest);
    var v, more := rest[..n], rest[n..];
    SplitAt(rest, n);
    WordsDiffer(rest);
    if StartsAt(rest, 0, ENDPOINT) {
      StartsInPrefix(v, more, ENDPOINT);
    } else if StartsAt(rest, 0, COOKIE) {
      VariableAlone(rest, v, COOKIE, n);
      WordsDiffer(v);
    } else {
      VariableAlone(rest, v, HEADER, n);
      WordsDiffer(v);
    }
  }

  lemma VariableAlone(rest: bytes, v: bytes, word: bytes, n: nat)
    requires StartsAt(rest, 0, word) && n == Min(IndexOf(rest, |word|, PERCENT) + 1, |rest|) && v == rest[..n]
    ensures |word| <= n && StartsAt(v, 0, word)
    ensures var i, j := IndexOf(rest, |word|, PERCENT), IndexOf(v, |word|, PERCENT);
            (i == |rest| <==> j == n) && (i < |rest| ==> i == j == n - 1 && v[|word|..j] == rest[|word|..i])
  {
    if IndexOf(rest, |word|, PERCENT) < |rest| {
      SplitAt(rest, n);
      VariableInFront(v, rest[n..], rest, word);
    } else {
      TakeAll(rest);
    }
  }

  lemma TakeAll(s: bytes)
    ensures s[..|s|] == s
  {
  }

  lemma VariableInFront(v: bytes, more: bytes, rest: bytes, word: bytes)
    requires rest == v + more && StartsAt(rest, 0, word) && IndexOf(rest, |word|, PERCENT) == |v| - 1
    ensures StartsAt(v, 0, word) && IndexOf(v, |word|, PERCENT) == |v| - 1
    ensures v[|word|..|v| - 1] == rest[|word|..|v| - 1]
  {
    StartsInPrefix(v, more, word);
    IndexInPrefix(v, more, |word|, PERCENT);
    SliceOfPrefix(v, more, |word|, |v| - 1);
  }

  /** How much template text the pieces stand for. */
  function Remaining(pieces: seq<Piece>): nat {
    if pieces == [] then 0
    else (if pieces[0].Literal? then 1 else |pieces[0].text|) + Remaining(pieces[1..])
  }

  lemma {:induction false} PiecesRemain(rest: bytes)
    ensures Remaining(Pieces(rest)) == |rest|
    decreases |rest|
  {
    if rest != [] {
      var n := if IsVariable(rest) then VariableEnd(rest) else 1;
      PiecesRemain(rest[n..]);
      assert Pieces(rest)[1..] == Pieces(rest[n..]);
    }
  }

  /** At every variable that grows, the text so far, the value and the rest of the template fit the buffer. */
  predicate Roomy(pieces: seq<Piece>, used: nat, endpoint: bytes, headers: seq<HttpHeader>, size: nat) {
    pieces == [] ||
    match pieces[0]
    case Literal(_) => Roomy(pieces[1..], used + 1, endpoint, headers, size)
    case Variable(v) =>
      match ValueOf(v, endpoint, headers)
      case None => true
      case Some(text) =>
        && (|text| > |v| ==> used + |text| + Remaining(pieces[1..]) < size)
        && Roomy(pieces[1..], used + |text|, if v == ENDPOINT then Trimmed(endpoint) else endpoint, headers, size)
  }

  lemma Unfold(rest: bytes)
    requires rest != []
    ensures Pieces(rest) != []
    ensures IsVariable(rest) ==>
      Pieces(rest)[0] == Variable(rest[..VariableEnd(rest)]) && Pieces(rest)[1..] == Pieces(rest[VariableEnd(rest)..])
    ensures !IsVariable(rest) ==> Pieces(rest)[0] == Literal(rest[0]) && Pieces(rest)[1..] == Pieces(rest[1..])
  {
  }

  /** What a variable does to the endpoint. */
  lemma EndpointAfter(rest: bytes, endpoint: bytes, headers: seq<HttpHeader>)
    requires rest != [] && IsVariable(rest) && FrontOf(rest, endpoint, headers).Value?
    ensures FrontOf(rest, endpoint, headers).endpoint
         == if rest[..VariableEnd(rest)] == ENDPOINT then Trimmed(endpoint) else endpoint
  {
    WordsDiffer(rest);
  }

  /** The substitution, the room and the endpoint for a variable in front of more pieces. */
  lemma VariableFirst(pieces: seq<Piece>, v: bytes, more: seq<Piece>, used: nat,
                      endpoint: bytes, headers: seq<HttpHeader>, size: nat)
    requires pieces != [] && pieces[0] == Variable(v) && pieces[1..] == more
    ensures var left := if v == ENDPOINT then Trimmed(endpoint) else endpoint;
            && After(pieces, endpoint) == After(more, left)
            && match ValueOf(v, endpoint, headers)
               case None => Substituted(pieces, endpoint, headers) == None
               case Some(text) =>
                 && Substituted(pieces, endpoint, headers) == Joined(Sanitized(text), Substituted(more, left, headers))
                 && (Roomy(pieces, used, endpoint, headers, size) <==>
                       (|text| > |v| ==> used + |text| + Remaining(more) < size)
                       && Roomy(more, used + |text|, left, headers, size))
  {
  }

  lemma LiteralFirst(pieces: seq<Piece>, b: byte, more: seq<Piece>, used: nat,
                     endpoint: bytes, headers: seq<HttpHeader>, size: nat)
    requires pieces != [] && pieces[0] == Literal(b) && pieces[1..] == more
    ensures After(pieces, endpoint) == After(more, endpoint)
    ensures Substituted(pieces, endpoint, headers) == Joined([b], Substituted(more, endpoint, headers))
    ensures Roomy(pieces, used, endpoint, headers, size) <==> Roomy(more, used + 1, endpoint, headers, size)
  {
  }

  /** The same step of the expansion. */
  lemma ExpandVariable(done: bytes, rest: bytes, v: bytes, tail: bytes, endpoint: bytes, headers: seq<HttpHeader>,
                       size: nat)
    requires rest != [] && IsVariable(rest) && v == rest[..VariableEnd(rest)] && tail == rest[VariableEnd(rest)..]
    ensures var left := if v == ENDPOINT then Trimmed(endpoint) else endpoint;
            match ValueOf(v, endpoint, headers)
            case None => !Expand(done, rest, endpoint, headers, size).ok
            case Some(text) =>
              if |text| > |v| && |done| + |text| + |tail| >= size then !Expand(done, rest, endpoint, headers, size).ok
              else Expand(done, rest, endpoint, headers, size) == Expand(done + Sanitized(text), tail, left, headers, size)
  {
    FrontAlone(rest, endpoint, headers);
    FrontIsNotPlain(rest, endpoint, headers);
    if FrontOf(rest, endpoint, headers).Value? {
      EndpointAfter(rest, endpoint, headers);
    }
  }

  lemma FrontIsNotPlain(rest: bytes, endpoint: bytes, headers: seq<HttpHeader>)
    requires rest != []
    ensures FrontOf(rest, endpoint, headers).Plain? <==> !IsVariable(rest)
  {
  }

  lemma ExpandLiteral(done: bytes, rest: bytes, endpoint: bytes, headers: seq<HttpHeader>, size: nat)
    requires rest != [] && !IsVariable(rest)
    ensures Expand(done, rest, endpoint, headers, size) == Expand(done + [rest[0]], rest[1..], endpoint, headers, size)
  {
  }

  /** Expansion and substitution agree, given what is done already. */
  ghost predicate Agree(x: Expansion, done: bytes, s: Option<bytes>, roomy: bool, endpoint: bytes) {
    && (x.ok <==> s.Some? && roomy)
    && (x.ok ==> x.text == done + s.value && x.endpoint == endpoint)
  }

  lemma AgreeJoined(x: Expansion, done: bytes, a: bytes, s: Option<bytes>, roomy: bool, endpoint: bytes)
    requires Agree(x, done + a, s, roomy, endpoint)
    ensures Agree(x, done, Joined(a, s), roomy, endpoint)
  {
    if s.Some? {
      Regroup(done, a, s.value);
    }
  }

  /**
   The expansion is the substitution of the template's pieces: it succeeds if and only if
   every variable has a value and there is room at every step, and then it is the literals
   with each variable replaced by its value, and the endpoint lost one trailing slash for
   each use.
   */
  lemma {:induction false} ExpandIsSubstitution(done: bytes, rest: bytes, endpoint: bytes, headers: seq<HttpHeader>,
                                                size: nat)
    ensures var pieces := Pieces(rest);
            Agree(Expand(done, rest, endpoint, headers, size), done,
                  Substituted(pieces, endpoint, headers), Roomy(pieces, |done|, endpoint, headers, size), After(pieces, endpoint))
    decreases |rest|
  {
    var x, pieces := Expand(done, rest, endpoint, headers, size), Pieces(rest);
    if rest == [] {
      assert done + [] == done;
    } else if IsVariable(rest) {
      Unfold(rest);
      var v, tail := rest[..VariableEnd(rest)], rest[VariableEnd(rest)..];
      var more, left := Pieces(tail), if v == ENDPOINT then Trimmed(endpoint) else endpoint;
      VariableFirst(pieces, v, more, |done|, endpoint, headers, size);
      ExpandVariable(done, rest, v, tail, endpoint, headers, size);
      PiecesRemain(tail);
      var value := ValueOf(v, endpoint, headers);
      if value.Some? {
        var a := Sanitized(value.value);
        ExpandIsSubstitution(done + a, tail, left, headers, size);
        AgreeJoined(Expand(done + a, tail, left, headers, size), done, a,
                    Substituted(more, left, headers), Roomy(more, |done + a|, left, headers, size), After(more, left));
      }
    } else {
      Unfold(rest);
      var b, tail := rest[0], rest[1..];
      LiteralFirst(pieces, b, Pieces(tail), |done|, endpoint, headers, size);
      ExpandLiteral(done, rest, endpoint, headers, size);
      ExpandIsSubstitution(done + [b], tail, endpoint, headers, size);
      AgreeJoined(x, done, [b], Substituted(Pieces(tail), endpoint, headers),
                  Roomy(Pieces(tail), |done + [b]|, endpoint, headers, size), After(Pieces(tail), endpoint));
    }
  }

  function Slashes(s: bytes): nat {
    if s == [] then 0 else (if s[0] == SLASH then 1 else 0) + Slashes(s[1..])
  }

  function LiteralSlashes(pieces: seq<Piece>): nat {
    if pieces == [] then 0 else (if pieces[0] == Literal(SLASH) then 1 else 0) + LiteralSlashes(pieces[1..])
  }

  lemma {:induction false} SlashesAppend(a: bytes, b: bytes)
    ensures Slashes(a + b) == Slashes(a) + Slashes(b)
    ensures SLASH !in a ==> Slashes(a) == 0
  {
    if a == [] {
      assert a + b == b;
    } else {
      assert (a + b)[1..] == a[1..] + b;
      SlashesAppend(a[1..], b);
    }
  }

  /** The path has exactly the slashes that are written in the template. */
  lemma {:induction false} OnlyLiteralSlashes(pieces: seq<Piece>, endpoint: bytes, headers: seq<HttpHeader>)
    requires Substituted(pieces, endpoint, headers).Some?
    ensures Slashes(Substituted(pieces, endpoint, headers).value) == LiteralSlashes(pieces)
    decreases |pieces|
  {
    if pieces != [] {
      match pieces[0]
      case Literal(b) =>
        OnlyLiteralSlashes(pieces[1..], endpoint, headers);
        SlashesAppend([b], Substituted(pieces[1..], endpoint, headers).value);
        assert [b][1..] == [];
      case Variable(v) =>
        var left := if v == ENDPOINT then Trimmed(endpoint) else endpoint;
        OnlyLiteralSlashes(pieces[1..], left, headers);
        SlashesAppend(Sanitized(ValueOf(v, endpoint, headers).value), Substituted(pieces[1..], left, headers).value);
    }
  }

  /** The cookie header ends with the cookie looked for, and that is empty: the template fails. */
  lemma EmptyLastCookie(name: bytes)
    ensures CookieAt(name + [EQUALS], name, 0) == None
    ensures CookieAt(name + [EQUALS] + [SEMICOLON], name, 0) == Some([])
  {
    var v := name + [EQUALS] + [SEMICOLON];
    assert v[|name|] == EQUALS && v[|name| + 1] == SEMICOLON && v[|name| + 1..|name| + 1] == [];
    assert (name + [EQUALS])[0..|name|] == name && v[0..|name|] == name;
  }
}
