/** The scans that take a header line apart, as they run. */
module HeaderLines {
  import opened Bytes
  import opened Memory
  import opened Connection
  import opened Handshake

  /** `strchr` from `i` on. */
  method IndexOfByte(s: bytes, i: nat, b: byte) returns (n: nat)
    requires i <= |s|
    ensures n == IndexOf(s, i, b)
  {
    n := i;
    while n < |s| && s[n] != b
      invariant i <= n <= |s| && IndexOf(s, i, b) == IndexOf(s, n, b)
    {
      n := n + 1;
    }
  }

  /** The line as a C string. */
  method TextOf(line: bytes) returns (s: bytes)
    ensures s == CText(line)
  {
    var n := 0;
    while n < |line| && line[n] != 0
      invariant n <= |line| && CText(line) == line[..n] + CText(line[n..])
    {
      TextStep(line, n);
      n := n + 1;
    }
    s := line[..n];
    assert s + [] == s;
  }

  lemma TextStep(line: bytes, n: nat)
    requires n < |line| && line[n] != 0
    ensures line[..n] + CText(line[n..]) == line[..n + 1] + CText(line[n + 1..])
  {
    assert line[n..][1..] == line[n + 1..];
    SliceGrows(line, 0, n);
    Regroup(line[..n], [line[n]], CText(line[n + 1..]));
  }

  method SkipBlanks(s: bytes) returns (r: bytes)
    ensures r == LTrim(s)
  {
    var u := 0;
    while u < |s| && IsSpace(s[u])
      invariant u <= |s| && LTrim(s) == LTrim(s[u..])
    {
      assert s[u..][1..] == s[u + 1..];
      u := u + 1;
    }
    r := s[u..];
  }

  method DropBlanks(s: bytes) returns (r: bytes)
    ensures r == RTrim(s)
  {
    var n := |s|;
    assert s[..n] == s;
    while n > 0 && IsSpace(s[n - 1])
      invariant n <= |s| && RTrim(s) == RTrim(s[..n])
    {
      assert s[..n][..n - 1] == s[..n - 1];
      n := n - 1;
    }
    r := s[..n];
  }

  /** Lower case, letter by letter and in place. */
  method LowerInPlace(a: array<byte>)
    modifies a
    ensures a[..] == Lower(old(a[..]))
  {
    var n := 0;
    while n < a.Length
      invariant n <= a.Length
      invariant forall i :: 0 <= i < n ==> a[i] == ToLower(old(a[i]))
      invariant forall i :: n <= i < a.Length ==> a[i] == old(a[i])
    {
      a[n] := ToLower(a[n]);
      n := n + 1;
    }
  }

  method LowerCase(s: bytes) returns (r: bytes)
    ensures r == Lower(s)
  {
    var a := new byte[|s|](i requires 0 <= i < |s| => s[i]);
    assert a[..] == s;
    LowerInPlace(a);
    r := a[..];
  }

  /** `strstr`. */
  method FindWord(s: bytes, word: bytes) returns (found: bool)
    ensures found == Contains(s, word)
  {
    var i := 0;
    while i + |word| <= |s|
      invariant i <= |s| + 1 && forall k :: 0 <= k < i ==> !StartsAt(s, k, word)
      decreases |s| - i
    {
      if s[i..i + |word|] == word {
        assert StartsAt(s, i, word);
        return true;
      }
      i := i + 1;
    }
    assert forall k :: i <= k <= |s| ==> !StartsAt(s, k, word);
    return false;
  }

  lemma {:induction false} IndexInRest(s: bytes, u: nat, i: nat, b: byte)
    requires u + i <= |s|
    ensures IndexOf(s[u..], i, b) + u == IndexOf(s, u + i, b)
    decreases |s| - i
  {
    if u + i < |s| {
      IndexInRest(s, u, i + 1, b);
    }
  }

  /** The next token, none between two commas, and what is behind its comma. */
  function NextToken(s: bytes, u: nat, n: nat): seq<bytes>
    requires u <= n <= |s|
  {
    if n == u then [] else [s[u..n]]
  }

  function Behind(s: bytes, n: nat): bytes
    requires n <= |s|
  {
    if n == |s| then [] else s[n + 1..]
  }

  lemma TokensStep(s: bytes, u: nat, n: nat)
    requires u < |s| && n == IndexOf(s, u, COMMA)
    ensures Tokens(s[u..]) == NextToken(s, u, n) + Tokens(Behind(s, n))
  {
    IndexInRest(s, u, 0, COMMA);
    PartsOfRest(s, u, n);
    TokensUnfold(s[u..], n - u, s[u..n], Behind(s, n));
  }

  lemma TokensUnfold(s: bytes, n: nat, first: bytes, more: bytes)
    requires s != [] && n == IndexOf(s, 0, COMMA) && first == s[..n] && more == if n == |s| then [] else s[n + 1..]
    ensures Tokens(s) == (if n == 0 then [] else [first]) + Tokens(more)
  {
  }

  lemma PartsOfRest(s: bytes, u: nat, n: nat)
    requires u <= n <= |s|
    ensures s[u..][..n - u] == s[u..n] && (n < |s| ==> s[u..][n - u + 1..] == s[n + 1..])
  {
  }

  lemma TrimmedStep(s: bytes, u: nat, n: nat, done: seq<bytes>)
    requires u < |s| && n == IndexOf(s, u, COMMA)
    ensures done + Trimmed(Tokens(s[u..])) == (done + Trimmed(NextToken(s, u, n))) + Trimmed(Tokens(Behind(s, n)))
  {
    TokensStep(s, u, n);
    TrimmedAppend(NextToken(s, u, n), Tokens(Behind(s, n)));
    Regroup(done, Trimmed(NextToken(s, u, n)), Trimmed(Tokens(Behind(s, n))));
  }

  lemma {:induction false} TrimmedAppend(a: seq<bytes>, b: seq<bytes>)
    ensures Trimmed(a + b) == Trimmed(a) + Trimmed(b)
  {
    if a == [] {
      assert a + b == b;
    } else {
      TrimmedAppend(a[1..], b);
      assert (a + b)[1..] == a[1..] + b;
    }
  }

  lemma TrimmedOne(t: bytes)
    ensures Trimmed([t]) == [RTrim(LTrim(t))] && Trimmed([]) == []
  {
    assert [t][1..] == [];
  }

  /** `strtok` over commas, each token trimmed on both sides. */
  method SplitOffers(s: bytes) returns (tokens: seq<bytes>)
    ensures tokens == Trimmed(Tokens(s))
  {
    var u := 0;
    tokens := [];
    assert s[0..] == s && [] + Trimmed(Tokens(s)) == Trimmed(Tokens(s));
    while u < |s|
      invariant u <= |s| && Trimmed(Tokens(s)) == tokens + Trimmed(Tokens(s[u..]))
      decreases |s| - u
    {
      var n := IndexOfByte(s, u, COMMA);
      TrimmedStep(s, u, n, tokens);
      TrimmedOne(s[u..n]);
      if n > u {
        var t := SkipBlanks(s[u..n]);
        t := DropBlanks(t);
        tokens := tokens + [t];
      } else {
        assert tokens + [] == tokens;
      }
      u := if n == |s| then n else n + 1;
    }
    assert tokens + [] == tokens;
  }

  /** What a tag and its value say. */
  method ParseField(tag: bytes, value: bytes) returns (f: Field)
    ensures f == FieldOf(tag, value)
  {
    if tag == Ascii("Sec-WebSocket-Version") {
      return Version(value);
    }
    if tag == Ascii("Sec-WebSocket-Key") {
      var key := DropBlanks(value);
      return TheKey(key);
    }
    if tag == Ascii("Upgrade") {
      var lower := LowerCase(value);
      if lower == Ascii("websocket") {
        return WantsUpgrade;
      }
    }
    if tag == Ascii("Connection") {
      var lower := LowerCase(value);
      var found := FindWord(lower, Ascii("upgrade"));
      return if found then WantsConnection else Stored(HttpHeader(tag, lower));
    }
    if tag == Ascii("Sec-WebSocket-Protocol") {
      var offers := SplitOffers(value);
      return Offers(offers);
    }
    return Stored(HttpHeader(tag, value));
  }

  method ParseLine(line: bytes) returns (l: Line)
    ensures l == LineOf(line)
  {
    var s := TextOf(line);
    if s == [] {
      return Empty;
    }
    if IsSpace(s[0]) {
      return Folded;
    }
    var colon := IndexOfByte(s, 0, COLON);
    if colon == |s| {
      return Malformed;
    }
    var value := SkipBlanks(s[colon + 1..]);
    var field := ParseField(s[..colon], value);
    return HeaderLine(field);
  }
}
