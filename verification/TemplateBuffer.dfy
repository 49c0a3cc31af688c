/** Template expansion as it runs: within the path buffer, the endpoint trimmed in its own buffer. */
module TemplateBuffer {
  import opened Bytes
  import opened Connection
  import opened Memory
  import opened Template
  import opened Cookies

  /** The slashes of the content just inserted become underscores. */
  method Sanitize(buffer: array<byte>, at: nat, ghost content: bytes, n: nat)
    requires at + n <= buffer.Length && n == |content| && buffer[at..at + n] == content
    modifies buffer
    ensures buffer[..] == old(buffer[..at]) + Sanitized(content) + old(buffer[at + n..])
  {
    ghost var clean := Sanitized(content);
    var u := 0;
    while u < n
      invariant u <= n
      invariant forall i :: 0 <= i < buffer.Length && !(at <= i < at + u) ==> buffer[i] == old(buffer[i])
      invariant forall i :: 0 <= i < u ==> buffer[at + i] == clean[i]
    {
      assert buffer[at + u] == old(buffer[at + u]) == old(buffer[at..at + n])[u] == content[u];
      if buffer[at + u] == SLASH {
        buffer[at + u] := UNDERSCORE;
      }
      u := u + 1;
    }
    assert buffer[at..at + n] == clean;
  }

  /** A string in a buffer, seen as text, terminator and what lies behind. */
  lemma StringOf(a: array<byte>, s: bytes, behind: bytes)
    requires a[..] == s + [0] + behind && NoNul(s)
    ensures CString(a, s)
  {
    assert a[..][..|s|] == s && a[..][|s|] == 0;
  }

  /** The tail of the string and its terminator move to their new place, behind `n` bytes for the content. */
  method MoveTail(buffer: array<byte>, at: nat, width: nat, n: nat, length: nat, ghost done: bytes, ghost rest: bytes)
    returns (ghost behind: bytes)
    requires CString(buffer, done + rest) && at == |done| && length == |rest| && width <= length
    requires at + n + length - width < buffer.Length
    modifies buffer
    ensures buffer[..at] == done && buffer[at + n..] == rest[width..] + [0] + behind
  {
    var to, m := at + n, length - width + 1;
    behind := buffer[to + m..];
    Located(buffer, done, rest, width);
    ghost var front := buffer[..to];
    assert front[..at] == done;
    MemMove(buffer, to, at + width, m);
    TwoParts(buffer, to, to + m);
    assert buffer[..to] == front;
  }

  lemma Located(a: array<byte>, done: bytes, rest: bytes, width: nat)
    requires CString(a, done + rest) && width <= |rest|
    ensures a[..|done|] == done
    ensures a[|done| + width..|done| + width + |rest| - width + 1] == rest[width..] + [0]
  {
    var s := done + rest;
    assert forall k :: 0 <= k < |s| ==> a[k] == s[k];
  }

  /** The content is copied into the gap and cleaned there. */
  method Insert(buffer: array<byte>, at: nat, content: bytes, ghost done: bytes, ghost tail: bytes, ghost behind: bytes)
    requires at == |done| && at + |content| <= buffer.Length
    requires buffer[..at] == done && buffer[at + |content|..] == tail + [0] + behind
    requires NoNul(done + Sanitized(content) + tail)
    modifies buffer
    ensures CString(buffer, done + Sanitized(content) + tail)
  {
    MemCpy(buffer, at, content);
    Sanitize(buffer, at, content, |content|);
    Regroup(done + Sanitized(content), tail + [0], behind);
    Regroup(done + Sanitized(content), tail, [0]);
    StringOf(buffer, done + Sanitized(content) + tail, behind);
  }

  /**
   Replacing `width` bytes at `at` by `content`, for a buffer of `size` bytes.  The tail is
   moved first, then the content is copied in and its slashes are turned into underscores.
   */
  method Replace(buffer: array<byte>, at: nat, size: nat, width: nat, content: bytes, ghost done: bytes,
                 ghost rest: bytes)
    returns (failed: bool)
    requires CString(buffer, done + rest) && at == |done| && width <= |rest| && at + |rest| < size <= buffer.Length
    requires NoNul(content)
    modifies buffer
    ensures failed <==> TooLong(at, |rest|, width, |content|, size)
    ensures failed ==> CString(buffer, done + rest)
    ensures !failed ==> CString(buffer, done + Sanitized(content) + rest[width..])
  {
    var total := StrLen(buffer, done + rest);
    var length := total - at;
    if width < |content| && at + length + (|content| - width) >= size {
      return true;
    }
    Parts(done, rest, width, content);
    ghost var behind := MoveTail(buffer, at, width, |content|, length, done, rest);
    Insert(buffer, at, content, done, rest[width..], behind);
    return false;
  }

  lemma Parts(done: bytes, rest: bytes, width: nat, content: bytes)
    requires NoNul(done + rest) && width <= |rest| && NoNul(content)
    ensures NoNul(done + Sanitized(content) + rest[width..])
  {
    assert forall i :: 0 <= i < |done| ==> done[i] == (done + rest)[i];
    assert forall i :: 0 <= i < |rest| ==> rest[i] == (done + rest)[|done| + i];
  }

  /** The number of bytes from `i` to the next `%` or the end. */
  method NameLength(buffer: array<byte>, i: nat, ghost s: bytes) returns (n: nat)
    requires CString(buffer, s) && i <= |s|
    ensures i + n == IndexOf(s, i, PERCENT)
  {
    n := 0;
    while buffer[i + n] != 0 && buffer[i + n] != PERCENT
      invariant i + n <= |s| && IndexOf(s, i, PERCENT) == IndexOf(s, i + n, PERCENT)
      decreases |s| - n
    {
      n := n + 1;
    }
  }

  method FindHeader(headers: seq<HttpHeader>, tag: bytes) returns (value: Option<bytes>)
    ensures value == HeaderValue(headers, tag)
  {
    var p := 0;
    while p < |headers| && headers[p].tag != tag
      invariant p <= |headers| && HeaderValue(headers, tag) == HeaderValue(headers[p..], tag)
    {
      p := p + 1;
    }
    if p == |headers| {
      return None;
    }
    return Some(headers[p].value);
  }

  /** The number of bytes of a cookie's value. */
  method ValueLength(v: bytes, from: nat) returns (n: nat)
    requires from <= |v|
    ensures from + n == IndexOf(v, from, SEMICOLON)
  {
    n := 0;
    while from + n < |v| && v[from + n] != SEMICOLON
      invariant from + n <= |v| && IndexOf(v, from, SEMICOLON) == IndexOf(v, from + n, SEMICOLON)
    {
      n := n + 1;
    }
  }

  method SkipCookie(v: bytes, i: nat) returns (j: nat)
    requires i <= |v|
    ensures j == NextCookie(v, i)
  {
    j := i;
    while j < |v| && !SeparatorAt(v, j)
      invariant i <= j <= |v| && NextCookie(v, i) == NextCookie(v, j)
    {
      j := j + 1;
    }
  }

  /** The scan through a cookie header; `i` is where the pointer into the value stands. */
  method FindCookie(v: bytes, name: bytes) returns (found: Option<bytes>)
    ensures found == CookieAt(v, name, 0)
    ensures forall crumbs {:trigger CookieHeader(crumbs)} :: AreCrumbs(crumbs) && v == CookieHeader(crumbs) ==>
              found == LookupOn(crumbs, name)
  {
    forall crumbs {:trigger CookieHeader(crumbs)} | AreCrumbs(crumbs) && v == CookieHeader(crumbs)
      ensures CookieAt(v, name, 0) == LookupOn(crumbs, name)
    {
      ScanIsLookup(crumbs, name);
    }
    var i := 0;
    while true
      invariant i <= |v| && CookieAt(v, name, i) == CookieAt(v, name, 0)
      decreases |v| - i
    {
      if |v| - i < |name| + 1 {
        return None;
      }
      if v[i + |name|] == EQUALS && v[i..i + |name|] == name {
        var from := i + |name| + 1;
        var n := ValueLength(v, from);
        return if from == |v| then None else Some(v[from..from + n]);
      }
      var next := SkipCookie(v, i);
      if next + 2 >= |v| {
        return None;
      }
      i := next + 2;
    }
  }

  /** The endpoint without its leading slash, after the buffer lost a trailing one. */
  method TrimEndpoint(endpoint: array<byte>, ghost e: bytes) returns (value: Option<bytes>)
    requires CString(endpoint, e)
    modifies endpoint
    ensures CString(endpoint, Trimmed(e))
    ensures value.Some? ==> NoNul(value.value)
    ensures value == if e == [] then None else Some(Trimmed(e)[1..])
  {
    var n := StrLen(endpoint, e);
    assert e == endpoint[..n];
    if n < 1 {
      return None;
    }
    if n >= 2 && endpoint[n - 1] == SLASH {
      endpoint[n - 1] := 0;
      n := n - 1;
      assert endpoint[..n] == Trimmed(e);
    }
    value := Some(endpoint[1..n]);
    assert endpoint[..n][1..] == endpoint[1..n];
  }

  predicate ProperHeaders(headers: seq<HttpHeader>) {
    forall h :: h in headers ==> NoNul(h.value)
  }

  lemma {:induction false} HeaderIsProper(headers: seq<HttpHeader>, tag: bytes)
    requires ProperHeaders(headers)
    ensures HeaderValue(headers, tag).Some? ==> NoNul(HeaderValue(headers, tag).value)
  {
    if headers != [] {
      assert headers[0] in headers;
      assert forall h :: h in headers[1..] ==> h in headers;
      HeaderIsProper(headers[1..], tag);
    }
  }

  lemma {:induction false} CookieIsProper(v: bytes, name: bytes, i: nat)
    requires NoNul(v) && i <= |v|
    ensures CookieAt(v, name, i).Some? ==> NoNul(CookieAt(v, name, i).value)
    decreases |v| - i
  {
    if CookieAt(v, name, i).Some? && !(v[i + |name|] == EQUALS && v[i..i + |name|] == name) {
      CookieIsProper(v, name, NextCookie(v, i) + 2);
    }
  }

  /** The name of a variable at `at`, and the whole width of the variable, if it is terminated. */
  method NameAt(buffer: array<byte>, at: nat, word: bytes, ghost done: bytes, ghost rest: bytes)
    returns (name: Option<bytes>, width: nat)
    requires CString(buffer, done + rest) && at == |done| && StartsAt(rest, 0, word)
    ensures var end := IndexOf(rest, |word|, PERCENT);
            if end == |rest| then name == None else name == Some(rest[|word|..end]) && width == end + 1
  {
    ghost var s := done + rest;
    var n := NameLength(buffer, at + |word|, s);
    IndexBehind(done, rest, |word|, PERCENT);
    if buffer[at + |word| + n] == 0 {
      return None, 0;
    }
    SliceAt(buffer, done, rest, |word|, |word| + n);
    return Some(buffer[at + |word|..at + |word| + n]), |word| + n + 1;
  }

  lemma SliceAt(buffer: array<byte>, done: bytes, rest: bytes, i: nat, j: nat)
    requires CString(buffer, done + rest) && i <= j <= |rest|
    ensures buffer[|done| + i..|done| + j] == rest[i..j]
    ensures buffer[|done| + j] == if j < |rest| then rest[j] else 0
  {
    var s := done + rest;
    assert forall k :: 0 <= k < |s| ==> buffer[k] == s[k];
  }

  method FindCookieVariable(buffer: array<byte>, at: nat, headers: seq<HttpHeader>,
                            ghost done: bytes, ghost rest: bytes, ghost e: bytes)
    returns (value: Option<bytes>, width: nat)
    requires CString(buffer, done + rest) && at == |done| && ProperHeaders(headers)
    requires StartsAt(rest, 0, COOKIE)
    ensures Looked(FrontOf(rest, e, headers), value, width, e)
  {
    WordsDiffer(rest);
    var name;
    name, width := NameAt(buffer, at, COOKIE, done, rest);
    if name.None? {
      return None, 0;
    }
    var header := FindHeader(headers, Ascii("Cookie"));
    if header.None? {
      return None, 0;
    }
    HeaderIsProper(headers, Ascii("Cookie"));
    value := FindCookie(header.value, name.value);
    CookieIsProper(header.value, name.value, 0);
  }

  method FindHeaderVariable(buffer: array<byte>, at: nat, headers: seq<HttpHeader>,
                            ghost done: bytes, ghost rest: bytes, ghost e: bytes)
    returns (value: Option<bytes>, width: nat)
    requires CString(buffer, done + rest) && at == |done| && ProperHeaders(headers)
    requires StartsAt(rest, 0, HEADER)
    ensures Looked(FrontOf(rest, e, headers), value, width, e)
  {
    WordsDiffer(rest);
    var name;
    name, width := NameAt(buffer, at, HEADER, done, rest);
    if name.None? {
      return None, 0;
    }
    value := FindHeader(headers, name.value);
    HeaderIsProper(headers, name.value);
  }

  /** A variable was looked up: its value and width, or no value. */
  predicate Looked(f: Front, value: Option<bytes>, width: nat, e: bytes) {
    match f
    case Plain => false
    case Missing(left) => value == None && left == e
    case Value(text, w, left) => value == Some(text) && NoNul(text) && width == w > 0 && left == e
  }

  /** Looking up what stands at `at`; `None` for a variable without a value, width 0 for plain text. */
  method FindFront(buffer: array<byte>, at: nat, endpoint: array<byte>, headers: seq<HttpHeader>,
                   ghost done: bytes, ghost rest: bytes, ghost e: bytes)
    returns (value: Option<bytes>, width: nat)
    requires buffer != endpoint && CString(buffer, done + rest) && at == |done| && rest != [] && CString(endpoint, e)
    requires ProperHeaders(headers)
    modifies endpoint
    ensures var f := FrontOf(rest, e, headers);
            && CString(endpoint, if f.Plain? then e else f.endpoint)
            && if f.Plain? then value == Some([]) && width == 0 else Looked(f, value, width, f.endpoint)
  {
    StartsBehind(done, rest, 0, ENDPOINT);
    StartsBehind(done, rest, 0, COOKIE);
    StartsBehind(done, rest, 0, HEADER);
    WordsHaveNoNul();
    var found := StrNCmp(buffer, at, ENDPOINT, done + rest);
    if found {
      value := TrimEndpoint(endpoint, e);
      return value, |ENDPOINT|;
    }
    found := StrNCmp(buffer, at, COOKIE, done + rest);
    if found {
      value, width := FindCookieVariable(buffer, at, headers, done, rest, e);
      return;
    }
    found := StrNCmp(buffer, at, HEADER, done + rest);
    if found {
      value, width := FindHeaderVariable(buffer, at, headers, done, rest, e);
      return;
    }
    return Some([]), 0;
  }

  lemma WordsHaveNoNul()
    ensures NoNul(ENDPOINT) && NoNul(COOKIE) && NoNul(HEADER)
  {
  }

  /**
   The whole template: on success the buffer holds the expansion, which is shorter than the
   buffer; in any case the endpoint is left trimmed.
   */
  method ExpandInPlace(template: array<byte>, size: nat, endpoint: array<byte>, headers: seq<HttpHeader>,
                       ghost t: bytes, ghost e: bytes) returns (ok: bool)
    requires template != endpoint && CString(template, t) && |t| < size <= template.Length && CString(endpoint, e)
    requires ProperHeaders(headers)
    modifies template, endpoint
    ensures var x := Expand([], t, e, headers, size);
            ok == x.ok && CString(endpoint, x.endpoint) && (ok ==> CString(template, x.text) && |x.text| < size)
  {
    ghost var x := Expand([], t, e, headers, size);
    ghost var done, rest, left: bytes := [], t, e;
    assert [] + t == t;
    var u := 0;
    while template[u] != 0
      invariant CString(template, done + rest) && u == |done| && u + |rest| < size && CString(endpoint, left)
      invariant Expand(done, rest, left, headers, size) == x
      decreases |rest|
    {
      SliceAt(template, done, rest, 0, 0);
      var value, width := Some([]), 0;
      if template[u] == PERCENT {
        value, width := FindFront(template, u, endpoint, headers, done, rest, left);
      } else {
        PlainByte(rest, left, headers);
      }
      if value.None? {
        return false;
      }
      if width == 0 {
        OneFurther(done, rest);
        done, rest, u := done + [rest[0]], rest[1..], u + 1;
      } else {
        ghost var f := FrontOf(rest, left, headers);
        var failed := Replace(template, u, size, width, value.value, done, rest);
        if failed {
          return false;
        }
        done, rest, left, u := done + Sanitized(value.value), rest[width..], f.endpoint, u + |value.value|;
      }
    }
    SliceAt(template, done, rest, 0, 0);
    Ended(template, done, rest);
    return true;
  }

  lemma OneFurther(done: bytes, rest: bytes)
    requires rest != []
    ensures done + rest == done + [rest[0]] + rest[1..]
  {
  }

  lemma Ended(a: array<byte>, done: bytes, rest: bytes)
    requires CString(a, done + rest) && a[|done|] == 0
    ensures rest == [] && done + rest == done
  {
    var s := done + rest;
    assert forall i :: 0 <= i < |s| ==> a[i] == s[i] != 0;
    assert rest == [] ==> done + rest == done;
  }

  lemma PlainByte(rest: bytes, endpoint: bytes, headers: seq<HttpHeader>)
    requires rest != [] && rest[0] != PERCENT
    ensures FrontOf(rest, endpoint, headers).Plain?
  {
    assert forall w: bytes :: StartsAt(rest, 0, w) && w != [] ==> rest[0] == rest[0..|w|][0] == w[0];
    assert ENDPOINT[0] == PERCENT && COOKIE[0] == PERCENT && HEADER[0] == PERCENT;
  }
}
