/** What the scan through a cookie header finds. */
module Cookies {
  import opened Bytes
  import opened Memory
  import opened Template

  /** The pieces between the separators of a header value. */
  predicate IsCrumb(c: bytes) {
    forall k :: 0 <= k < |c| ==> !SeparatorAt(c, k)
  }

  predicate AreCrumbs(crumbs: seq<bytes>) {
    forall c :: c in crumbs ==> IsCrumb(c)
  }

  function CookieHeader(crumbs: seq<bytes>): bytes {
    if crumbs == [] then []
    else if |crumbs| == 1 then crumbs[0]
    else crumbs[0] + [0x3B, 0x20] + CookieHeader(crumbs[1..])
  }

  /** The first crumb that starts with the name and an equals sign; nothing if that is all there is behind the start. */
  function Lookup(crumbs: seq<bytes>, name: bytes): Option<bytes> {
    if crumbs == [] then None
    else if StartsAt(crumbs[0], 0, name + [EQUALS]) then
      var value := crumbs[0][|name| + 1..];
      if |crumbs| == 1 && value == [] then None else Some(value[..IndexOf(value, 0, SEMICOLON)])
    else Lookup(crumbs[1..], name)
  }

  lemma StartsBehind(front: bytes, s: bytes, i: nat, word: bytes)
    ensures StartsAt(front + s, |front| + i, word) <==> StartsAt(s, i, word)
  {
    if i + |word| <= |s| {
      assert (front + s)[|front| + i..|front| + i + |word|] == s[i..i + |word|];
    }
  }

  lemma {:induction false} NextBehind(front: bytes, s: bytes, i: nat)
    requires i <= |s|
    ensures NextCookie(front + s, |front| + i) == |front| + NextCookie(s, i)
    decreases |s| - i
  {
    if i + 1 < |s| {
      assert (front + s)[|front| + i] == s[i] && (front + s)[|front| + i + 1] == s[i + 1];
    }
    if i < |s| {
      NextBehind(front, s, i + 1);
    }
  }

  lemma {:induction false} IndexBehind(front: bytes, s: bytes, i: nat, b: byte)
    requires i <= |s|
    ensures IndexOf(front + s, |front| + i, b) == |front| + IndexOf(s, i, b)
    decreases |s| - i
  {
    if i < |s| {
      assert (front + s)[|front| + i] == s[i];
      IndexBehind(front, s, i + 1, b);
    }
  }

  /** The test for a cookie of this name. */
  lemma NamedAt(v: bytes, i: nat, name: bytes)
    requires i + |name| + 1 <= |v|
    ensures v[i + |name|] == EQUALS && v[i..i + |name|] == name <==> StartsAt(v, i, name + [EQUALS])
  {
    var word := name + [EQUALS];
    SliceGrows(v, i, i + |name|);
    assert word[..|name|] == name && word[|name|] == EQUALS;
    assert (v[i..i + |name|] + [v[i + |name|]])[..|name|] == v[i..i + |name|];
    assert (v[i..i + |name|] + [v[i + |name|]])[|name|] == v[i + |name|];
  }

  /** The value of a cookie whose name and equals sign end at `from`. */
  function ValueAt(s: bytes, from: nat): Option<bytes>
    requires from <= |s|
  {
    if from == |s| then None else Some(s[from..IndexOf(s, from, SEMICOLON)])
  }

  /** One step of the scan. */
  lemma CookieStep(s: bytes, name: bytes, i: nat)
    requires i <= |s|
    ensures StartsAt(s, i, name + [EQUALS]) ==>
      i + |name| + 1 <= |s| && CookieAt(s, name, i) == ValueAt(s, i + |name| + 1)
    ensures !StartsAt(s, i, name + [EQUALS]) ==>
      var next := NextCookie(s, i);
      CookieAt(s, name, i) == if |s| - i < |name| + 1 || next + 2 >= |s| then None else CookieAt(s, name, next + 2)
  {
    if i + |name| + 1 <= |s| {
      NamedAt(s, i, name);
    }
  }

  lemma ValueBehind(front: bytes, s: bytes, from: nat)
    requires from <= |s|
    ensures ValueAt(front + s, |front| + from) == ValueAt(s, from)
  {
    IndexBehind(front, s, from, SEMICOLON);
    var to := IndexOf(s, from, SEMICOLON);
    assert (front + s)[|front| + from..|front| + to] == s[from..to];
  }

  lemma FoundBehind(front: bytes, s: bytes, v: bytes, name: bytes, i: nat)
    requires i <= |s| && v == front + s && StartsAt(s, i, name + [EQUALS])
    ensures CookieAt(v, name, |front| + i) == CookieAt(s, name, i)
  {
    StartsBehind(front, s, i, name + [EQUALS]);
    FoundAt(s, name, i);
    FoundAt(v, name, |front| + i);
    ValueBehind(front, s, i + |name| + 1);
  }

  lemma FoundAt(s: bytes, name: bytes, i: nat)
    requires i <= |s| && StartsAt(s, i, name + [EQUALS])
    ensures i + |name| + 1 <= |s| && CookieAt(s, name, i) == ValueAt(s, i + |name| + 1)
  {
    CookieStep(s, name, i);
  }

  lemma PassedAt(v: bytes, at: nat, name: bytes, next: nat)
    requires at <= |v| && !StartsAt(v, at, name + [EQUALS]) && NextCookie(v, at) == next
    ensures CookieAt(v, name, at) == if |v| - at < |name| + 1 || next + 2 >= |v| then None else CookieAt(v, name, next + 2)
  {
    CookieStep(v, name, at);
  }

  lemma PassedBehind(front: bytes, s: bytes, v: bytes, name: bytes, i: nat, next: nat)
    requires i <= |s| && v == front + s && !StartsAt(s, i, name + [EQUALS]) && next == NextCookie(s, i)
    requires next + 2 < |s| ==> CookieAt(v, name, |front| + (next + 2)) == CookieAt(s, name, next + 2)
    ensures CookieAt(v, name, |front| + i) == CookieAt(s, name, i)
  {
    StartsBehind(front, s, i, name + [EQUALS]);
    NextBehind(front, s, i);
    PassedBoth(v, s, |front|, name, i, next);
  }

  lemma PassedBoth(v: bytes, s: bytes, n: nat, name: bytes, i: nat, next: nat)
    requires i <= |s| && |v| == n + |s| && next == NextCookie(s, i) && NextCookie(v, n + i) == n + next
    requires !StartsAt(s, i, name + [EQUALS]) && !StartsAt(v, n + i, name + [EQUALS])
    requires next + 2 < |s| ==> CookieAt(v, name, n + (next + 2)) == CookieAt(s, name, next + 2)
    ensures CookieAt(v, name, n + i) == CookieAt(s, name, i)
  {
    PassedAt(s, i, name, next);
    PassedAt(v, n + i, name, n + next);
    assert |v| - (n + i) == |s| - i && (n + next + 2 >= |v| <==> next + 2 >= |s|);
  }

  /** The scan does not look back. */
  lemma {:induction false} CookieBehind(front: bytes, s: bytes, v: bytes, name: bytes, i: nat)
    requires i <= |s| && v == front + s
    ensures CookieAt(v, name, |front| + i) == CookieAt(s, name, i)
    decreases |s| - i
  {
    if StartsAt(s, i, name + [EQUALS]) {
      FoundBehind(front, s, v, name, i);
    } else {
      var next := NextCookie(s, i);
      if next + 2 < |s| {
        CookieBehind(front, s, v, name, next + 2);
      }
      PassedBehind(front, s, v, name, i, next);
    }
  }

  /** Text that a separator or the end follows has the places of a word without semicolons that it has alone. */
  lemma StartsInCrumb(c: bytes, rest: bytes, word: bytes)
    requires SEMICOLON !in word && (rest == [] || rest[0] == SEMICOLON)
    ensures StartsAt(c + rest, 0, word) <==> StartsAt(c, 0, word)
  {
    var v := c + rest;
    if |word| <= |c| {
      assert v[..|word|] == c[..|word|];
    } else if |word| <= |v| {
      assert v[..|word|][|c|] == rest[0];
    }
  }

  lemma {:induction false} IndexInCrumb(c: bytes, rest: bytes, i: nat)
    requires i <= |c| && (rest == [] || rest[0] == SEMICOLON)
    ensures IndexOf(c + rest, i, SEMICOLON) == IndexOf(c, i, SEMICOLON)
    decreases |c| - i
  {
    if i < |c| {
      assert (c + rest)[i] == c[i];
      IndexInCrumb(c, rest, i + 1);
    }
  }

  /** The next separator behind a crumb. */
  lemma {:induction false} NextInCrumb(c: bytes, rest: bytes, i: nat)
    requires IsCrumb(c) && i <= |c| && (rest == [] || SeparatorAt(rest, 0))
    ensures NextCookie(c + rest, i) == |c|
    decreases |c| - i
  {
    var v := c + rest;
    if i < |c| {
      assert !SeparatorAt(c, i) && v[i] == c[i];
      if i + 1 < |c| {
        assert v[i + 1] == c[i + 1];
      } else if rest != [] {
        assert v[i + 1] == rest[0];
      }
      NextInCrumb(c, rest, i + 1);
    } else if rest != [] {
      assert v[i] == rest[0] && v[i + 1] == rest[1];
    }
  }

  /** What is behind the first crumb. */
  function Behind(crumbs: seq<bytes>): (rest: bytes)
    requires crumbs != []
    ensures if |crumbs| == 1 then rest == [] else rest == SEPARATOR + CookieHeader(crumbs[1..]) && SeparatorAt(rest, 0)
  {
    if |crumbs| == 1 then [] else SEPARATOR + CookieHeader(crumbs[1..])
  }

  lemma FirstAndBehind(crumbs: seq<bytes>)
    requires crumbs != []
    ensures CookieHeader(crumbs) == crumbs[0] + Behind(crumbs)
  {
    if |crumbs| == 1 {
      assert crumbs[0] + [] == crumbs[0];
    } else {
      Regroup(crumbs[0], SEPARATOR, CookieHeader(crumbs[1..]));
    }
  }

  /**
   The same for any name, which may have semicolons and so reach over the crumb: the first
   crumb from which on the header has the name and an equals sign.
   */
  function LookupOn(crumbs: seq<bytes>, name: bytes): Option<bytes> {
    if crumbs == [] then None
    else if StartsAt(CookieHeader(crumbs), 0, name + [EQUALS]) then ValueAt(CookieHeader(crumbs), |name| + 1)
    else LookupOn(crumbs[1..], name)
  }

  /** The first crumb is not the cookie looked for: the scan goes on behind the separator. */
  lemma FirstPassed(c: bytes, more: bytes, v: bytes, name: bytes)
    requires v == (c + SEPARATOR) + more && IsCrumb(c) && !StartsAt(v, 0, name + [EQUALS])
    ensures CookieAt(v, name, 0) == CookieAt(more, name, 0)
  {
    Regroup(c, SEPARATOR, more);
    NextInCrumb(c, SEPARATOR + more, 0);
    PassedAt(v, 0, name, |c|);
    CookieBehind(c + SEPARATOR, more, v, name, 0);
  }

  lemma LastPassed(c: bytes, name: bytes)
    requires IsCrumb(c) && !StartsAt(c, 0, name + [EQUALS])
    ensures CookieAt(c, name, 0) == None
  {
    assert c + [] == c;
    NextInCrumb(c, [], 0);
    PassedAt(c, 0, name, |c|);
  }

  /**
   For every header value, taken as its crumbs, and every name: the scan finds what the header
   has, from the first crumb on that starts it with the name and an equals sign, behind these
   and up to a semicolon; nothing if the header ends there.
   */
  lemma {:induction false} ScanIsLookup(crumbs: seq<bytes>, name: bytes)
    requires AreCrumbs(crumbs)
    ensures CookieAt(CookieHeader(crumbs), name, 0) == LookupOn(crumbs, name)
    decreases |crumbs|
  {
    if crumbs != [] {
      var c, v := crumbs[0], CookieHeader(crumbs);
      if StartsAt(v, 0, name + [EQUALS]) {
        CookieStep(v, name, 0);
      } else if |crumbs| == 1 {
        LastPassed(c, name);
      } else {
        assert AreCrumbs(crumbs[1..]);
        ScanIsLookup(crumbs[1..], name);
        FirstPassed(c, CookieHeader(crumbs[1..]), v, name);
      }
    }
  }

  /** The value of the first crumb ends with it. */
  lemma FirstFound(c: bytes, rest: bytes, v: bytes, n: nat)
    requires v == c + rest && n <= |c| && (rest == [] || SeparatorAt(rest, 0))
    ensures var value := c[n..];
            ValueAt(v, n) == if rest == [] && value == [] then None else Some(value[..IndexOf(value, 0, SEMICOLON)])
  {
    var front, value := c[..n], c[n..];
    SplitAt(c, n);
    Regroup(front, value, rest);
    ValueBehind(front, value + rest, 0);
    IndexInCrumb(value, rest, 0);
    SliceOfPrefix(value, rest, 0, IndexOf(value, 0, SEMICOLON));
  }

  /** A name without semicolons is found within a crumb, and its value ends with the crumb. */
  lemma {:induction false} NamesWithin(crumbs: seq<bytes>, name: bytes)
    requires SEMICOLON !in name
    ensures LookupOn(crumbs, name) == Lookup(crumbs, name)
    decreases |crumbs|
  {
    if crumbs != [] {
      var c, rest := crumbs[0], Behind(crumbs);
      FirstAndBehind(crumbs);
      StartsInCrumb(c, rest, name + [EQUALS]);
      if StartsAt(c, 0, name + [EQUALS]) {
        FirstFound(c, rest, CookieHeader(crumbs), |name| + 1);
      } else {
        NamesWithin(crumbs[1..], name);
      }
    }
  }

  lemma {:induction false} NextMeans(v: bytes, i: nat)
    requires i <= |v|
    ensures forall k :: i <= k < NextCookie(v, i) ==> !SeparatorAt(v, k)
    ensures NextCookie(v, i) < |v| ==> SeparatorAt(v, NextCookie(v, i))
    decreases |v| - i
  {
    if i < |v| && !SeparatorAt(v, i) {
      NextMeans(v, i + 1);
    }
  }

  /** Every header value is made of crumbs. */
  lemma {:induction false} MadeOfCrumbs(v: bytes) returns (crumbs: seq<bytes>)
    ensures crumbs != [] && AreCrumbs(crumbs) && CookieHeader(crumbs) == v
    decreases |v|
  {
    var n := NextCookie(v, 0);
    NextMeans(v, 0);
    var c := v[..n];
    assert forall k :: 0 <= k < n ==> SeparatorAt(c, k) ==> SeparatorAt(v, k);
    if n == |v| {
      crumbs := [v];
    } else {
      var rest := MadeOfCrumbs(v[n + 2..]);
      crumbs := [c] + rest;
      assert crumbs[1..] == rest;
      assert v == (c + SEPARATOR) + v[n + 2..];
    }
  }

  datatype Pair = Pair(name: bytes, value: bytes)

  /** A cookie as clients send it. */
  predicate IsCookie(p: Pair) {
    0x3D !in p.name && 0x3B !in p.name && 0x3B !in p.value
  }

  predicate AreCookies(pairs: seq<Pair>) {
    forall p :: p in pairs ==> IsCookie(p)
  }

  function PairText(p: Pair): bytes {
    p.name + [0x3D] + p.value
  }

  function PairTexts(pairs: seq<Pair>): (texts: seq<bytes>)
    ensures |texts| == |pairs|
  {
    if pairs == [] then [] else [PairText(pairs[0])] + PairTexts(pairs[1..])
  }

  /** The header value for these cookies. */
  function Printed(pairs: seq<Pair>): bytes {
    CookieHeader(PairTexts(pairs))
  }

  /** The place of the first cookie of this name. */
  function FirstNamed(pairs: seq<Pair>, name: bytes): (i: nat)
    ensures i <= |pairs| && (i < |pairs| ==> pairs[i].name == name)
    ensures forall k :: 0 <= k < i ==> pairs[k].name != name
  {
    if pairs == [] || pairs[0].name == name then 0 else 1 + FirstNamed(pairs[1..], name)
  }

  lemma PairIsCrumb(p: Pair)
    requires IsCookie(p)
    ensures IsCrumb(PairText(p))
  {
    var t := PairText(p);
    forall k | 0 <= k < |t| ensures t[k] != SEMICOLON {
      assert t[k] == if k < |p.name| then p.name[k] else if k == |p.name| then EQUALS else p.value[k - |p.name| - 1];
    }
  }

  lemma PairMatches(p: Pair, name: bytes)
    requires IsCookie(p) && EQUALS !in name
    ensures StartsAt(PairText(p), 0, name + [EQUALS]) <==> p.name == name
    ensures p.name == name ==> PairText(p)[|name| + 1..] == p.value
  {
    var t, word := PairText(p), name + [EQUALS];
    assert t[..|p.name|] == p.name && t[|p.name|] == EQUALS;
    assert p.name == name ==> t[..|word|] == word;
    if StartsAt(t, 0, word) {
      assert t[..|word|] == word;
      assert t[..|name|] == t[..|word|][..|name|] == name;
      assert t[|name|] == t[..|word|][|name|] == EQUALS;
      SameLength(t, p.name, name);
    }
  }

  /** The first equals sign ends the name. */
  lemma SameLength(t: bytes, a: bytes, b: bytes)
    requires |a| < |t| && |b| < |t| && t[..|a|] == a && t[..|b|] == b
    requires t[|a|] == EQUALS == t[|b|] && EQUALS !in a && EQUALS !in b
    ensures a == b
  {
    assert forall k :: 0 <= k < |a| ==> a[k] == t[..|a|][k] == t[k];
    assert forall k :: 0 <= k < |b| ==> b[k] == t[..|b|][k] == t[k];
  }

  lemma {:induction false} LookupIsFirst(pairs: seq<Pair>, name: bytes)
    requires AreCookies(pairs) && EQUALS !in name
    ensures AreCrumbs(PairTexts(pairs))
    ensures var i := FirstNamed(pairs, name);
            Lookup(PairTexts(pairs), name)
            == if i == |pairs| || (i == |pairs| - 1 && pairs[i].value == []) then None else Some(pairs[i].value)
  {
    if pairs != [] {
      var p, rest := pairs[0], pairs[1..];
      assert AreCookies(rest);
      LookupIsFirst(rest, name);
      FirstPair(p, PairTexts(rest), name);
      PairIsCrumb(p);
    }
  }

  lemma FirstPair(p: Pair, more: seq<bytes>, name: bytes)
    requires IsCookie(p) && EQUALS !in name
    ensures Lookup([PairText(p)] + more, name)
         == if p.name != name then Lookup(more, name) else if more == [] && p.value == [] then None else Some(p.value)
  {
    var texts := [PairText(p)] + more;
    assert texts[0] == PairText(p) && texts[1..] == more;
    PairMatches(p, name);
    IndexOfNone(p.value, 0, SEMICOLON);
    assert p.value[..|p.value|] == p.value;
  }

  /**
   The header value of these cookies: what is found is the value of the first cookie of the
   name, if and only if there is one and it is not both empty and the last of all.
   */
  lemma CookieIsFound(pairs: seq<Pair>, name: bytes)
    requires AreCookies(pairs) && 0x3D !in name && 0x3B !in name
    ensures var i := FirstNamed(pairs, name);
            CookieAt(Printed(pairs), name, 0)
            == if i == |pairs| || (i == |pairs| - 1 && pairs[i].value == []) then None else Some(pairs[i].value)
  {
    LookupIsFirst(pairs, name);
    ScanIsLookup(PairTexts(pairs), name);
    NamesWithin(PairTexts(pairs), name);
  }
}
