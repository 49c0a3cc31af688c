/** The separator's configuration string: escapes are replaced within the string itself. */
module Unescape {
  import opened Bytes
  import opened Memory

  const ZERO: byte := 48
  const LETTER_F: byte := 102
  const LETTER_N: byte := 110
  const LETTER_R: byte := 114
  const LETTER_T: byte := 116
  const LETTER_X: byte := 120

  predicate IsHexDigit(b: byte) {
    48 <= b < 58 || 65 <= b < 71 || 97 <= b < 103
  }

  function HexDigit(b: byte): (d: nat)
    requires IsHexDigit(b)
    ensures d < 16
  {
    if b < 58 then b as nat - 48 else if b < 71 then b as nat - 55 else b as nat - 87
  }

  predicate HexAt(s: bytes, i: nat) {
    i < |s| && IsHexDigit(s[i])
  }

  /** What is scanned for an escape whose digits stand at `i - 1` and `i`: up to two digits from the second on. */
  function Scanned(s: bytes, i: nat): byte
    requires HexAt(s, i)
  {
    if HexAt(s, i + 1) then (16 * HexDigit(s[i]) + HexDigit(s[i + 1])) as byte else HexDigit(s[i]) as byte
  }

  /** The byte for the letter of an escape; an unknown letter leaves the backslash in its place. */
  function Escaped(letter: byte): byte {
    if letter == ZERO then 0
    else if letter == LETTER_T then 9
    else if letter == LETTER_N then 10
    else if letter == LETTER_F then 12
    else if letter == LETTER_R then 13
    else BACKSLASH
  }

  function Then(b: byte, rest: Option<bytes>): Option<bytes> {
    if rest.Some? then Some([b] + rest.value) else None
  }

  /** The string from `u` on with its escapes replaced; nothing if a hexadecimal one is cut short. */
  function Replaced(s: bytes, u: nat): (r: Option<bytes>)
    ensures r.Some? && u <= |s| ==> |r.value| <= |s| - u
    decreases |s| - u
  {
    if u >= |s| then Some([])
    else if s[u] != BACKSLASH then Then(s[u], Replaced(s, u + 1))
    else if u + 1 == |s| then Then(0, Replaced(s, u + 1))
    else if s[u + 1] == LETTER_X then
      if HexAt(s, u + 2) && HexAt(s, u + 3) then Then(Scanned(s, u + 3), Replaced(s, u + 4)) else None
    else Then(Escaped(s[u + 1]), Replaced(s, u + 2))
  }

  /** The buffer holds `done` at its front and, from `u` on, still what the string had there. */
  ghost predicate Halfway(a: array<byte>, s: bytes, u: nat, p: nat, done: bytes)
    reads a
  {
    && p <= u <= |s| < a.Length && |done| == p
    && a[..p] == done && a[|s|] == 0
    && (forall i :: u <= i < |s| ==> a[i] == s[i])
  }

  lemma Appended(done: bytes, b: byte, rest: Option<bytes>, all: Option<bytes>)
    requires all == if Then(b, rest).Some? then Some(done + Then(b, rest).value) else None
    ensures all == if rest.Some? then Some((done + [b]) + rest.value) else None
  {
    if rest.Some? {
      Regroup(done, [b], rest.value);
    }
  }

  ghost predicate Continues(all: Option<bytes>, done: bytes, rest: Option<bytes>) {
    all == if rest.Some? then Some(done + rest.value) else None
  }

  /**
   Replacing in place, with one index for reading and one for writing: the writes stay
   behind the reads, so that nothing is overwritten before it was read.
   */
  method UnescapeInPlace(a: array<byte>, ghost s: bytes) returns (ok: bool, length: nat)
    requires CString(a, s)
    modifies a
    ensures ok <==> Replaced(s, 0).Some?
    ensures ok ==> length <= |s| && a[..length] == Replaced(s, 0).value
  {
    var u, p := 0, 0;
    ghost var all := Replaced(s, 0);
    ghost var done: bytes := [];
    assert all.Some? ==> [] + all.value == all.value;
    while a[u] != 0
      invariant Halfway(a, s, u, p, done) && Continues(all, done, Replaced(s, u))
      decreases |s| - u
    {
      a[p] := a[u];
      var b, next := a[p], u + 1;
      if b == BACKSLASH {
        var found;
        found, b, next := ReadEscape(a, s, u);
        if !found {
          return false, 0;
        }
        a[p] := b;
      }
      Appended(done, b, Replaced(s, next), all);
      done := done + [b];
      u, p := next, p + 1;
    }
    assert u == |s|;
    assert done + [] == done;
    return true, p;
  }

  /** The escape whose backslash is at `u`: the byte it stands for, and where the string goes on. */
  method ReadEscape(a: array<byte>, ghost s: bytes, u: nat) returns (found: bool, b: byte, next: nat)
    requires u < |s| < a.Length && s[u] == BACKSLASH && a[|s|] == 0 && forall i :: u < i < |s| ==> a[i] == s[i]
    requires NoNul(s)
    ensures found ==> u < next <= |s| && Replaced(s, u) == Then(b, Replaced(s, next))
    ensures !found ==> Replaced(s, u) == None
  {
    found, b, next := true, 0, u + 1;
    var letter := a[u + 1];
    if letter == LETTER_X {
      if !IsHexDigit(a[u + 2]) || !IsHexDigit(a[u + 3]) {
        return false, 0, u;
      }
      b := ScanHex(a, s, u + 3);
      next := u + 4;
    } else if letter != 0 {
      b, next := Escaped(letter), u + 2;
    }
  }

  method ScanHex(a: array<byte>, ghost s: bytes, i: nat) returns (b: byte)
    requires HexAt(s, i) && |s| < a.Length && a[|s|] == 0 && forall k :: i <= k < |s| ==> a[k] == s[k]
    ensures b == Scanned(s, i)
  {
    if IsHexDigit(a[i + 1]) {
      b := (16 * HexDigit(a[i]) + HexDigit(a[i + 1])) as byte;
    } else {
      b := HexDigit(a[i]) as byte;
    }
  }

  /** A configuration string for a separator, without hexadecimal escapes. */
  function EscapeByte(b: byte): bytes {
    if b == 0x00 then Ascii("\\0")
    else if b == 0x09 then Ascii("\\t")
    else if b == 0x0A then Ascii("\\n")
    else if b == 0x0C then Ascii("\\f")
    else if b == 0x0D then Ascii("\\r")
    else if b == 0x5C then Ascii("\\\\")
    else [b]
  }

  function Escape(s: bytes): bytes {
    if s == [] then [] else EscapeByte(s[0]) + Escape(s[1..])
  }

  lemma {:induction false} EscapeHasNoNul(s: bytes)
    ensures NoNul(Escape(s))
  {
    if s != [] {
      EscapeHasNoNul(s[1..]);
    }
  }

  lemma ByteBehind(front: bytes, s: bytes, t: bytes, i: nat)
    requires t == front + s
    ensures |t| == |front| + |s| && (i < |s| ==> t[|front| + i] == s[i])
    ensures HexAt(t, |front| + i) <==> HexAt(s, i)
  {
  }

  lemma ScannedBehind(front: bytes, s: bytes, t: bytes, i: nat)
    requires t == front + s && HexAt(s, i)
    ensures HexAt(t, |front| + i) && Scanned(t, |front| + i) == Scanned(s, i)
  {
    ByteBehind(front, s, t, i);
    ByteBehind(front, s, t, i + 1);
  }

  /** The string behind `front` is replaced as it would be alone. */
  lemma {:induction false} ReplacedBehind(front: bytes, s: bytes, t: bytes, u: nat)
    requires u <= |s| && t == front + s
    ensures Replaced(t, |front| + u) == Replaced(s, u)
    decreases |s| - u
  {
    ByteBehind(front, s, t, u);
    ByteBehind(front, s, t, u + 1);
    if u < |s| {
      if s[u] != BACKSLASH || u + 1 == |s| {
        ReplacedBehind(front, s, t, u + 1);
      } else if s[u + 1] == LETTER_X {
        ByteBehind(front, s, t, u + 2);
        ByteBehind(front, s, t, u + 3);
        if HexAt(s, u + 2) && HexAt(s, u + 3) {
          ScannedBehind(front, s, t, u + 3);
          ReplacedBehind(front, s, t, u + 4);
        }
      } else {
        ReplacedBehind(front, s, t, u + 2);
      }
    }
  }

  lemma OneByteBack(b: byte, rest: bytes)
    ensures Replaced(EscapeByte(b) + rest, 0) == Then(b, Replaced(rest, 0))
  {
    var e := EscapeByte(b);
    var t := e + rest;
    ReplacedBehind(e, rest, t, 0);
    assert t[0] == e[0] && (|e| == 2 ==> t[1] == e[1]);
  }

  /** Every byte string can be configured as a separator. */
  lemma {:induction false} EscapeRoundTrip(s: bytes)
    ensures Replaced(Escape(s), 0) == Some(s)
  {
    if s != [] {
      EscapeRoundTrip(s[1..]);
      OneByteBack(s[0], Escape(s[1..]));
      assert [s[0]] + s[1..] == s;
    }
  }

  lemma EscapeOne(b: byte, rest: bytes)
    ensures Escape([b] + rest) == EscapeByte(b) + Escape(rest)
    ensures [b] + [] == [b]
  {
    assert ([b] + rest)[1..] == rest;
  }

  /** A hexadecimal escape of one digit is cut short. */
  lemma CutShort()
    ensures Replaced(Ascii("\\x4"), 0) == None
  {
  }

  /**
   A hexadecimal escape gives the byte it documents exactly if its first digit is zero and no
   digit follows it, or the same digit stands three times in a row.
   */
  lemma HexEscapeExact(s: bytes, u: nat)
    requires u + 3 < |s| && s[u] == BACKSLASH && s[u + 1] == LETTER_X && HexAt(s, u + 2) && HexAt(s, u + 3)
    requires Replaced(s, u + 4).Some?
    ensures Replaced(s, u).Some?
    ensures var d, e := HexDigit(s[u + 2]), HexDigit(s[u + 3]);
            Replaced(s, u).value[0] == (16 * d + e) as byte <==>
              if HexAt(s, u + 4) then d == e == HexDigit(s[u + 4]) else d == 0
  {
  }

  /** The character writes this number as a hexadecimal digit: `0` to `9`, `A` to `F` or `a` to `f`. */
  predicate Writes(b: byte, d: nat) {
    if d < 10 then b as nat == 0x30 + d else d < 16 && (b as nat == 0x41 + d - 10 || b as nat == 0x61 + d - 10)
  }

  lemma WritesIsDigit(b: byte)
    ensures IsHexDigit(b) <==> exists d: nat :: Writes(b, d)
    ensures forall d: nat :: Writes(b, d) ==> IsHexDigit(b) && HexDigit(b) == d
  {
    if IsHexDigit(b) {
      assert Writes(b, HexDigit(b));
    }
  }

  /** The number at the front of what follows, or nothing. */
  predicate WritesNext(rest: bytes, e: Option<nat>) {
    match e
    case Some(n) => rest != [] && Writes(rest[0], n)
    case None => rest == [] || !IsHexDigit(rest[0])
  }

  /**
   What a hexadecimal escape is read as, in characters: the number that its second digit and
   the character behind it write, or its second digit alone where no digit follows.
   */
  lemma HexIsRead(first: byte, second: byte, c: nat, d: nat, rest: bytes, e: Option<nat>)
    requires Writes(first, c) && Writes(second, d) && WritesNext(rest, e)
    ensures d < 16 && (e.Some? ==> e.value < 16)
    ensures Replaced(Ascii("\\x") + [first, second] + rest, 0)
         == Then((if e.Some? then 16 * d + e.value else d) as byte, Replaced(rest, 0))
  {
    var front := Ascii("\\x") + [first, second];
    var t := front + rest;
    WritesIsDigit(first);
    WritesIsDigit(second);
    if rest != [] {
      WritesIsDigit(rest[0]);
    }
    assert t[0] == BACKSLASH && t[1] == LETTER_X && t[2] == first && t[3] == second;
    ByteBehind(front, rest, t, 0);
    ReplacedBehind(front, rest, t, 0);
  }

  /** A backslash at the very end stands for NUL, and one in front of an unknown letter for itself. */
  lemma OtherEscapes(letter: byte, rest: bytes)
    requires letter !in {0x30, 0x74, 0x6E, 0x66, 0x72, 0x78}
    ensures Replaced(Ascii("\\"), 0) == Some([0])
    ensures Replaced(Ascii("\\") + [letter] + rest, 0) == Then(0x5C, Replaced(rest, 0))
  {
    var one, nul: bytes := Ascii("\\"), [0];
    assert nul + [] == nul;
    assert one[0] == BACKSLASH && Replaced(one, 1) == Some([]);
    var front := Ascii("\\") + [letter];
    var t := front + rest;
    assert t[0] == BACKSLASH && t[1] == letter;
    ReplacedBehind(front, rest, t, 0);
  }

  /** Without two digits behind it a hexadecimal escape spoils the whole string. */
  lemma HexIsRefused(rest: bytes)
    requires |rest| < 2 || !(exists d: nat :: Writes(rest[0], d)) || !(exists d: nat :: Writes(rest[1], d))
    ensures Replaced(Ascii("\\x") + rest, 0) == None
  {
    var t := Ascii("\\x") + rest;
    assert t[0] == BACKSLASH && t[1] == LETTER_X;
    ByteBehind(Ascii("\\x"), rest, t, 0);
    ByteBehind(Ascii("\\x"), rest, t, 1);
    if |rest| >= 2 {
      WritesIsDigit(rest[0]);
      WritesIsDigit(rest[1]);
    }
  }
}
