/** C strings in arrays, and the library routines that work on them. */
module Memory {
  import opened Bytes

  predicate NoNul(s: bytes) {
    forall i :: 0 <= i < |s| ==> s[i] != 0
  }

  /** The array holds this string and its terminator. */
  ghost predicate CString(a: array<byte>, s: bytes)
    reads a
  {
    |s| < a.Length && a[..|s|] == s && a[|s|] == 0 && NoNul(s)
  }

  /** `memmove` within one array. */
  method MemMove(a: array<byte>, to: nat, from: nat, n: nat)
    requires to + n <= a.Length && from + n <= a.Length
    modifies a
    ensures a[..to] == old(a[..to]) && a[to..to + n] == old(a[from..from + n]) && a[to + n..] == old(a[to + n..])
  {
    forall i | 0 <= i < n {
      a[to + i] := a[from + i];
    }
  }

  /** An array from a place on, in two parts. */
  lemma TwoParts(a: array<byte>, i: nat, j: nat)
    requires i <= j <= a.Length
    ensures a[i..] == a[i..j] + a[j..] && a[..j] == a[..i] + a[i..j]
  {
  }

  method MemCpy(a: array<byte>, to: nat, s: bytes)
    requires to + |s| <= a.Length
    modifies a
    ensures a[..to] == old(a[..to]) && a[to..to + |s|] == s && a[to + |s|..] == old(a[to + |s|..])
  {
    forall i | 0 <= i < |s| {
      a[to + i] := s[i];
    }
  }

  /** `strdup`. */
  method Duplicate(text: bytes) returns (a: array<byte>)
    requires NoNul(text)
    ensures fresh(a) && CString(a, text)
  {
    a := new byte[|text| + 1](i => 0);
    MemCpy(a, 0, text);
  }

  method StrLen(a: array<byte>, ghost s: bytes) returns (n: nat)
    requires CString(a, s)
    ensures n == |s|
  {
    n := 0;
    while a[n] != 0
      invariant n <= |s|
      decreases |s| - n
    {
      n := n + 1;
    }
    assert forall i :: 0 <= i < |s| ==> a[i] == s[i] != 0;
  }

  /** `strchr` from a place on; the length if there is none. */
  function IndexOf(s: bytes, i: nat, b: byte): (r: nat)
    requires i <= |s|
    ensures i <= r <= |s| && (r < |s| ==> s[r] == b)
    decreases |s| - i
  {
    if i < |s| && s[i] != b then IndexOf(s, i + 1, b) else i
  }

  lemma {:induction false} IndexOfNone(s: bytes, i: nat, b: byte)
    requires i <= |s| && forall k :: i <= k < |s| ==> s[k] != b
    ensures IndexOf(s, i, b) == |s|
    decreases |s| - i
  {
    if i < |s| {
      IndexOfNone(s, i + 1, b);
    }
  }

  predicate StartsAt(s: bytes, at: nat, word: bytes) {
    at + |word| <= |s| && s[at..at + |word|] == word
  }

  /** `strncmp` against a word: equal for all of its length. */
  method StrNCmp(a: array<byte>, at: nat, word: bytes, ghost s: bytes) returns (equal: bool)
    requires CString(a, s) && at <= |s| && NoNul(word)
    ensures equal <==> StartsAt(s, at, word)
  {
    var k := 0;
    while k < |word| && a[at + k] == word[k]
      invariant 0 <= k <= |word| && at + k <= |s|
      invariant s[at..at + k] == word[..k]
    {
      assert at + k < |s| ==> a[at + k] == s[at + k];
      assert word[..k + 1] == word[..k] + [word[k]];
      assert at + k < |s| ==> s[at..at + k + 1] == s[at..at + k] + [s[at + k]];
      k := k + 1;
    }
    equal := k == |word|;
    if equal {
      assert word[..k] == word;
    } else if at + |word| <= |s| {
      assert a[at + k] == s[at + k] && s[at..at + |word|][k] == s[at + k];
    }
  }
}
