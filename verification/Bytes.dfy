/** Octets, byte strings and the few operations on them that every component shares. */
module Bytes {
  newtype byte = x: int | 0 <= x < 256
  type bytes = seq<byte>

  const SPACE: byte := 0x20
  const COMMA: byte := 0x2C
  const COLON: byte := 0x3A
  const BACKSLASH: byte := 0x5C

  datatype Option<+T> = None | Some(value: T)

  /** As `isspace` finds it in the C locale. */
  predicate IsSpace(c: byte) {
    c == 0x20 || 0x09 <= c <= 0x0D
  }

  function Min(a: nat, b: nat): nat {
    if a <= b then a else b
  }

  /** Binary digit `k` of `x`, the lowest one being digit 0. */
  predicate Bit(x: nat, k: nat) {
    if k == 0 then x % 2 == 1 else Bit(x / 2, k - 1)
  }

  /** Of the lowest `n` bits, `x` has those that exactly one of `a` and `b` has. */
  predicate ExclusiveOr(x: nat, a: nat, b: nat, n: nat) {
    forall k :: 0 <= k < n ==> (Bit(x, k) <==> Bit(a, k) != Bit(b, k))
  }

  function Pow2(k: nat): nat {
    if k == 0 then 1 else 2 * Pow2(k - 1)
  }

  function XorBits(a: nat, b: nat, n: nat): (x: nat)
    ensures x < Pow2(n)
  {
    if n == 0 then 0 else (if a % 2 == b % 2 then 0 else 1) + 2 * XorBits(a / 2, b / 2, n - 1)
  }

  /** Without the lowest bit, all bits move down by one. */
  lemma ExclusiveOrHalves(x: nat, a: nat, b: nat, n: nat)
    requires n > 0
    ensures ExclusiveOr(x, a, b, n) <==> (x % 2 == 1 <==> a % 2 != b % 2) && ExclusiveOr(x / 2, a / 2, b / 2, n - 1)
  {
    if ExclusiveOr(x, a, b, n) {
      forall k | 0 <= k < n - 1 ensures Bit(x / 2, k) <==> Bit(a / 2, k) != Bit(b / 2, k) {
        assert Bit(x, k + 1) <==> Bit(a, k + 1) != Bit(b, k + 1);
      }
      assert Bit(x, 0) <==> Bit(a, 0) != Bit(b, 0);
    } else {
      var k :| 0 <= k < n && !(Bit(x, k) <==> Bit(a, k) != Bit(b, k));
      assert k > 0 ==> !(Bit(x / 2, k - 1) <==> Bit(a / 2, k - 1) != Bit(b / 2, k - 1));
    }
  }

  lemma {:induction false} XorBitsExactly(x: nat, a: nat, b: nat, n: nat)
    requires x < Pow2(n)
    ensures x == XorBits(a, b, n) <==> ExclusiveOr(x, a, b, n)
  {
    if n > 0 {
      ExclusiveOrHalves(x, a, b, n);
      XorBitsExactly(x / 2, a / 2, b / 2, n - 1);
    }
  }

  lemma EightBits()
    ensures Pow2(8) == 256
  {
    assert Pow2(4) == 16;
    assert Pow2(6) == 64;
  }

  /** Bitwise exclusive or of two octets. */
  function Xor(a: byte, b: byte): byte {
    EightBits();
    XorBits(a as nat, b as nat, 8) as byte
  }

  /** It is the octet with these bits, and the only one. */
  lemma XorExactly(x: byte, a: byte, b: byte)
    ensures x == Xor(a, b) <==> ExclusiveOr(x as nat, a as nat, b as nat, 8)
  {
    EightBits();
    XorBitsExactly(x as nat, a as nat, b as nat, 8);
  }

  lemma XorInvolutive(a: byte, b: byte)
    ensures Xor(Xor(a, b), b) == a
  {
    var x := Xor(a, b);
    XorExactly(x, a, b);
    assert ExclusiveOr(a as nat, x as nat, b as nat, 8);
    XorExactly(a, x, b);
  }

  /** The text of a literal as octets; every literal used in the model is ASCII. */
  function Ascii(text: string): (b: bytes)
    ensures |b| == |text|
    ensures forall i :: 0 <= i < |b| ==> b[i] as int == text[i] as int % 256
  {
    seq(|text|, i requires 0 <= i < |text| => (text[i] as int % 256) as byte)
  }

  lemma Regroup<T>(a: seq<T>, b: seq<T>, c: seq<T>)
    ensures (a + b) + c == a + (b + c)
  {
  }

  lemma SameFront<T>(f: seq<T>, a: seq<T>, b: seq<T>)
    ensures f + a == f + b <==> a == b
  {
    assert (f + a)[|f|..] == a && (f + b)[|f|..] == b;
  }

  lemma LongerFront<T>(a: seq<T>, b: seq<T>, c: seq<T>)
    requires b <= c
    ensures a + b <= a + c && (b == c ==> a + b == a + c)
  {
  }

  lemma MiddleSlice<T>(a: seq<T>, b: seq<T>, c: seq<T>)
    ensures (a + (b + c))[|a|..|a| + |b|] == b
  {
  }

  lemma SliceOfPrefix(s: bytes, t: bytes, i: nat, j: nat)
    requires i <= j <= |s|
    ensures (s + t)[i..j] == s[i..j]
  {
  }

  lemma SliceGrows(s: bytes, i: nat, j: nat)
    requires i <= j < |s|
    ensures s[i..j + 1] == s[i..j] + [s[j]]
  {
  }

  function Concat(parts: seq<bytes>): bytes {
    if parts == [] then [] else parts[0] + Concat(parts[1..])
  }

  lemma {:induction false} ConcatAppend(a: seq<bytes>, b: seq<bytes>)
    ensures Concat(a + b) == Concat(a) + Concat(b)
  {
    if a == [] {
      assert a + b == b;
    } else {
      ConcatAppend(a[1..], b);
      FirstOfBoth(a, b);
      Regroup(a[0], Concat(a[1..]), Concat(b));
    }
  }

  lemma FirstOfBoth<T>(a: seq<T>, b: seq<T>)
    requires a != []
    ensures (a + b)[0] == a[0] && (a + b)[1..] == a[1..] + b && a + b != []
  {
  }

  lemma ConcatOne(part: bytes, parts: seq<bytes>)
    ensures Concat([part] + parts) == part + Concat(parts)
  {
    assert ([part] + parts)[1..] == parts;
  }

  lemma SplitAt(s: bytes, n: nat)
    requires n <= |s|
    ensures s[..n] + s[n..] == s
  {
  }

  function Pow256(k: nat): nat {
    if k == 0 then 1 else 256 * Pow256(k - 1)
  }

  /** Network byte order. */
  function FromBE(s: bytes): nat {
    if s == [] then 0 else FromBE(s[..|s| - 1]) * 256 + s[|s| - 1] as nat
  }

  function ToBE(n: nat, k: nat): (s: bytes)
    ensures |s| == k
  {
    if k == 0 then [] else ToBE(n / 256, k - 1) + [(n % 256) as byte]
  }

  lemma {:induction false} FromToBE(n: nat, k: nat)
    requires n < Pow256(k)
    ensures FromBE(ToBE(n, k)) == n
  {
    if k > 0 {
      FromToBE(n / 256, k - 1);
      var s := ToBE(n, k);
      assert s[..|s| - 1] == ToBE(n / 256, k - 1);
    }
  }

  lemma TwoOctets(n: nat)
    requires n < 0x1_0000
    ensures ToBE(n, 2) == [(n / 0x100) as byte, (n % 0x100) as byte]
  {
    assert ToBE(n / 256, 1) == ToBE(n / 256 / 256, 0) + [(n / 256 % 256) as byte];
  }

  lemma OctetsJoin(n: nat, k: nat)
    ensures ToBE(n, k + 2) == ToBE(n / 0x1_0000, k) + [(n / 0x100 % 0x100) as byte, (n % 0x100) as byte]
  {
    assert n / 256 / 256 == n / 0x1_0000;
    assert ToBE(n / 256, k + 1) == ToBE(n / 0x1_0000, k) + [(n / 256 % 256) as byte];
  }

  lemma {:induction false} FromBEBound(s: bytes)
    ensures FromBE(s) < Pow256(|s|)
  {
    if s != [] {
      FromBEBound(s[..|s| - 1]);
    }
  }

  function Reverse(s: bytes): (r: bytes)
    ensures |r| == |s|
  {
    seq(|s|, i requires 0 <= i < |s| => s[|s| - 1 - i])
  }

  /** Little-endian order is big-endian order of the reversed octets. */
  function FromLE(s: bytes): nat {
    FromBE(Reverse(s))
  }
}
