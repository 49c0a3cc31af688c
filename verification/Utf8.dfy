/** The UTF-8 test of the `auto` framing function, against section 3 of RFC 3629. */
module Utf8 {
  import opened Bytes
  import opened Frames

  predicate IsContinuation(b: byte) {
    0x80 <= b < 0xC0
  }

  /** How many bytes a unit with this first byte has; none can start with a byte that gives 0. */
  function UnitLength(b: byte): (k: nat)
    ensures k <= 4
  {
    if b < 0x80 then 1
    else if 0xC0 <= b < 0xE0 then 2
    else if 0xE0 <= b < 0xF0 then 3
    else if 0xF0 <= b < 0xF8 then 4
    else 0
  }

  /** The ranges are what the source's bit masks select. */
  lemma MasksAreRanges(x: bv8)
    ensures x & 0xC0 == 0x80 <==> 0x80 <= x < 0xC0
    ensures x & 0xE0 == 0xC0 <==> 0xC0 <= x < 0xE0
    ensures x & 0xF0 == 0xE0 <==> 0xE0 <= x < 0xF0
    ensures x & 0xF8 == 0xF0 <==> 0xF0 <= x < 0xF8
    ensures x & 0x80 == 0 <==> x < 0x80
  {
  }

  predicate Continues(s: bytes, i: nat, k: nat) {
    i + k <= |s| && forall j :: i < j < i + k ==> IsContinuation(s[j])
  }

  /** From `p` on the bytes pass the test. */
  predicate PassesFrom(s: bytes, p: nat)
    requires p <= |s|
    decreases |s| - p
  {
    p == |s| || (var k := UnitLength(s[p]); k > 0 && Continues(s, p, k) && PassesFrom(s, p + k))
  }

  predicate Passes(s: bytes) {
    PassesFrom(s, 0)
  }

  /** The `auto` framing function on the first `length` bytes: everything goes, the type may become text. */
  method FramingAuto(data: array<byte>, length: nat, opcode: Opcode) returns (framed: nat, marked: Opcode)
    requires length <= data.Length
    ensures framed == length
    ensures marked == if Passes(data[..length]) then TEXT else opcode
  {
    var p := 0;
    var valid := true;
    ghost var s := data[..length];
    while p < length && valid
      invariant p <= length
      invariant valid ==> PassesFrom(s, 0) == PassesFrom(s, p)
      invariant !valid ==> !PassesFrom(s, 0)
      decreases length - p, if valid then 1 else 0
    {
      var b := data[p];
      assert b == s[p];
      if 0xF0 <= b < 0xF8 {
        if p + 3 >= length
          || !IsContinuation(data[p + 1]) || !IsContinuation(data[p + 2]) || !IsContinuation(data[p + 3]) {
          valid := false;
        } else {
          p := p + 4;
        }
      } else if 0xE0 <= b < 0xF0 {
        if p + 2 >= length || !IsContinuation(data[p + 1]) || !IsContinuation(data[p + 2]) {
          valid := false;
        } else {
          p := p + 3;
        }
      } else if 0xC0 <= b < 0xE0 {
        if p + 1 >= length || !IsContinuation(data[p + 1]) {
          valid := false;
        } else {
          p := p + 2;
        }
      } else if b >= 0x80 {
        valid := false;
      } else {
        p := p + 1;
      }
    }
    framed := length;
    marked := if valid then TEXT else opcode;
  }

  /** One lead byte and as many continuation bytes as it asks for. */
  predicate IsUnit(u: bytes) {
    u != [] && |u| == UnitLength(u[0]) && Continues(u, 0, |u|)
  }

  predicate AreUnits(units: seq<bytes>) {
    units == [] || (IsUnit(units[0]) && AreUnits(units[1..]))
  }

  /** Exactly the byte strings made of units pass the test. */
  lemma PassesExactlyUnits(s: bytes)
    ensures Passes(s) <==> exists units :: AreUnits(units) && Concat(units) == s
  {
    if Passes(s) {
      var units := UnitsFrom(s, 0);
      assert s[0..] == s;
    }
    forall units | AreUnits(units) && Concat(units) == s ensures Passes(s) {
      UnitsPass([], units);
      assert [] + s == s;
    }
  }

  lemma {:induction false} UnitsFrom(s: bytes, p: nat) returns (units: seq<bytes>)
    requires p <= |s| && PassesFrom(s, p)
    ensures AreUnits(units) && Concat(units) == s[p..]
    decreases |s| - p
  {
    units := [];
    if p < |s| {
      var k := UnitLength(s[p]);
      var more := UnitsFrom(s, p + k);
      var u := s[p..p + k];
      units := [u] + more;
      ConcatOne(u, more);
      assert forall j :: 0 < j < k ==> u[j] == s[p + j] && IsContinuation(s[p + j]);
      assert IsUnit(u) && units[1..] == more;
      assert s[p..] == u + s[p + k..];
    }
  }

  lemma {:induction false} UnitsPass(front: bytes, units: seq<bytes>)
    requires AreUnits(units)
    ensures PassesFrom(front + Concat(units), |front|)
    decreases |units|
  {
    if units == [] {
      assert front + [] == front;
    } else {
      var u, more := units[0], Concat(units[1..]);
      UnitsPass(front + u, units[1..]);
      Regroup(front, u, more);
      var s := front + Concat(units);
      assert forall j :: |front| <= j < |front| + |u| ==> s[j] == u[j - |front|];
      assert s[|front|] == u[0];
      assert Continues(s, |front|, |u|);
    }
  }

  /** The scalar values of section 3: code points up to U+10FFFF without the surrogates. */
  predicate IsScalar(c: nat) {
    c <= 0x10FFFF && !(0xD800 <= c < 0xE000)
  }

  type Scalar = c: nat | IsScalar(c)

  /** The encoding of section 3 of RFC 3629. */
  function Encode(c: nat): (u: bytes)
    requires c < 0x20_0000
    ensures IsUnit(u)
  {
    if c < 0x80 then [c as byte]
    else if c < 0x800 then [(0xC0 + c / 0x40) as byte, Trail(c)]
    else if c < 0x1_0000 then [(0xE0 + c / 0x40 / 0x40) as byte, Trail(c / 0x40), Trail(c)]
    else [(0xF0 + c / 0x40 / 0x40 / 0x40) as byte, Trail(c / 0x40 / 0x40), Trail(c / 0x40), Trail(c)]
  }

  function Trail(c: nat): (b: byte)
    ensures IsContinuation(b)
  {
    (0x80 + c % 0x40) as byte
  }

  /** The number a unit stands for, in any of its forms. */
  function Value(u: bytes): (c: nat)
    requires IsUnit(u)
    ensures c < 0x20_0000
  {
    assert forall j :: 0 < j < |u| ==> IsContinuation(u[j]);
    if |u| == 1 then u[0] as nat
    else if |u| == 2 then (u[0] - 0xC0) as nat * 0x40 + (u[1] - 0x80) as nat
    else if |u| == 3 then ((u[0] - 0xE0) as nat * 0x40 + (u[1] - 0x80) as nat) * 0x40 + (u[2] - 0x80) as nat
    else (((u[0] - 0xF0) as nat * 0x40 + (u[1] - 0x80) as nat) * 0x40 + (u[2] - 0x80) as nat) * 0x40 + (u[3] - 0x80) as nat
  }

  /** The least number that needs a unit this long. */
  function Least(k: nat): nat {
    if k <= 1 then 0 else if k == 2 then 0x80 else if k == 3 then 0x800 else 0x1_0000
  }

  predicate IsShortest(u: bytes)
    requires IsUnit(u)
  {
    Least(|u|) <= Value(u)
  }

  lemma ValueOfEncoding(c: nat)
    requires c < 0x20_0000
    ensures Value(Encode(c)) == c && IsShortest(Encode(c))
  {
  }

  lemma EncodingOfValue(u: bytes)
    requires IsUnit(u) && IsShortest(u)
    ensures Encode(Value(u)) == u
  {
    assert forall j :: 0 < j < |u| ==> IsContinuation(u[j]);
    if |u| == 2 {
      Digits((u[0] - 0xC0) as nat, (u[1] - 0x80) as nat);
    } else if |u| == 3 {
      Digits((u[0] - 0xE0) as nat * 0x40 + (u[1] - 0x80) as nat, (u[2] - 0x80) as nat);
      Digits((u[0] - 0xE0) as nat, (u[1] - 0x80) as nat);
    } else if |u| == 4 {
      var a, b, c, d := (u[0] - 0xF0) as nat, (u[1] - 0x80) as nat, (u[2] - 0x80) as nat, (u[3] - 0x80) as nat;
      Digits((a * 0x40 + b) * 0x40 + c, d);
      Digits(a * 0x40 + b, c);
      Digits(a, b);
    }
  }

  lemma Digits(a: nat, b: nat)
    requires b < 0x40
    ensures (a * 0x40 + b) / 0x40 == a && (a * 0x40 + b) % 0x40 == b
  {
  }

  function EncodeAll(text: seq<Scalar>): seq<bytes> {
    if text == [] then [] else [Encode(text[0])] + EncodeAll(text[1..])
  }

  ghost predicate IsText(s: bytes) {
    exists text: seq<Scalar> :: Concat(EncodeAll(text)) == s
  }

  predicate Strict(units: seq<bytes>)
    requires AreUnits(units)
  {
    units == [] || (IsShortest(units[0]) && IsScalar(Value(units[0])) && Strict(units[1..]))
  }

  /** Every encoded text passes. */
  lemma TextPasses(s: bytes)
    requires IsText(s)
    ensures Passes(s)
  {
    var text: seq<Scalar> :| Concat(EncodeAll(text)) == s;
    EncodedIsStrict(text);
    var units := EncodeAll(text);
    assert AreUnits(units) && Concat(units) == s;
    PassesExactlyUnits(s);
  }

  lemma {:induction false} EncodedIsStrict(text: seq<Scalar>)
    ensures AreUnits(EncodeAll(text)) && Strict(EncodeAll(text))
  {
    if text != [] {
      ValueOfEncoding(text[0]);
      EncodedIsStrict(text[1..]);
    }
  }

  lemma {:induction false} StrictIsEncoded(units: seq<bytes>) returns (text: seq<Scalar>)
    requires AreUnits(units) && Strict(units)
    ensures EncodeAll(text) == units
  {
    text := [];
    if units != [] {
      var more := StrictIsEncoded(units[1..]);
      EncodingOfValue(units[0]);
      text := [Value(units[0])] + more;
      assert text[1..] == more;
    }
  }

  /**
   How far the test is from RFC 3629: what passes is UTF-8 if and only if its units are
   shortest forms of scalar values.
   */
  lemma PassesExactlyText(units: seq<bytes>)
    requires AreUnits(units)
    ensures Passes(Concat(units))
    ensures IsText(Concat(units)) <==> Strict(units)
  {
    PassesExactlyUnits(Concat(units));
    if Strict(units) {
      var text := StrictIsEncoded(units);
    }
    if IsText(Concat(units)) {
      var text: seq<Scalar> :| Concat(EncodeAll(text)) == Concat(units);
      EncodedIsStrict(text);
      UnitsAreUnique(units, EncodeAll(text));
    }
  }

  /** A byte string splits into units in one way at most. */
  lemma {:induction false} UnitsAreUnique(a: seq<bytes>, b: seq<bytes>)
    requires AreUnits(a) && AreUnits(b) && Concat(a) == Concat(b)
    ensures a == b
  {
    if a != [] && b != [] {
      SameFirst(a[0], Concat(a[1..]), b[0], Concat(b[1..]));
      UnitsAreUnique(a[1..], b[1..]);
      assert a == [a[0]] + a[1..] && b == [b[0]] + b[1..];
    }
  }

  lemma SameFirst(u: bytes, s: bytes, v: bytes, t: bytes)
    requires IsUnit(u) && IsUnit(v) && u + s == v + t
    ensures u == v && s == t
  {
    assert u[0] == (u + s)[0] && v[0] == (v + t)[0];
    assert u == (u + s)[..|u|] && v == (v + t)[..|v|];
    assert s == (u + s)[|u|..] && t == (v + t)[|v|..];
  }

  /** An overlong form of U+0000 passes and is not UTF-8. */
  lemma OverlongPasses()
    ensures Passes([0xC0, 0x80]) && !IsText([0xC0, 0x80])
  {
    var u: bytes := [0xC0, 0x80];
    assert IsUnit(u) && Value(u) == 0;
    PassesExactlyText([u]);
    ConcatOne(u, []);
    assert [u] + [] == [u] && u + [] == u;
    assert [u][0] == u && [u][1..] == [];
  }
}
