/**
 The scanner on arbitrary bytes: how far it looks and how much it can return, and that an
 accepted array, object or string stays accepted when more data arrive.
 */
module JsonStable {
  import opened Bytes
  import opened JsonScan

  lemma StringBounds(d: bytes, i: nat, n: nat, z: nat)
    requires i <= n <= z && At(d, z) == NUL
    ensures -1 <= StringLength(d, i, n) && i + StringLength(d, i, n) <= z
  {
  }

  lemma ValueBounds(d: bytes, i: nat, n: nat, z: nat)
    requires i <= n <= z && At(d, z) == NUL
    ensures -1 <= ValueLength(d, i, n) && i + ValueLength(d, i, n) <= z
  {
  }

  /**
   The first NUL at or behind the end of the data bounds the result: behind the data of a
   fresh read, the length of the data does.
   */
  lemma {:induction false} JsonBounds(d: bytes, i: nat, n: nat, z: nat)
    requires i <= n <= z && At(d, z) == NUL
    ensures -1 <= JsonLength(d, i, n) && i + JsonLength(d, i, n) <= z
    decreases n - i, 2
  {
    if i < n {
      var p := Skip(d, i, n);
      StringBounds(d, p, n, z);
      ValueBounds(d, p, n, z);
      ContainerBounds(d, p, n, z, false);
      ContainerBounds(d, p, n, z, true);
    }
  }

  lemma {:induction false} ContainerBounds(d: bytes, i: nat, n: nat, z: nat, keyed: bool)
    requires i <= n <= z && At(d, z) == NUL
    ensures -1 <= ContainerLength(d, i, n, keyed) && i + ContainerLength(d, i, n, keyed) <= z
    decreases n - i, 1
  {
    if i < n && At(d, i) == Open(keyed) {
      EntriesBounds(d, i, i + 1, true, n, z, keyed);
    }
  }

  lemma AfterBounds(d: bytes, start: nat, e: nat, n: nat, z: nat, keyed: bool)
    requires start < e <= z && n <= z && At(d, z) == NUL
    ensures var s := AfterValue(d, start, e, n, keyed);
            s.Stop? ==> -1 <= s.result && start + s.result <= z
  {
  }

  lemma {:induction false} StepBounds(d: bytes, start: nat, cur: nat, first: bool, n: nat, z: nat, keyed: bool)
    requires start < cur <= n <= z && At(d, z) == NUL
    ensures var s := EntryStep(d, start, cur, first, n, keyed);
            s.Stop? ==> -1 <= s.result && start + s.result <= z
    decreases n - cur, 4, 1
  {
    var p := Skip(d, cur, n);
    StringBounds(d, p, n, z);
    var lead := LeadStep(d, p, n, keyed);
    if !(first && At(d, p) == Close(keyed)) && lead.Next? {
      StepBoundsAt(d, start, cur, first, n, z, keyed, p, lead.cur);
    }
  }

  lemma {:induction false} StepBoundsAt(d: bytes, start: nat, cur: nat, first: bool, n: nat, z: nat, keyed: bool,
                                        p: nat, v: nat)
    requires start < cur <= n <= z && At(d, z) == NUL && p == Skip(d, cur, n)
    requires !(first && At(d, p) == Close(keyed)) && LeadStep(d, p, n, keyed) == Next(v)
    ensures var s := EntryStep(d, start, cur, first, n, keyed);
            s.Stop? ==> -1 <= s.result && start + s.result <= z
    decreases n - cur, 4, 0
  {
    StepAtValue(d, start, cur, first, n, keyed, v);
    ValueStepBounds(d, start, v, n, z, keyed);
  }

  lemma {:induction false} ValueStepBounds(d: bytes, start: nat, v: nat, n: nat, z: nat, keyed: bool)
    requires start < v <= n <= z && At(d, z) == NUL
    ensures var r := JsonLength(d, v, n);
            if r <= 0 then -1 <= r && start + r <= z
            else (var s := AfterValue(d, start, v + r, n, keyed); s.Stop? ==> -1 <= s.result && start + s.result <= z)
    decreases n - v, 3
  {
    var r := JsonLength(d, v, n);
    JsonBounds(d, v, n, z);
    if r > 0 {
      AfterBounds(d, start, v + r, n, z, keyed);
    }
  }

  lemma {:induction false} EntriesBounds(d: bytes, start: nat, cur: nat, first: bool, n: nat, z: nat, keyed: bool)
    requires start < cur <= n <= z && At(d, z) == NUL
    ensures -1 <= EntriesLength(d, start, cur, first, n, keyed)
    ensures start + EntriesLength(d, start, cur, first, n, keyed) <= z
    decreases n - cur, 5
  {
    StepBounds(d, start, cur, first, n, z, keyed);
    var s := EntryStep(d, start, cur, first, n, keyed);
    if s.Next? {
      EntriesBounds(d, start, s.cur, false, n, z, keyed);
    }
  }

  /** `d2` holds the data of `d`, which end at `n` and are followed by a NUL, and more behind them. */
  ghost predicate Extends(d: bytes, n: nat, d2: bytes, n2: nat) {
    && n <= n2 && At(d, n) == NUL
    && forall p: nat {:trigger At(d, p)} {:trigger At(d2, p)} :: p < n ==> At(d, p) == At(d2, p)
  }

  lemma {:induction false} SkipExtends(d: bytes, i: nat, n: nat, d2: bytes, n2: nat)
    requires Extends(d, n, d2, n2) && Skip(d, i, n) < n
    ensures Skip(d2, i, n2) == Skip(d, i, n)
    decreases n - i
  {
    if i < n && IsSpace(At(d, i)) {
      SkipExtends(d, i + 1, n, d2, n2);
    }
  }

  lemma {:induction false} StringStopExtends(d: bytes, i: nat, n: nat, d2: bytes, n2: nat)
    requires Extends(d, n, d2, n2) && i <= n && StringStop(d, i, n) < n
    ensures StringStop(d2, i, n2) == StringStop(d, i, n)
    decreases n - i
  {
    if i < n && InString(d, i) {
      StringStopExtends(d, i + 1, n, d2, n2);
    }
  }

  lemma StringExtends(d: bytes, i: nat, n: nat, d2: bytes, n2: nat)
    requires Extends(d, n, d2, n2) && i <= n && StringLength(d, i, n) > 0
    ensures StringLength(d2, i, n2) == StringLength(d, i, n) && i + StringLength(d, i, n) <= n
  {
    StringStopExtends(d, i + 1, n, d2, n2);
  }

  lemma {:induction false} NumberStopExtends(d: bytes, i: nat, n: nat, d2: bytes, n2: nat)
    requires Extends(d, n, d2, n2) && i <= n && NumberStop(d, i, n) < n
    ensures NumberStop(d2, i, n2) == NumberStop(d, i, n)
    decreases n - i
  {
    if i < n && IsNumberChar(At(d, i)) {
      NumberStopExtends(d, i + 1, n, d2, n2);
    }
  }

  lemma LiteralExtends(d: bytes, i: nat, n: nat, d2: bytes, n2: nat)
    requires Extends(d, n, d2, n2) && i <= n && LiteralLength(d, i, n) > 0
    ensures LiteralLength(d2, i, n2) == LiteralLength(d, i, n)
  {
    forall word | StartsWith(d, i, n, word) ensures StartsWith(d2, i, n2, word) {
    }
    assert At(d, i + 0) == At(d2, i + 0);
    assert NULL_TEXT[0] != TRUE_TEXT[0] && TRUE_TEXT[0] != FALSE_TEXT[0] && NULL_TEXT[0] != FALSE_TEXT[0];
    assert forall word :: StartsWith(d2, i, n2, word) && |word| > 0 ==> At(d2, i + 0) == word[0];
    assert forall word :: StartsWith(d, i, n, word) && |word| > 0 ==> At(d, i + 0) == word[0];
  }

  lemma ValueExtends(d: bytes, i: nat, n: nat, d2: bytes, n2: nat)
    requires Extends(d, n, d2, n2) && i <= n && ValueLength(d, i, n) > 0 && i + ValueLength(d, i, n) < n
    ensures ValueLength(d2, i, n2) == ValueLength(d, i, n)
  {
    if IsNumberStart(At(d, i)) {
      NotALiteral(d, i, n);
      NumberStopExtends(d, i + 1, n, d2, n2);
    } else {
      LiteralExtends(d, i, n, d2, n2);
    }
  }

  lemma KeyExtends(d: bytes, p: nat, n: nat, d2: bytes, n2: nat)
    requires Extends(d, n, d2, n2) && p <= n && KeyStep(d, p, n).Next?
    ensures KeyStep(d2, p, n2) == KeyStep(d, p, n)
  {
    StringExtends(d, p, n, d2, n2);
    SkipExtends(d, p + StringLength(d, p, n), n, d2, n2);
  }

  lemma AfterExtends(d: bytes, start: nat, e: nat, n: nat, keyed: bool, d2: bytes, n2: nat)
    requires Extends(d, n, d2, n2)
    requires var s := AfterValue(d, start, e, n, keyed); s.Next? || s.result > 0
    requires start < e <= n
    ensures e < n && AfterValue(d2, start, e, n2, keyed) == AfterValue(d, start, e, n, keyed)
  {
    SkipExtends(d, e, n, d2, n2);
  }

  predicate OpensBracket(c: byte) {
    c == OPEN_ARRAY || c == OPEN_OBJECT || c == QUOTE
  }

  /**
   A positive result is final when an array, object or string was found, or when it leaves
   data over: appending bytes, and whatever comes behind those, does not change it.
   */
  lemma {:induction false} JsonExtends(d: bytes, i: nat, n: nat, d2: bytes, n2: nat)
    requires Extends(d, n, d2, n2) && i <= n && JsonLength(d, i, n) > 0
    requires OpensBracket(At(d, Skip(d, i, n))) || i + JsonLength(d, i, n) < n
    ensures JsonLength(d2, i, n2) == JsonLength(d, i, n)
    decreases n - i, 1
  {
    JsonBounds(d, i, n, n);
    var p := Skip(d, i, n);
    if p < n {
      SkipExtends(d, i, n, d2, n2);
      if At(d, p) == OPEN_ARRAY {
        ContainerExtends(d, p, n, false, d2, n2);
      } else if At(d, p) == OPEN_OBJECT {
        ContainerExtends(d, p, n, true, d2, n2);
      } else if At(d, p) == QUOTE {
        StringExtends(d, p, n, d2, n2);
      } else {
        ValueExtends(d, p, n, d2, n2);
      }
    }
  }

  lemma {:induction false} ContainerExtends(d: bytes, i: nat, n: nat, keyed: bool, d2: bytes, n2: nat)
    requires Extends(d, n, d2, n2) && i <= n && ContainerLength(d, i, n, keyed) > 0
    ensures ContainerLength(d2, i, n2, keyed) == ContainerLength(d, i, n, keyed)
    decreases n - i, 0
  {
    EntriesExtend(d, i, i + 1, true, n, keyed, d2, n2);
  }

  lemma {:induction false} StepExtends(d: bytes, start: nat, cur: nat, first: bool, n: nat, keyed: bool, d2: bytes,
                                       n2: nat)
    requires Extends(d, n, d2, n2) && start < cur <= n
    requires var s := EntryStep(d, start, cur, first, n, keyed); s.Next? || s.result > 0
    ensures EntryStep(d2, start, cur, first, n2, keyed) == EntryStep(d, start, cur, first, n, keyed)
    decreases n - cur, 3, 1
  {
    var p := Skip(d, cur, n);
    SkipExtends(d, cur, n, d2, n2);
    if !(first && At(d, p) == Close(keyed)) {
      LeadExtends(d, p, n, keyed, d2, n2);
      StepExtendsAt(d, start, cur, first, n, keyed, d2, n2, LeadStep(d, p, n, keyed).cur);
    }
  }

  lemma {:induction false} StepExtendsAt(d: bytes, start: nat, cur: nat, first: bool, n: nat, keyed: bool,
                                         d2: bytes, n2: nat, v: nat)
    requires Extends(d, n, d2, n2) && start < cur <= n
    requires Skip(d2, cur, n2) == Skip(d, cur, n) < n && !(first && At(d, Skip(d, cur, n)) == Close(keyed))
    requires LeadStep(d, Skip(d, cur, n), n, keyed) == Next(v) == LeadStep(d2, Skip(d, cur, n), n2, keyed)
    requires var s := EntryStep(d, start, cur, first, n, keyed); s.Next? || s.result > 0
    ensures EntryStep(d2, start, cur, first, n2, keyed) == EntryStep(d, start, cur, first, n, keyed)
    decreases n - cur, 3, 0
  {
    StepAtValue(d, start, cur, first, n, keyed, v);
    var p, r := Skip(d, cur, n), JsonLength(d, v, n);
    var t := AfterValue(d, start, v + r, n, keyed);
    var e := EntryExtends(d, start, v, n, keyed, d2, n2);
    StepIs(d2, start, cur, first, n2, keyed, p, v, r, t);
  }

  lemma {:induction false} EntriesExtend(d: bytes, start: nat, cur: nat, first: bool, n: nat, keyed: bool, d2: bytes,
                                         n2: nat)
    requires Extends(d, n, d2, n2) && start < cur <= n && EntriesLength(d, start, cur, first, n, keyed) > 0
    ensures EntriesLength(d2, start, cur, first, n2, keyed) == EntriesLength(d, start, cur, first, n, keyed)
    decreases n - cur, 4
  {
    StepExtends(d, start, cur, first, n, keyed, d2, n2);
    var s := EntryStep(d, start, cur, first, n, keyed);
    if s.Next? {
      EntriesExtend(d, start, s.cur, false, n, keyed, d2, n2);
    }
  }

  lemma LeadExtends(d: bytes, p: nat, n: nat, keyed: bool, d2: bytes, n2: nat)
    requires Extends(d, n, d2, n2) && p <= n && LeadStep(d, p, n, keyed).Next?
    ensures LeadStep(d2, p, n2, keyed) == LeadStep(d, p, n, keyed)
  {
    if keyed {
      KeyExtends(d, p, n, d2, n2);
    }
  }

  /** A value behind which the loop goes on, or returns a length. */
  lemma {:induction false} EntryExtends(d: bytes, start: nat, v: nat, n: nat, keyed: bool, d2: bytes, n2: nat)
    returns (e: nat)
    requires Extends(d, n, d2, n2) && start < v <= n && JsonLength(d, v, n) > 0
    requires var s := AfterValue(d, start, v + JsonLength(d, v, n), n, keyed); s.Next? || s.result > 0
    ensures e == v + JsonLength(d, v, n) == v + JsonLength(d2, v, n2) && v < e < n
    ensures AfterValue(d2, start, e, n2, keyed) == AfterValue(d, start, e, n, keyed)
    decreases n - v, 2
  {
    JsonBounds(d, v, n, n);
    e := v + JsonLength(d, v, n);
    AfterExtends(d, start, e, n, keyed, d2, n2);
    JsonExtends(d, v, n, d2, n2);
  }

  lemma ConcatExtends(s: bytes, t: bytes, rest: bytes)
    ensures Extends(s + [NUL], |s|, s + t + rest, |s + t|)
  {
  }

  /** The same for strings of bytes as they are received, each followed by a NUL. */
  lemma AppendedData(s: bytes, t: bytes)
    requires JsonLength(s + [NUL], 0, |s|) > 0 && OpensBracket(At(s + [NUL], Skip(s + [NUL], 0, |s|)))
    ensures JsonLength(s + t + [NUL], 0, |s + t|) == JsonLength(s + [NUL], 0, |s|) <= |s|
  {
    ConcatExtends(s, t, [NUL]);
    JsonExtends(s + [NUL], 0, |s|, s + t + [NUL], |s + t|);
    JsonBounds(s + [NUL], 0, |s|, |s|);
  }
}
