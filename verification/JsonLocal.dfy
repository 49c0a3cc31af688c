/**
 The scanner's length of a value depends on no byte behind it, unless the value is a number:
 a length that lies within fewer data is found in those alone.
 */
module JsonLocal {
  import opened Bytes
  import opened JsonScan

  /** `d` holds the first `m` bytes of the data of `d2`, which end at `n2`. */
  ghost predicate Shares(d: bytes, m: nat, d2: bytes, n2: nat) {
    && m <= n2
    && forall p: nat {:trigger At(d, p)} {:trigger At(d2, p)} :: p < m ==> At(d, p) == At(d2, p)
  }

  lemma {:induction false} SkipShares(d: bytes, i: nat, m: nat, d2: bytes, n2: nat)
    requires Shares(d, m, d2, n2) && Skip(d2, i, n2) < m
    ensures Skip(d, i, m) == Skip(d2, i, n2)
    decreases m - i
  {
    if i < m && IsSpace(At(d, i)) {
      SkipShares(d, i + 1, m, d2, n2);
    }
  }

  lemma {:induction false} StringStopShares(d: bytes, i: nat, m: nat, d2: bytes, n2: nat)
    requires Shares(d, m, d2, n2) && i <= m && StringStop(d2, i, n2) < m
    ensures StringStop(d, i, m) == StringStop(d2, i, n2)
    decreases m - i
  {
    if i < m && InString(d, i) {
      StringStopShares(d, i + 1, m, d2, n2);
    }
  }

  lemma StringShares(d: bytes, i: nat, m: nat, d2: bytes, n2: nat)
    requires Shares(d, m, d2, n2) && i <= n2 && StringLength(d2, i, n2) > 0 && i + StringLength(d2, i, n2) <= m
    ensures StringLength(d, i, m) == StringLength(d2, i, n2)
  {
    StringStopShares(d, i + 1, m, d2, n2);
  }

  lemma {:induction false} NumberStopShares(d: bytes, i: nat, m: nat, d2: bytes, n2: nat)
    requires Shares(d, m, d2, n2) && i <= m && NumberStop(d2, i, n2) < m
    ensures NumberStop(d, i, m) == NumberStop(d2, i, n2)
    decreases m - i
  {
    if i < m && IsNumberChar(At(d, i)) {
      NumberStopShares(d, i + 1, m, d2, n2);
    }
  }

  lemma WordShares(d: bytes, i: nat, m: nat, d2: bytes, n2: nat, word: bytes)
    requires Shares(d, m, d2, n2) && i + |word| <= m
    ensures StartsWith(d, i, m, word) <==> StartsWith(d2, i, n2, word)
  {
  }

  lemma LiteralShares(d: bytes, i: nat, m: nat, d2: bytes, n2: nat)
    requires Shares(d, m, d2, n2) && i <= n2 && LiteralLength(d2, i, n2) > 0 && i + LiteralLength(d2, i, n2) <= m
    ensures LiteralLength(d, i, m) == LiteralLength(d2, i, n2)
  {
    WordShares(d, i, m, d2, n2, NULL_TEXT);
    WordShares(d, i, m, d2, n2, TRUE_TEXT);
    if LiteralLength(d2, i, n2) == 5 {
      WordShares(d, i, m, d2, n2, FALSE_TEXT);
    }
  }

  lemma ValueShares(d: bytes, i: nat, m: nat, d2: bytes, n2: nat)
    requires Shares(d, m, d2, n2) && i <= n2 && ValueLength(d2, i, n2) > 0 && i + ValueLength(d2, i, n2) <= m
    requires IsNumberStart(At(d2, i)) ==> i + ValueLength(d2, i, n2) < m
    ensures ValueLength(d, i, m) == ValueLength(d2, i, n2)
  {
    if IsNumberStart(At(d2, i)) {
      NotALiteral(d2, i, n2);
      NumberStopShares(d, i + 1, m, d2, n2);
    } else {
      LiteralShares(d, i, m, d2, n2);
    }
  }

  /** What a positive result covers. */
  lemma {:induction false} ReachesPast(d: bytes, start: nat, cur: nat, first: bool, n: nat, keyed: bool)
    requires start < cur <= n && EntriesLength(d, start, cur, first, n, keyed) > 0
    ensures start + EntriesLength(d, start, cur, first, n, keyed) > cur
    decreases n - cur
  {
    var s := EntryStep(d, start, cur, first, n, keyed);
    if s.Next? {
      ReachesPast(d, start, s.cur, false, n, keyed);
    } else {
      StepReachesPast(d, start, cur, first, n, keyed);
    }
  }

  lemma StepReachesPast(d: bytes, start: nat, cur: nat, first: bool, n: nat, keyed: bool)
    requires start < cur <= n
    ensures var s := EntryStep(d, start, cur, first, n, keyed);
            s.Stop? && s.result > 0 ==> start + s.result > cur
  {
    var p := Skip(d, cur, n);
    var lead := LeadStep(d, p, n, keyed);
    if !(first && At(d, p) == Close(keyed)) && lead.Next? {
      PastValue(d, start, cur, first, n, keyed, p, lead.cur);
    }
  }

  lemma PastValue(d: bytes, start: nat, cur: nat, first: bool, n: nat, keyed: bool, p: nat, v: nat)
    requires start < cur <= n && p == Skip(d, cur, n) && !(first && At(d, p) == Close(keyed))
    requires LeadStep(d, p, n, keyed) == Next(v)
    ensures var s := EntryStep(d, start, cur, first, n, keyed);
            s.Stop? && s.result > 0 ==> start + s.result > cur
  {
    StepAtValue(d, start, cur, first, n, keyed, v);
    var r := JsonLength(d, v, n);
    if r > 0 {
      BehindReachesPast(d, start, v, n, keyed, r);
    }
  }

  lemma BehindReachesPast(d: bytes, start: nat, v: nat, n: nat, keyed: bool, r: int)
    requires r > 0
    ensures var s := AfterValue(d, start, v + r, n, keyed);
            s.Stop? && s.result > 0 ==> start + s.result > v
  {
  }

  /** The step goes on before `m`, or returns a length that lies within `m`. */
  predicate Within(s: Step, start: nat, m: nat) {
    match s
    case Next(cur) => cur < m
    case Stop(result) => result > 0 && start + result <= m
  }

  lemma AfterShares(d: bytes, start: nat, e: nat, m: nat, keyed: bool, d2: bytes, n2: nat)
    requires Shares(d, m, d2, n2) && start < e && Within(AfterValue(d2, start, e, n2, keyed), start, m)
    ensures e < m && AfterValue(d, start, e, m, keyed) == AfterValue(d2, start, e, n2, keyed)
  {
    assert Skip(d2, e, n2) < m;
    SkipShares(d, e, m, d2, n2);
  }

  lemma LeadShares(d: bytes, p: nat, m: nat, keyed: bool, d2: bytes, n2: nat)
    requires Shares(d, m, d2, n2) && p <= n2 && LeadStep(d2, p, n2, keyed).Next? && LeadStep(d2, p, n2, keyed).cur < m
    ensures p < m && LeadStep(d, p, m, keyed) == LeadStep(d2, p, n2, keyed)
  {
    if keyed {
      StringShares(d, p, m, d2, n2);
      SkipShares(d, p + StringLength(d2, p, n2), m, d2, n2);
    }
  }

  predicate StartsNumber(d: bytes, i: nat, n: nat) {
    IsNumberStart(At(d, Skip(d, i, n)))
  }

  lemma {:induction false} JsonShares(d: bytes, i: nat, m: nat, d2: bytes, n2: nat)
    requires Shares(d, m, d2, n2) && i <= m && JsonLength(d2, i, n2) > 0 && i + JsonLength(d2, i, n2) <= m
    requires StartsNumber(d2, i, n2) ==> i + JsonLength(d2, i, n2) < m
    ensures JsonLength(d, i, m) == JsonLength(d2, i, n2)
    decreases m - i, 0
  {
    var p := Skip(d2, i, n2);
    JsonCases(d2, i, n2, p);
    assert p < m;
    SkipShares(d, i, m, d2, n2);
    JsonCases(d, i, m, p);
    if At(d, p) == OPEN_ARRAY {
      ContainerShares(d, p, m, false, d2, n2);
    } else if At(d, p) == OPEN_OBJECT {
      ContainerShares(d, p, m, true, d2, n2);
    } else if At(d, p) == QUOTE {
      StringShares(d, p, m, d2, n2);
    } else {
      ValueShares(d, p, m, d2, n2);
    }
  }

  lemma {:induction false} ContainerShares(d: bytes, i: nat, m: nat, keyed: bool, d2: bytes, n2: nat)
    requires Shares(d, m, d2, n2) && i < m
    requires ContainerLength(d2, i, n2, keyed) > 0 && i + ContainerLength(d2, i, n2, keyed) <= m
    ensures ContainerLength(d, i, m, keyed) == ContainerLength(d2, i, n2, keyed)
    decreases m - i - 1, 5
  {
    EntriesShare(d, i, i + 1, true, m, keyed, d2, n2);
  }

  lemma {:induction false} StepShares(d: bytes, start: nat, cur: nat, first: bool, m: nat, keyed: bool, d2: bytes,
                                      n2: nat)
    requires Shares(d, m, d2, n2) && start < cur <= m && Within(EntryStep(d2, start, cur, first, n2, keyed), start, m)
    ensures EntryStep(d, start, cur, first, m, keyed) == EntryStep(d2, start, cur, first, n2, keyed)
    decreases m - cur, 3
  {
    var p := Skip(d2, cur, n2);
    if first && At(d2, p) == Close(keyed) {
      SkipShares(d, cur, m, d2, n2);
    } else {
      StepSharesAt(d, start, cur, first, m, keyed, d2, n2, p, LeadStep(d2, p, n2, keyed).cur);
    }
  }

  lemma {:induction false} StepSharesAt(d: bytes, start: nat, cur: nat, first: bool, m: nat, keyed: bool,
                                        d2: bytes, n2: nat, p: nat, v: nat)
    requires Shares(d, m, d2, n2) && start < cur <= m && Within(EntryStep(d2, start, cur, first, n2, keyed), start, m)
    requires p == Skip(d2, cur, n2) && !(first && At(d2, p) == Close(keyed)) && LeadStep(d2, p, n2, keyed) == Next(v)
    ensures EntryStep(d, start, cur, first, m, keyed) == EntryStep(d2, start, cur, first, n2, keyed)
    decreases m - cur, 2
  {
    StepAtValue(d2, start, cur, first, n2, keyed, v);
    var r := JsonLength(d2, v, n2);
    var t := AfterValue(d2, start, v + r, n2, keyed);
    ValueThenBehind(d, start, v, m, keyed, d2, n2);
    LeadShares(d, p, m, keyed, d2, n2);
    SkipShares(d, cur, m, d2, n2);
    StepIs(d, start, cur, first, m, keyed, p, v, r, t);
  }

  /** A value and what comes behind it. */
  lemma {:induction false} ValueThenBehind(d: bytes, start: nat, v: nat, m: nat, keyed: bool, d2: bytes, n2: nat)
    requires Shares(d, m, d2, n2) && start < v <= n2 && JsonLength(d2, v, n2) > 0
    requires Within(AfterValue(d2, start, v + JsonLength(d2, v, n2), n2, keyed), start, m)
    ensures v < m && JsonLength(d, v, m) == JsonLength(d2, v, n2)
    ensures var e := v + JsonLength(d2, v, n2);
            AfterValue(d, start, e, m, keyed) == AfterValue(d2, start, e, n2, keyed)
    decreases m - v, 1
  {
    AfterShares(d, start, v + JsonLength(d2, v, n2), m, keyed, d2, n2);
    JsonShares(d, v, m, d2, n2);
  }

  lemma {:induction false} EntriesShare(d: bytes, start: nat, cur: nat, first: bool, m: nat, keyed: bool, d2: bytes,
                                        n2: nat)
    requires Shares(d, m, d2, n2) && start < cur <= m && EntriesLength(d2, start, cur, first, n2, keyed) > 0
    requires start + EntriesLength(d2, start, cur, first, n2, keyed) <= m
    ensures EntriesLength(d, start, cur, first, m, keyed) == EntriesLength(d2, start, cur, first, n2, keyed)
    decreases m - cur, 4
  {
    var s := EntryStep(d2, start, cur, first, n2, keyed);
    if s.Next? {
      ReachesPast(d2, start, s.cur, false, n2, keyed);
    }
    StepShares(d, start, cur, first, m, keyed, d2, n2);
    if s.Next? {
      EntriesShare(d, start, s.cur, false, m, keyed, d2, n2);
    }
  }
}
