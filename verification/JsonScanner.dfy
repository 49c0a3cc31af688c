/**
 The recognisers as they run: loops over a buffer that is only read.  `base` is where a
 recogniser is started, `length` how many valid bytes there are from there; somewhere at
 or behind the end of the valid bytes, at `z`, the buffer holds a NUL.  Every byte looked
 at lies within the buffer.
 */
module JsonScanner {
  import opened Bytes
  import opened JsonScan
  import opened JsonStable

  /** The buffer, which holds `d`, has a NUL at or behind the end of the data. */
  ghost predicate Terminated(data: array<byte>, d: bytes, base: nat, length: nat, z: nat)
    reads data
  {
    d == data[..] && base + length <= z < |d| && d[z] == NUL
  }

  method SkipSpace(data: array<byte>, base: nat, from: nat, length: nat, ghost d: bytes, ghost z: nat)
    returns (current: nat)
    requires Terminated(data, d, base, length, z) && base + from <= z
    ensures base + current == Skip(d, base + from, base + length) <= z
  {
    current := from;
    while current < length && IsSpace(data[base + current])
      invariant from <= current && base + current <= z
      invariant Skip(d, base + from, base + length) == Skip(d, base + current, base + length)
    {
      current := current + 1;
    }
  }

  method ScanString(data: array<byte>, base: nat, length: nat, ghost d: bytes, ghost z: nat) returns (rv: int)
    requires Terminated(data, d, base, length, z)
    ensures rv == StringLength(d, base, base + length)
  {
    if length == 0 {
      return 0;
    }
    if data[base] != QUOTE {
      return -1;
    }
    var stringLength := 1;
    while stringLength < length
      && IsPrint(data[base + stringLength])
      && (data[base + stringLength] != QUOTE || data[base + stringLength - 1] == BACKSLASH)
      invariant 1 <= stringLength <= length
      invariant StringStop(d, base + 1, base + length) == StringStop(d, base + stringLength, base + length)
    {
      stringLength := stringLength + 1;
    }
    if data[base + stringLength] == QUOTE && data[base + stringLength - 1] != BACKSLASH {
      return stringLength + 1;
    }
    if stringLength >= length {
      return 0;
    }
    return -1;
  }

  /** As `strncmp` finds it: the first `count` bytes of `word` stand at `base`. */
  method Compare(data: array<byte>, base: nat, word: bytes, count: nat) returns (equal: bool)
    requires count <= |word| && base + count <= data.Length
    ensures equal <==> forall k {:trigger word[k]} :: 0 <= k < count ==> At(data[..], base + k) == word[k]
  {
    var k := 0;
    while k < count
      invariant k <= count
      invariant forall j {:trigger word[j]} :: 0 <= j < k ==> At(data[..], base + j) == word[j]
    {
      if data[base + k] != word[k] {
        assert At(data[..], base + k) != word[k];
        return false;
      }
      k := k + 1;
    }
    return true;
  }

  method ScanLiteral(data: array<byte>, base: nat, length: nat, ghost d: bytes, ghost z: nat) returns (rv: int)
    requires Terminated(data, d, base, length, z)
    ensures rv == LiteralLength(d, base, base + length)
  {
    var equal := false;
    if length >= 4 {
      equal := Compare(data, base, NULL_TEXT, 4);
      if equal {
        return 4;
      }
      equal := Compare(data, base, TRUE_TEXT, 4);
      if equal {
        return 4;
      }
    }
    if length >= 5 {
      equal := Compare(data, base, FALSE_TEXT, 5);
      if equal {
        return 5;
      }
    }
    if length < 4 {
      equal := Compare(data, base, NULL_TEXT, length);
      if equal {
        return 0;
      }
      equal := Compare(data, base, TRUE_TEXT, length);
      if equal {
        return 0;
      }
    }
    if length < 5 {
      equal := Compare(data, base, FALSE_TEXT, length);
      if equal {
        return 0;
      }
    }
    return -1;
  }

  method ScanValue(data: array<byte>, base: nat, length: nat, ghost d: bytes, ghost z: nat) returns (rv: int)
    requires Terminated(data, d, base, length, z)
    ensures rv == ValueLength(d, base, base + length)
  {
    if length == 0 {
      return 0;
    }
    if IsNumberStart(data[base]) {
      var valueLength := 1;
      while valueLength < length && IsNumberChar(data[base + valueLength])
        invariant 1 <= valueLength <= length
        invariant NumberStop(d, base + 1, base + length) == NumberStop(d, base + valueLength, base + length)
      {
        valueLength := valueLength + 1;
      }
      if EndsNumber(data[base + valueLength]) {
        return valueLength;
      }
      if valueLength >= length {
        if NeedsMoreDigits(data[base + valueLength - 1]) {
          return 0;
        }
        return valueLength;
      }
    }
    rv := ScanLiteral(data, base, length, d, z);
  }

  /** The part of the array and object loops behind a value. */
  method ScanBehind(data: array<byte>, base: nat, from: nat, length: nat, keyed: bool, ghost d: bytes, ghost z: nat)
    returns (step: Step)
    requires Terminated(data, d, base, length, z) && base + from <= z
    ensures step == AfterValue(d, base, base + from, base + length, keyed)
  {
    var current := SkipSpace(data, base, from, length, d, z);
    if data[base + current] == Close(keyed) {
      return Stop(current + 1);
    }
    if current >= length {
      return Stop(0);
    }
    if data[base + current] == COMMA {
      current := current + 1;
      if current < length {
        return Next(base + current);
      }
    }
    if data[base + current] == Close(keyed) {
      return Stop(current + 1);
    }
    return Stop(-1);
  }

  /** What a container does about the value at `v`. */
  function ThenBehind(d: bytes, start: nat, v: nat, n: nat, keyed: bool): Step
    requires v <= n
  {
    var r := JsonLength(d, v, n);
    if r <= 0 then Stop(r) else AfterValue(d, start, v + r, n, keyed)
  }

  /** A value and what comes behind it. */
  method ScanThenBehind(data: array<byte>, base: nat, from: nat, length: nat, keyed: bool, ghost d: bytes, ghost z: nat)
    returns (step: Step)
    requires Terminated(data, d, base, length, z) && 0 < from <= length
    ensures step == ThenBehind(d, base, base + from, base + length, keyed)
    decreases length - from, 4
  {
    var next := ScanJson(data, base + from, length - from, d, z);
    if next <= 0 {
      return Stop(next);
    }
    step := ScanBehind(data, base, from + next, length, keyed, d, z);
  }

  lemma ItemStep(d: bytes, start: nat, cur: nat, first: bool, n: nat, p: nat)
    requires start < cur <= n && p == Skip(d, cur, n) && !(first && At(d, p) == CLOSE_ARRAY)
    ensures EntryStep(d, start, cur, first, n, false) == ThenBehind(d, start, p, n, false)
  {
    StepAtValue(d, start, cur, first, n, false, p);
  }

  /** What an object does about the entry whose key is at `p`. */
  function MemberAt(d: bytes, start: nat, p: nat, n: nat): Step
    requires p <= n
  {
    match KeyStep(d, p, n)
    case Stop(result) => Stop(result)
    case Next(v) => ThenBehind(d, start, v, n, true)
  }

  lemma MemberStep(d: bytes, start: nat, cur: nat, first: bool, n: nat, p: nat)
    requires start < cur <= n && p == Skip(d, cur, n)
    ensures EntryStep(d, start, cur, first, n, true)
         == if first && At(d, p) == CLOSE_OBJECT then Stop(p + 1 - start) else MemberAt(d, start, p, n)
  {
    var key := KeyStep(d, p, n);
    if !(first && At(d, p) == CLOSE_OBJECT) && key.Next? {
      StepAtValue(d, start, cur, first, n, true, key.cur);
    }
  }

  /** One round of the array loop. */
  method ScanItem(data: array<byte>, base: nat, from: nat, first: bool, length: nat, ghost d: bytes, ghost z: nat)
    returns (step: Step)
    requires Terminated(data, d, base, length, z) && 0 < from <= length
    ensures step == EntryStep(d, base, base + from, first, base + length, false)
    decreases length - from, 5
  {
    var current := SkipSpace(data, base, from, length, d, z);
    if first && data[base + current] == CLOSE_ARRAY {
      return Stop(current + 1);
    }
    ItemStep(d, base, base + from, first, base + length, base + current);
    step := ScanThenBehind(data, base, current, length, false, d, z);
  }

  method ScanArray(data: array<byte>, base: nat, length: nat, ghost d: bytes, ghost z: nat) returns (rv: int)
    requires Terminated(data, d, base, length, z)
    ensures rv == ContainerLength(d, base, base + length, false)
    decreases length, 1
  {
    if length == 0 {
      return 0;
    }
    if data[base] != OPEN_ARRAY {
      return -1;
    }
    var step, first := Next(base + 1), true;
    while step.Next?
      invariant step.Next? ==> base < step.cur <= base + length
      invariant ContainerLength(d, base, base + length, false)
             == match step
                case Stop(result) => result
                case Next(c) => EntriesLength(d, base, c, first, base + length, false)
      decreases step.Next?, if step.Next? then base + length - step.cur else 0
    {
      step := ScanItem(data, base, step.cur - base, first, length, d, z);
      first := false;
    }
    return step.result;
  }

  /** A key and the colon behind it. */
  method ScanKey(data: array<byte>, base: nat, from: nat, length: nat, ghost d: bytes, ghost z: nat)
    returns (step: Step)
    requires Terminated(data, d, base, length, z) && 0 < from <= length
    ensures step == KeyStep(d, base + from, base + length)
  {
    StringBounds(d, base + from, base + length, z);
    var next := ScanString(data, base + from, length - from, d, z);
    if next <= 0 {
      return Stop(next);
    }
    var current := SkipSpace(data, base, from + next, length, d, z);
    if current >= length - 1 {
      return Stop(0);
    } else if data[base + current] != COLON {
      return Stop(-1);
    }
    return Next(base + current + 1);
  }

  /** A key, its value and what comes behind that. */
  method ScanKeyed(data: array<byte>, base: nat, from: nat, length: nat, ghost d: bytes, ghost z: nat)
    returns (step: Step)
    requires Terminated(data, d, base, length, z) && 0 < from <= length
    ensures step == MemberAt(d, base, base + from, base + length)
    decreases length - from, 5
  {
    var key := ScanKey(data, base, from, length, d, z);
    if key.Stop? {
      return key;
    }
    step := ScanThenBehind(data, base, key.cur - base, length, true, d, z);
  }

  /** One round of the object loop. */
  method ScanMember(data: array<byte>, base: nat, from: nat, first: bool, length: nat, ghost d: bytes, ghost z: nat)
    returns (step: Step)
    requires Terminated(data, d, base, length, z) && 0 < from <= length
    ensures step == EntryStep(d, base, base + from, first, base + length, true)
    decreases length - from, 6
  {
    var current := SkipSpace(data, base, from, length, d, z);
    MemberStep(d, base, base + from, first, base + length, base + current);
    if first && data[base + current] == CLOSE_OBJECT {
      return Stop(current + 1);
    }
    step := ScanKeyed(data, base, current, length, d, z);
  }

  method ScanObject(data: array<byte>, base: nat, length: nat, ghost d: bytes, ghost z: nat) returns (rv: int)
    requires Terminated(data, d, base, length, z)
    ensures rv == ContainerLength(d, base, base + length, true)
    decreases length, 1
  {
    if length == 0 {
      return 0;
    }
    if data[base] != OPEN_OBJECT {
      return -1;
    }
    var step, first := Next(base + 1), true;
    while step.Next?
      invariant step.Next? ==> base < step.cur <= base + length
      invariant ContainerLength(d, base, base + length, true)
             == match step
                case Stop(result) => result
                case Next(c) => EntriesLength(d, base, c, first, base + length, true)
      decreases step.Next?, if step.Next? then base + length - step.cur else 0
    {
      step := ScanMember(data, base, step.cur - base, first, length, d, z);
      first := false;
    }
    return step.result;
  }

  method ScanJson(data: array<byte>, base: nat, length: nat, ghost d: bytes, ghost z: nat) returns (rv: int)
    requires Terminated(data, d, base, length, z)
    ensures rv == JsonLength(d, base, base + length)
    ensures -1 <= rv && base + rv <= z
    decreases length, 3
  {
    JsonBounds(d, base, base + length, z);
    if length == 0 {
      return 0;
    }
    var current := SkipSpace(data, base, 0, length, d, z);
    JsonIs(d, base, base + length, base + current);
    rv := ScanStart(data, base + current, length - current, d, z);
    if rv > 0 {
      rv := current + rv;
    }
  }

  /** The length of what starts at `p`, by its first byte. */
  function LengthBy(d: bytes, p: nat, n: nat): int
    requires p <= n
  {
    if At(d, p) == OPEN_ARRAY then ContainerLength(d, p, n, false)
    else if At(d, p) == OPEN_OBJECT then ContainerLength(d, p, n, true)
    else if At(d, p) == QUOTE then StringLength(d, p, n)
    else ValueLength(d, p, n)
  }

  lemma JsonIs(d: bytes, i: nat, n: nat, p: nat)
    requires i < n && p == Skip(d, i, n)
    ensures JsonLength(d, i, n) == if LengthBy(d, p, n) <= 0 then LengthBy(d, p, n) else p - i + LengthBy(d, p, n)
  {
    JsonCases(d, i, n, p);
  }

  /** Which recogniser takes over. */
  method ScanStart(data: array<byte>, base: nat, length: nat, ghost d: bytes, ghost z: nat) returns (rv: int)
    requires Terminated(data, d, base, length, z)
    ensures rv == LengthBy(d, base, base + length)
    decreases length, 2
  {
    if data[base] == OPEN_ARRAY {
      rv := ScanArray(data, base, length, d, z);
    } else if data[base] == OPEN_OBJECT {
      rv := ScanObject(data, base, length, d, z);
    } else if data[base] == QUOTE {
      rv := ScanString(data, base, length, d, z);
    } else {
      rv := ScanValue(data, base, length, d, z);
    }
  }
}
