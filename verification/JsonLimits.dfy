/** Where the scanner falls short of the JSON grammar, and exactly when. */
module JsonLimits {
  import opened Bytes
  import opened JsonScan
  import opened JsonTree
  import opened JsonPlaces

  /** A quoted string in which every inner quotation mark comes behind a backslash. */
  predicate QuotesEscaped(text: bytes) {
    && Enclosed(QUOTE, text, QUOTE)
    && InnerEscaped(text)
  }

  /**
   A string is recognised at its real length if and only if it is printable ASCII and its
   last character is not a backslash.
   */
  lemma StringExact(d: bytes, i: nat, text: bytes, n: nat)
    requires QuotesEscaped(text) && Reads(d, i, text, n) && i + |text| <= n
    ensures StringLength(d, i, n) == |text| <==> Printable(text) && text[|text| - 2] != BACKSLASH
  {
    ReadsAt(d, i, text, n);
    RunsOver(d, i, text, n);
    StringStops(d, i + 1, n);
    var s := StringStop(d, i + 1, n);
    var e := i + |text| - 1;
    assert At(d, i) == text[0] && At(d, e) == QUOTE && At(d, e - 1) == text[|text| - 2];
    assert forall k :: 0 <= k < |text| ==> text[k] == At(d, i + k);
    if s < e {
      assert !InString(d, s) && At(d, s) == text[s - i];
      assert !IsPrint(text[s - i]);
    } else {
      assert forall k {:trigger text[k]} :: 1 <= k < |text| - 1 ==> InString(d, i + k);
      assert s == e <==> !InString(d, e);
    }
  }

  /** The document `["\\"]`, an array holding the string of one backslash. */
  const BACKSLASH_DOCUMENT: bytes := [OPEN_ARRAY, QUOTE, BACKSLASH, BACKSLASH, QUOTE, CLOSE_ARRAY]

  /** It has arrived completely, and the scanner still asks for more. */
  lemma TrailingBackslashMissed()
    ensures JsonLength(BACKSLASH_DOCUMENT + [NUL], 0, |BACKSLASH_DOCUMENT|) == 0
  {
    var d, n := BACKSLASH_DOCUMENT + [NUL], |BACKSLASH_DOCUMENT|;
    Dispatch(d, 0, n);
    StringStops(d, 2, n);
    var s := StringStop(d, 2, n);
    assert InString(d, 2) && InString(d, 3) && InString(d, 4) && InString(d, 5);
    assert s == n;
    assert StringLength(d, 1, n) == 0;
    Dispatch(d, 1, n);
    StepAtValue(d, 0, 1, true, n, false, 1);
  }
}
