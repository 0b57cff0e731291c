/** JavaScript string trimming, as the forms use it for their blank checks. */
module Text {

  /** The characters `String.prototype.trim` strips: the ECMAScript WhiteSpace
      (tab, vertical tab, form feed, space, no-break space, byte-order mark and the
      Unicode space separators) and LineTerminator code points. */
  predicate IsWhitespace(c: char) {
    || c == ' ' || c == '\t' || c == '\n' || c == '\r'
    || c == '\U{000B}' || c == '\U{000C}' || c == '\U{00A0}' || c == '\U{FEFF}'
    || c == '\U{1680}' || ('\U{2000}' <= c <= '\U{200A}')
    || c == '\U{2028}' || c == '\U{2029}' || c == '\U{202F}' || c == '\U{205F}' || c == '\U{3000}'
  }

  /** Every character is whitespace (the empty string included). */
  predicate IsBlank(s: string) {
    forall i :: 0 <= i < |s| ==> IsWhitespace(s[i])
  }

  /** Index of the first non-whitespace character at or after `from` (|s| if none). */
  function SkipBlanks(s: string, from: nat): (n: nat)
    requires from <= |s|
    ensures from <= n <= |s|
    ensures forall k :: from <= k < n ==> IsWhitespace(s[k])
    ensures n == |s| || !IsWhitespace(s[n])
    decreases |s| - from
  {
    if from < |s| && IsWhitespace(s[from]) then SkipBlanks(s, from + 1) else from
  }

  /** End of `s[lo..upto]` once its trailing whitespace is dropped. */
  function SkipBlanksBack(s: string, lo: nat, upto: nat): (n: nat)
    requires lo <= upto <= |s|
    ensures lo <= n <= upto
    ensures forall k :: n <= k < upto ==> IsWhitespace(s[k])
    ensures n == lo || !IsWhitespace(s[n - 1])
    decreases upto
  {
    if lo < upto && IsWhitespace(s[upto - 1]) then SkipBlanksBack(s, lo, upto - 1) else upto
  }

  /** `s.trim()`: the longest middle part of `s` that neither starts nor ends with
      whitespace; everything cut away on either side is whitespace. */
  function Trim(s: string): (r: string)
    ensures r == [] || (!IsWhitespace(r[0]) && !IsWhitespace(r[|r| - 1]))
    ensures exists i :: 0 <= i <= |s| - |r| && s[i..i + |r|] == r && IsBlank(s[..i]) && IsBlank(s[i + |r|..])
  {
    var i := SkipBlanks(s, 0);
    var j := SkipBlanksBack(s, i, |s|);
    assert IsBlank(s[..i]);
    assert IsBlank(s[j..]);
    s[i..j]
  }

  /** A string trims to the empty string exactly when it is blank; this is the test
      `!x.trim()` the forms perform. */
  lemma TrimEmptyIffBlank(s: string)
    ensures Trim(s) == [] <==> IsBlank(s)
  {
    var i := SkipBlanks(s, 0);
    if i < |s| {
      assert SkipBlanksBack(s, i, |s|) > i;
    }
  }

  /** Trimming twice is trimming once. */
  lemma TrimIdempotent(s: string)
    ensures Trim(Trim(s)) == Trim(s)
  {
    var r := Trim(s);
    if r != [] {
      assert SkipBlanks(r, 0) == 0;
      assert SkipBlanksBack(r, 0, |r|) == |r|;
      assert r[0..|r|] == r;
    }
  }
}
