/** JavaScript's `String.prototype.trim` and `startsWith`, on strings as sequences of characters. */
module Strings {

  /** The characters `trim` removes: ECMAScript WhiteSpace (TAB, VT, FF, ZWNBSP and every
      Unicode space separator) and LineTerminator (LF, CR, LS, PS). */
  predicate IsJsWhitespace(c: char) {
    || c == '\t' || c == '\n' || c == '\U{000B}' || c == '\U{000C}' || c == '\r'
    || c == ' ' || c == '\U{00A0}' || c == '\U{1680}'
    || ('\U{2000}' <= c <= '\U{200A}')
    || c == '\U{2028}' || c == '\U{2029}' || c == '\U{202F}' || c == '\U{205F}'
    || c == '\U{3000}' || c == '\U{FEFF}'
  }

  predicate AllWhitespace(s: string) {
    forall i :: 0 <= i < |s| ==> IsJsWhitespace(s[i])
  }

  /** Neither end of `s` is whitespace. */
  predicate Trimmed(s: string) {
    s == [] || (!IsJsWhitespace(s[0]) && !IsJsWhitespace(s[|s| - 1]))
  }

  /** The length of the whitespace run that `s` starts with. */
  function LeadingWhitespace(s: string): (k: nat)
    ensures k <= |s|
    ensures forall i :: 0 <= i < k ==> IsJsWhitespace(s[i])
    ensures k == |s| || !IsJsWhitespace(s[k])
  {
    if |s| > 0 && IsJsWhitespace(s[0]) then
      var k := LeadingWhitespace(s[1..]);
      assert forall i :: 1 <= i < k + 1 ==> s[i] == s[1..][i - 1];
      k + 1
    else 0
  }

  /** Drops the leading whitespace: the result is the suffix of `s` after its whitespace run. */
  function TrimStart(s: string): (r: string)
    ensures |r| <= |s| && r == s[|s| - |r|..]
    ensures AllWhitespace(s[..|s| - |r|])
    ensures r == [] || !IsJsWhitespace(r[0])
  {
    var k := LeadingWhitespace(s);
    assert forall i :: 0 <= i < k ==> s[..k][i] == s[i];
    s[k..]
  }

  /** Drops the trailing whitespace: the result is the prefix of `s` before its whitespace run. */
  function TrimEnd(s: string): (r: string)
    ensures |r| <= |s| && r == s[..|r|]
    ensures AllWhitespace(s[|r|..])
    ensures r == [] || !IsJsWhitespace(r[|r| - 1])
  {
    if |s| > 0 && IsJsWhitespace(s[|s| - 1]) then
      var r := TrimEnd(s[..|s| - 1]);
      assert s[|r|..] == s[..|s| - 1][|r|..] + [s[|s| - 1]];
      r
    else s
  }

  /** `s.trim()`: `s` is the result framed by two runs of whitespace, and the result has
      whitespace at neither end. */
  function Trim(s: string): (r: string)
    ensures Trimmed(r)
    ensures exists i, j :: 0 <= i <= j <= |s| && r == s[i..j] && AllWhitespace(s[..i]) && AllWhitespace(s[j..])
  {
    var t := TrimStart(s);
    var r := TrimEnd(t);
    var i := |s| - |t|;
    assert r == s[i..i + |r|] && AllWhitespace(s[..i]);
    assert s[i + |r|..] == t[|r|..];
    if r == [] then r
    else
      assert r[0] == t[0];
      r
  }

  /** `s.startsWith(p)`. */
  predicate StartsWith(s: string, p: string) {
    |p| <= |s| && s[..|p|] == p
  }

  /** A string is trimmed to nothing exactly when it is all whitespace. */
  lemma TrimEmptyIffWhitespace(s: string)
    ensures Trim(s) == [] <==> AllWhitespace(s)
  {
    var r := Trim(s);
    var i, j :| 0 <= i <= j <= |s| && r == s[i..j] && AllWhitespace(s[..i]) && AllWhitespace(s[j..]);
    if r == [] {
      forall k | 0 <= k < |s| ensures IsJsWhitespace(s[k]) {
        if k < i { assert s[k] == s[..i][k]; } else { assert s[k] == s[j..][k - j]; }
      }
    } else {
      assert r[0] == s[i] && !IsJsWhitespace(s[i]);
    }
  }

  /** Trimming an already trimmed string changes nothing. */
  lemma TrimOfTrimmed(s: string)
    requires Trimmed(s)
    ensures Trim(s) == s
  {
    assert LeadingWhitespace(s) == 0;
    assert s[0..] == s;
    assert TrimStart(s) == s;
    assert TrimEnd(s) == s;
  }

  /** `trim` is idempotent. */
  lemma TrimIdempotent(s: string)
    ensures Trim(Trim(s)) == Trim(s)
  {
    TrimOfTrimmed(Trim(s));
  }
}
