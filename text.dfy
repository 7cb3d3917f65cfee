/** Characters and strings as JavaScript sees them: the white-space class used
    by both the regular-expression escape `\s` and `String.prototype.trim`. */
module Text {

  /** ECMAScript WhiteSpace and LineTerminator code points: the characters `\s`
      matches and `trim()` removes. */
  predicate IsSpace(c: char)
  {
    || c == '\t' || c == '\n' || c == '\U{000B}' || c == '\U{000C}' || c == '\r'
    || c == ' ' || c == '\U{00A0}' || c == '\U{1680}'
    || ('\U{2000}' <= c <= '\U{200A}')
    || c == '\U{2028}' || c == '\U{2029}' || c == '\U{202F}' || c == '\U{205F}'
    || c == '\U{3000}' || c == '\U{FEFF}'
  }

  /** Every character of `s` is white space (so is the empty string). */
  ghost predicate IsBlank(s: string)
  {
    forall i :: 0 <= i < |s| ==> IsSpace(s[i])
  }

  predicate StartsWith(s: string, prefix: string)
  {
    |prefix| <= |s| && s[..|prefix|] == prefix
  }

  /** `s.trimStart()`: drops the leading white space. */
  function TrimStart(s: string): (r: string)
    ensures |r| <= |s| && r == s[|s| - |r|..]
    ensures IsBlank(s[..|s| - |r|])
    ensures r == [] || !IsSpace(r[0])
    ensures r == [] <==> IsBlank(s)
  {
    if |s| > 0 && IsSpace(s[0]) then TrimStart(s[1..]) else s
  }

  /** `s.trimEnd()`: drops the trailing white space. */
  function TrimEnd(s: string): (r: string)
    ensures |r| <= |s| && r == s[..|r|]
    ensures IsBlank(s[|r|..])
    ensures r == [] || !IsSpace(r[|r| - 1])
    ensures r == [] <==> IsBlank(s)
  {
    if |s| > 0 && IsSpace(s[|s| - 1]) then TrimEnd(s[..|s| - 1]) else s
  }

  /** `s.trim()`: `s` without its leading and trailing white space; it is
      empty, the falsy value the guards test for, exactly when `s` is blank. */
  function Trim(s: string): (r: string)
    ensures |r| <= |s|
    ensures r == [] || (!IsSpace(r[0]) && !IsSpace(r[|r| - 1]))
    ensures r == [] <==> IsBlank(s)
  {
    TrimEnd(TrimStart(s))
  }

  /** `trim()` removes exactly the leading and the trailing white space: the
      result is the slice of `s` between a blank prefix and a blank suffix. */
  lemma TrimIsSlice(s: string)
    ensures exists i ::
      && 0 <= i <= |s| - |Trim(s)|
      && Trim(s) == s[i..i + |Trim(s)|]
      && IsBlank(s[..i])
      && IsBlank(s[i + |Trim(s)|..])
  {
    var t := TrimStart(s);
    var r := TrimEnd(t);
    var i := |s| - |t|;
    assert r == t[..|r|];
    assert s[i + |r|..] == t[|r|..];
    assert r == s[i..i + |r|];
  }

  /** The guard `if (s.trim())`: a string is truthy exactly when it is not
      empty, so the guard passes exactly when `s` holds a character that is
      not white space. */
  predicate HasText(s: string)
  {
    |Trim(s)| > 0
  }

  lemma HasTextIff(s: string)
    ensures HasText(s) <==> exists i :: 0 <= i < |s| && !IsSpace(s[i])
  {
    if !HasText(s) {
      assert IsBlank(s);
    }
  }
}
