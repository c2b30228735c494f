/** The two JavaScript string operations the form builder relies on:
    `String.prototype.trim` and `String.prototype.includes`. */
module JsString {

  /** The ECMAScript WhiteSpace and LineTerminator code points, the set `trim` strips. */
  predicate IsWhitespace(c: char) {
    || c == '\t' || c == '\U{000B}' || c == '\U{000C}' || c == ' ' || c == '\U{00A0}' || c == '\U{FEFF}'
    || c == '\n' || c == '\r' || c == '\U{2028}' || c == '\U{2029}'
    || c == '\U{1680}' || ('\U{2000}' <= c <= '\U{200A}') || c == '\U{202F}' || c == '\U{205F}' || c == '\U{3000}'
  }

  /** Every character of `s` is whitespace (vacuously true of ""). */
  predicate IsBlank(s: string) {
    forall i :: 0 <= i < |s| ==> IsWhitespace(s[i])
  }

  /** Length of the longest all-whitespace prefix of `s`. */
  function LeadingWhitespace(s: string): (k: nat)
    ensures k <= |s|
    ensures forall i :: 0 <= i < k ==> IsWhitespace(s[i])
    ensures k == |s| || !IsWhitespace(s[k])
  {
    if |s| == 0 || !IsWhitespace(s[0]) then 0
    else 1 + LeadingWhitespace(s[1..])
  }

  /** Length of the longest all-whitespace suffix of `s`. */
  function TrailingWhitespace(s: string): (k: nat)
    ensures k <= |s|
    ensures forall i :: |s| - k <= i < |s| ==> IsWhitespace(s[i])
    ensures k == |s| || !IsWhitespace(s[|s| - k - 1])
  {
    if |s| == 0 || !IsWhitespace(s[|s| - 1]) then 0
    else 1 + TrailingWhitespace(s[..|s| - 1])
  }

  /** `s.trim()`: `s` without its leading and trailing whitespace. */
  function Trim(s: string): (r: string)
    ensures |r| <= |s|
    ensures r == [] || (!IsWhitespace(r[0]) && !IsWhitespace(r[|r| - 1]))
    ensures exists a, b :: 0 <= a <= b <= |s| && r == s[a..b] && IsBlank(s[..a]) && IsBlank(s[b..])
  {
    var k := LeadingWhitespace(s);
    var t := TrailingWhitespace(s[k..]);
    TrimSlices(s, k, t);
    s[k..|s| - t]
  }

  /** The pieces `Trim` cuts: a blank prefix, a blank suffix, and between
      them a text without whitespace at either end. */
  lemma TrimSlices(s: string, k: nat, t: nat)
    requires k == LeadingWhitespace(s) && t == TrailingWhitespace(s[k..])
    ensures k <= |s| - t
    ensures IsBlank(s[..k]) && IsBlank(s[|s| - t..])
    ensures s[k..|s| - t] == s[k..][..|s| - k - t]
  {
    var a := s[k..];
    assert |a| == |s| - k;
    BlankPrefix(s, k);
    BlankSuffixOfSuffix(s, k, t);
  }

  /** The whitespace prefix `LeadingWhitespace` measures is blank. */
  lemma BlankPrefix(s: string, k: nat)
    requires k == LeadingWhitespace(s)
    ensures IsBlank(s[..k])
  {
    var pre := s[..k];
    forall i | 0 <= i < |pre|
      ensures IsWhitespace(pre[i])
    {
      assert pre[i] == s[i];
    }
  }

  /** A blank suffix of `s[k..]` is a blank suffix of `s`. */
  lemma BlankSuffixOfSuffix(s: string, k: nat, t: nat)
    requires k <= |s| && t == TrailingWhitespace(s[k..])
    ensures IsBlank(s[|s| - t..])
  {
    var a := s[k..];
    var suf := s[|s| - t..];
    forall i | 0 <= i < |suf|
      ensures IsWhitespace(suf[i])
    {
      assert suf[i] == a[|a| - t + i];
    }
  }

  /** A string trims to "" exactly when it consists of whitespace only. */
  lemma TrimEmptyIffBlank(s: string)
    ensures Trim(s) == "" <==> IsBlank(s)
  {
    var k := LeadingWhitespace(s);
    var a := s[k..];
    if IsBlank(s) {
      assert k == |s|;
    }
    if Trim(s) == "" {
      assert TrailingWhitespace(a) == |a|;
      assert k == |s|;
    }
  }

  /** `sub` occurs in `s` starting at index `i`. */
  predicate OccursAt(s: string, sub: string, i: nat) {
    i + |sub| <= |s| && s[i..i + |sub|] == sub
  }

  /** An occurrence in `s[1..]` is an occurrence in `s` one position later, and back. */
  lemma OccursShift(s: string, sub: string)
    requires |s| > 0
    ensures forall i: nat :: OccursAt(s[1..], sub, i) <==> OccursAt(s, sub, i + 1)
  {
    forall i: nat | OccursAt(s, sub, i + 1)
      ensures OccursAt(s[1..], sub, i)
    {
      assert s[1..][i..i + |sub|] == s[i + 1..i + 1 + |sub|];
    }
  }

  /** `s.includes(sub)`: `sub` occurs somewhere in `s`. */
  function Includes(s: string, sub: string): (r: bool)
    ensures r <==> exists i: nat :: OccursAt(s, sub, i)
    decreases |s|
  {
    if OccursAt(s, sub, 0) then true
    else if |s| == 0 then false
    else
      OccursShift(s, sub);
      var r := Includes(s[1..], sub);
      assert forall i: nat :: OccursAt(s, sub, i) ==> i == 0 || OccursAt(s[1..], sub, i - 1);
      r
  }
}
