/** `sanitizeText`: prepares text for a PDF font limited to Latin-1 by
    replacing every UTF-16 code unit above U+00FF with '?'. JavaScript
    strings are sequences of 16-bit code units, so a character outside the
    basic multilingual plane (a surrogate pair) becomes two '?'. */
module Sanitize {
  import opened Common

  type CodeUnit = x: int | 0 <= x < 0x1_0000

  const QuestionMark: CodeUnit := 0x3F
  const Latin1Max: CodeUnit := 0xFF

  /** Every code unit of `s` is in the Latin-1 range. */
  predicate IsLatin1(s: seq<CodeUnit>) {
    forall i :: 0 <= i < |s| ==> s[i] <= Latin1Max
  }

  /** Replaces each code unit outside U+0000..U+00FF with a question mark. */
  function ReplaceNonLatin1(s: seq<CodeUnit>): (r: seq<CodeUnit>)
    ensures |r| == |s|
    ensures IsLatin1(r)
    ensures forall i :: 0 <= i < |s| ==>
      (s[i] <= Latin1Max ==> r[i] == s[i]) && (s[i] > Latin1Max ==> r[i] == QuestionMark)
  {
    if s == [] then []
    else [if s[0] <= Latin1Max then s[0] else QuestionMark] + ReplaceNonLatin1(s[1..])
  }

  /** `sanitizeText(text)`: `null` and `undefined` give the empty string. */
  function SanitizeText(text: Option<seq<CodeUnit>>): (r: seq<CodeUnit>)
    ensures text.None? ==> r == []
    ensures text.Some? ==> |r| == |text.value|
    ensures text.Some? ==> forall i :: 0 <= i < |r| ==>
      r[i] == if text.value[i] <= Latin1Max then text.value[i] else QuestionMark
    ensures IsLatin1(r)
  {
    match text
    case None => []
    case Some(s) => ReplaceNonLatin1(s)
  }

  /** Text already in the Latin-1 range passes through unchanged. */
  lemma SanitizeKeepsLatin1(s: seq<CodeUnit>)
    requires IsLatin1(s)
    ensures SanitizeText(Some(s)) == s
  {
  }

  /** Sanitizing twice is the same as sanitizing once. */
  lemma SanitizeIdempotent(text: Option<seq<CodeUnit>>)
    ensures SanitizeText(Some(SanitizeText(text))) == SanitizeText(text)
  {
    SanitizeKeepsLatin1(SanitizeText(text));
  }
}
