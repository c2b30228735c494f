/** Byte-to-text encodings used for the PKCE values: the padded base64 of
    section 4 of RFC 4648 (what a byte buffer's `toString('base64')` yields),
    the per-character rewrite `base64URLEncode` applies to it, which gives the
    unpadded base64url alphabet of section 5 of RFC 4648, and the lower-case
    hex used for the `state` token. */
module Encoding {

  type Byte = x: int | 0 <= x < 256

  /** Characters of the standard base64 alphabet (section 4 of RFC 4648), without '='. */
  predicate IsStdChar(c: char) {
    ('A' <= c <= 'Z') || ('a' <= c <= 'z') || ('0' <= c <= '9') || c == '+' || c == '/'
  }

  /** Characters of the base64url alphabet (section 5 of RFC 4648). */
  predicate IsUrlChar(c: char) {
    ('A' <= c <= 'Z') || ('a' <= c <= 'z') || ('0' <= c <= '9') || c == '-' || c == '_'
  }

  /** The standard base64 digit of value `v`. */
  function StdDigit(v: int): (c: char)
    requires 0 <= v < 64
    ensures IsStdChar(c)
  {
    if v < 26 then ('A' as int + v) as char
    else if v < 52 then ('a' as int + (v - 26)) as char
    else if v < 62 then ('0' as int + (v - 52)) as char
    else if v == 62 then '+'
    else '/'
  }

  /** Number of '=' a padded encoding of `n` bytes ends with. */
  function PadCount(n: nat): nat {
    (3 - n % 3) % 3
  }

  /** Padded standard base64 of `b`, three bytes to four characters. */
  function Base64Std(b: seq<Byte>): (r: string)
    ensures |r| == (|b| + 2) / 3 * 4
    ensures forall i :: 0 <= i < |r| - PadCount(|b|) ==> IsStdChar(r[i])
    ensures forall i :: |r| - PadCount(|b|) <= i < |r| ==> r[i] == '='
    decreases |b|
  {
    if |b| == 0 then ""
    else if |b| == 1 then
      [StdDigit(b[0] / 4), StdDigit(b[0] % 4 * 16)] + "=="
    else if |b| == 2 then
      [StdDigit(b[0] / 4), StdDigit(b[0] % 4 * 16 + b[1] / 16), StdDigit(b[1] % 16 * 4)] + "="
    else
      var group := [StdDigit(b[0] / 4), StdDigit(b[0] % 4 * 16 + b[1] / 16),
                    StdDigit(b[1] % 16 * 4 + b[2] / 64), StdDigit(b[2] % 64)];
      var rest := Base64Std(b[3..]);
      assert PadCount(|b|) == PadCount(|b| - 3);
      assert (|b| + 2) / 3 * 4 == 4 + (|b| - 3 + 2) / 3 * 4;
      group + rest
  }

  /** Number of occurrences of `c` in `s`. */
  function Count(s: string, c: char): (n: nat)
    ensures n <= |s|
  {
    if s == [] then 0 else (if s[0] == c then 1 else 0) + Count(s[1..], c)
  }

  /** The image of one character under `base64URLEncode`'s rewrite. */
  function RewriteChar(c: char): string {
    if c == '+' then "-" else if c == '/' then "_" else if c == '=' then "" else [c]
  }

  /** `base64URLEncode` on a base64 text: '+' to '-', '/' to '_', '=' dropped. */
  function UrlRewrite(s: string): (r: string)
    ensures |r| == |s| - Count(s, '=')
    ensures forall i :: 0 <= i < |r| ==> r[i] != '+' && r[i] != '/' && r[i] != '='
  {
    if s == [] then "" else RewriteChar(s[0]) + UrlRewrite(s[1..])
  }

  /** The rewrite works character by character: it distributes over concatenation. */
  lemma {:induction false} UrlRewriteAppend(a: string, b: string)
    ensures UrlRewrite(a + b) == UrlRewrite(a) + UrlRewrite(b)
  {
    if a != [] {
      assert (a + b)[0] == a[0];
      assert (a + b)[1..] == a[1..] + b;
      UrlRewriteAppend(a[1..], b);
    } else {
      assert a + b == b;
    }
  }

  /** The character a base64url character stands for in the standard alphabet. */
  function UnswapChar(c: char): char {
    if c == '-' then '+' else if c == '_' then '/' else c
  }

  /** `n` padding characters. */
  function Padding(n: nat): (s: string)
    ensures |s| == n && forall i :: 0 <= i < n ==> s[i] == '='
  {
    seq(n, _ => '=')
  }

  /** Maps the two url-safe characters of `u` back to the standard alphabet. */
  function Unswap(u: string): (s: string)
    ensures |s| == |u| && forall i :: 0 <= i < |u| ==> s[i] == UnswapChar(u[i])
  {
    seq(|u|, i requires 0 <= i < |u| => UnswapChar(u[i]))
  }

  /** Undoes `UrlRewrite` on the output of `Base64Std`: maps the two url-safe
      characters back and restores the padding. */
  function RestorePadding(u: string): (s: string)
    ensures |s| % 4 == 0 || |u| % 4 == 1
  {
    Unswap(u) + Padding(MissingPad(|u|))
  }

  /** Number of '=' that bring a text of length `n` to a multiple of four. */
  function MissingPad(n: nat): nat {
    (4 - n % 4) % 4
  }

  /** On a text of standard-alphabet characters the rewrite only swaps '+' and
      '/', and `UnswapChar` undoes that. */
  lemma {:induction false} UrlRewriteOfStdChars(s: string)
    requires forall i :: 0 <= i < |s| ==> IsStdChar(s[i])
    ensures |UrlRewrite(s)| == |s|
    ensures forall i :: 0 <= i < |s| ==> IsUrlChar(UrlRewrite(s)[i]) && UnswapChar(UrlRewrite(s)[i]) == s[i]
  {
    if s != [] {
      UrlRewriteOfStdChars(s[1..]);
      assert UrlRewrite(s) == RewriteChar(s[0]) + UrlRewrite(s[1..]);
      assert |RewriteChar(s[0])| == 1;
    }
  }

  /** The unpadded part of the standard encoding of `b`. */
  function StdBody(b: seq<Byte>): (body: string)
    ensures |body| == (4 * |b| + 2) / 3
    ensures forall i :: 0 <= i < |body| ==> IsStdChar(body[i])
    ensures Base64Std(b) == body + Padding(PadCount(|b|))
  {
    var s := Base64Std(b);
    var p := PadCount(|b|);
    LengthArithmetic(|b|);
    assert s == s[..|s| - p] + s[|s| - p..];
    assert s[|s| - p..] == Padding(p);
    s[..|s| - p]
  }

  /** The rewrite of the standard encoding is the rewrite of its unpadded part. */
  lemma UrlRewriteDropsPadding(b: seq<Byte>)
    ensures UrlRewrite(Base64Std(b)) == UrlRewrite(StdBody(b))
  {
    var body := StdBody(b);
    var pad := Padding(PadCount(|b|));
    UrlRewriteAppend(body, pad);
    PaddingRewritesToEmpty(pad);
    assert UrlRewrite(body) + "" == UrlRewrite(body);
  }

  /** `base64URLEncode(buffer)`: the base64url text of `b` without padding. */
  function Base64Url(b: seq<Byte>): (r: string)
    ensures |r| == (4 * |b| + 2) / 3
    ensures forall i :: 0 <= i < |r| ==> IsUrlChar(r[i])
  {
    UrlRewriteDropsPadding(b);
    UrlRewriteOfStdChars(StdBody(b));
    UrlRewrite(Base64Std(b))
  }

  /** A run of '=' vanishes under the rewrite. */
  lemma {:induction false} PaddingRewritesToEmpty(s: string)
    requires forall i :: 0 <= i < |s| ==> s[i] == '='
    ensures UrlRewrite(s) == ""
  {
    if s != [] {
      PaddingRewritesToEmpty(s[1..]);
    }
  }

  /** For `RestoreInvertsUrlRewrite`: re-padding the (4n+2)/3 characters of
      a base64url encoding of n bytes adds back exactly the '=' the standard
      encoding had. */
  lemma PadArithmetic(n: nat)
    ensures MissingPad((4 * n + 2) / 3) == PadCount(n)
  {
    var k, m := n / 3, n % 3;
    assert n == 3 * k + m;
    assert 4 * n + 2 == 3 * (4 * k) + (4 * m + 2);
    assert (4 * n + 2) / 3 == 4 * k + (4 * m + 2) / 3;
  }

  /** For `StdBody`: the padded length of n bytes less the padding is
      (4n+2)/3, the length `Base64Url` promises. */
  lemma LengthArithmetic(n: nat)
    ensures (n + 2) / 3 * 4 - PadCount(n) == (4 * n + 2) / 3
  {
    var k := n / 3;
    assert n == 3 * k + n % 3;
  }

  /** Restoring the padding of a base64url encoding gives the standard
      encoding back: the rewrite loses no information. */
  lemma RestoreInvertsUrlRewrite(b: seq<Byte>)
    ensures RestorePadding(Base64Url(b)) == Base64Std(b)
  {
    UrlRewriteDropsPadding(b);
    PadArithmetic(|b|);
    RestoreOfRewrittenBody(StdBody(b), PadCount(|b|));
  }

  /** Restoring a rewritten run of standard characters gives it back, followed
      by the padding its length calls for. */
  lemma RestoreOfRewrittenBody(body: string, p: nat)
    requires forall i :: 0 <= i < |body| ==> IsStdChar(body[i])
    requires MissingPad(|body|) == p
    ensures RestorePadding(UrlRewrite(body)) == body + Padding(p)
  {
    UnswapUndoesRewrite(body);
  }

  /** `Unswap` is a left inverse of the rewrite on standard-alphabet text. */
  lemma UnswapUndoesRewrite(body: string)
    requires forall i :: 0 <= i < |body| ==> IsStdChar(body[i])
    ensures |UrlRewrite(body)| == |body|
    ensures Unswap(UrlRewrite(body)) == body
  {
    UrlRewriteOfStdChars(body);
    var v := Unswap(UrlRewrite(body));
    assert forall i :: 0 <= i < |body| ==> v[i] == body[i];
  }

  /** The `unreserved` characters a PKCE code verifier may use (section 4.1 of RFC 7636). */
  predicate IsUnreserved(c: char) {
    ('A' <= c <= 'Z') || ('a' <= c <= 'z') || ('0' <= c <= '9') || c == '-' || c == '.' || c == '_' || c == '~'
  }

  /** A well-formed PKCE code verifier: 43 to 128 unreserved characters. */
  predicate ValidCodeVerifier(v: string) {
    43 <= |v| <= 128 && forall i :: 0 <= i < |v| ==> IsUnreserved(v[i])
  }

  /** Encoding 32 random bytes, as the login start does, yields a well-formed
      verifier of exactly 43 characters. */
  lemma Base64UrlOf32BytesIsVerifier(b: seq<Byte>)
    requires |b| == 32
    ensures |Base64Url(b)| == 43
    ensures ValidCodeVerifier(Base64Url(b))
  {
  }

  /** The lower-case hex digit of value `v`. */
  function HexDigit(v: int): (c: char)
    requires 0 <= v < 16
    ensures ('0' <= c <= '9') || ('a' <= c <= 'f')
  {
    if v < 10 then ('0' as int + v) as char else ('a' as int + (v - 10)) as char
  }

  /** The value of a lower-case hex digit. */
  function HexValue(c: char): int {
    if '0' <= c <= '9' then c as int - '0' as int else c as int - 'a' as int + 10
  }

  /** A byte buffer's `toString('hex')`: two lower-case hex digits per byte. */
  function Hex(b: seq<Byte>): (r: string)
    ensures |r| == 2 * |b|
    ensures forall i :: 0 <= i < |r| ==> ('0' <= r[i] <= '9') || ('a' <= r[i] <= 'f')
  {
    if b == [] then "" else [HexDigit(b[0] / 16), HexDigit(b[0] % 16)] + Hex(b[1..])
  }

  /** Each byte can be read back from its two hex digits. */
  lemma {:induction false} HexDecodes(b: seq<Byte>)
    ensures forall k :: 0 <= k < |b| ==> b[k] == 16 * HexValue(Hex(b)[2 * k]) + HexValue(Hex(b)[2 * k + 1])
  {
    if b != [] {
      HexDecodes(b[1..]);
      var r := Hex(b);
      assert r[2..] == Hex(b[1..]);
      forall k | 1 <= k < |b|
        ensures b[k] == 16 * HexValue(r[2 * k]) + HexValue(r[2 * k + 1])
      {
        assert b[k] == b[1..][k - 1];
        assert r[2 * k] == r[2..][2 * (k - 1)];
        assert r[2 * k + 1] == r[2..][2 * (k - 1) + 1];
      }
    }
  }

  /** Distinct byte strings give distinct hex texts. */
  lemma HexInjective(a: seq<Byte>, b: seq<Byte>)
    requires Hex(a) == Hex(b)
    ensures a == b
  {
    HexDecodes(a);
    HexDecodes(b);
  }
}
