/**
 * base64urlencode of utils/helpers.ts: `btoa` over the bytes (base64 with the alphabet and
 * padding of section 4 of RFC 4648), then '+' to '-', '/' to '_', and the trailing '=' removed,
 * which gives the unpadded base64url form of section 5 of RFC 4648 that section 4.1 of RFC 7636
 * asks for in a PKCE code verifier.
 */
module Base64Url {
  import opened Wrappers

  type byte = x: int | 0 <= x < 256

  /** A 6-bit group value. */
  type sextet = x: int | 0 <= x < 64

  /** The base64 alphabet of section 4 of RFC 4648 (table 1). */
  function StdChar(d: sextet): (r: char) {
    if d < 26 then ('A' as int + d) as char
    else if d < 52 then ('a' as int + (d - 26)) as char
    else if d < 62 then ('0' as int + (d - 52)) as char
    else if d == 62 then '+'
    else '/'
  }

  /** The URL- and filename-safe alphabet of section 5 of RFC 4648 (table 2). */
  function UrlChar(d: sextet): (r: char) {
    if d == 62 then '-' else if d == 63 then '_' else StdChar(d)
  }

  predicate IsUrlSafe(c: char) {
    'A' <= c <= 'Z' || 'a' <= c <= 'z' || '0' <= c <= '9' || c == '-' || c == '_'
  }

  /** The 6-bit values of one group of up to three bytes; the last one zero-filled. */
  function Sextets(bs: seq<byte>): (d: seq<sextet>)
    requires 1 <= |bs| <= 3
    ensures |d| == |bs| + 1
  {
    var b0 := bs[0];
    if |bs| == 1 then [b0 / 4, (b0 % 4) * 16]
    else
      var b1 := bs[1];
      if |bs| == 2 then [b0 / 4, (b0 % 4) * 16 + b1 / 16, (b1 % 16) * 4]
      else
        var b2 := bs[2];
        [b0 / 4, (b0 % 4) * 16 + b1 / 16, (b1 % 16) * 4 + b2 / 64, b2 % 64]
  }

  function Chars(d: seq<sextet>, alpha: sextet -> char): (r: string)
    ensures |r| == |d|
    ensures forall i :: 0 <= i < |d| ==> r[i] == alpha(d[i])
  {
    if d == [] then "" else [alpha(d[0])] + Chars(d[1..], alpha)
  }

  /** The base64 characters of bs in the given alphabet, three bytes at a time, unpadded. */
  function EncodeBody(bs: seq<byte>, alpha: sextet -> char): (r: string)
    decreases |bs|
  {
    if bs == [] then ""
    else if |bs| <= 3 then Chars(Sextets(bs), alpha)
    else Chars(Sextets(bs[..3]), alpha) + EncodeBody(bs[3..], alpha)
  }

  /** The '=' that pads the last group to four characters. */
  function Padding(n: nat): (r: string) {
    if n % 3 == 1 then "==" else if n % 3 == 2 then "=" else ""
  }

  /** `btoa(String.fromCharCode(...bytes))`: standard base64 with padding. */
  function Btoa(bs: seq<byte>): (r: string) {
    EncodeBody(bs, StdChar) + Padding(|bs|)
  }

  /** `s.replace(/x/g, y)`: every x replaced by y. */
  function ReplaceAll(s: string, x: char, y: char): (r: string)
    ensures |r| == |s|
    ensures forall i :: 0 <= i < |s| ==> r[i] == (if s[i] == x then y else s[i])
  {
    if s == [] then "" else [if s[0] == x then y else s[0]] + ReplaceAll(s[1..], x, y)
  }

  function Swap(c: char): (r: char) {
    if c == '+' then '-' else if c == '/' then '_' else c
  }

  /** `s.replace(/=+$/, '')`: the trailing run of '=' removed. */
  function StripTrailingPad(s: string): (r: string) {
    if s == [] || s[|s| - 1] != '=' then s else StripTrailingPad(s[..|s| - 1])
  }

  /** The two replacements of base64urlencode, '+' to '-' and then '/' to '_'. */
  function ToUrlAlphabet(s: string): (r: string)
    ensures |r| == |s| && forall i :: 0 <= i < |s| ==> r[i] == Swap(s[i])
  {
    ReplaceAll(ReplaceAll(s, '+', '-'), '/', '_')
  }

  /** base64urlencode. */
  function Base64UrlEncode(bs: seq<byte>): (r: string) {
    StripTrailingPad(ToUrlAlphabet(Btoa(bs)))
  }

  /** What the strip removes is a run of '=' at the end, and nothing else. */
  lemma {:induction false} StripShape(s: string)
    ensures var r := StripTrailingPad(s);
      |r| <= |s| && r == s[..|r|] && (r == [] || r[|r| - 1] != '=') &&
      forall i :: |r| <= i < |s| ==> s[i] == '='
    decreases |s|
  {
    if s != [] && s[|s| - 1] == '=' {
      StripShape(s[..|s| - 1]);
    }
  }

  // ---------------------------------------------------------------------------------------
  // From btoa to the unpadded URL-safe text.
  // ---------------------------------------------------------------------------------------

  lemma BodyLength(bs: seq<byte>, alpha: sextet -> char)
    ensures |EncodeBody(bs, alpha)| == (4 * |bs| + 2) / 3
    decreases |bs|
  {
    if |bs| > 3 {
      BodyLength(bs[3..], alpha);
    }
  }

  lemma {:induction false} BodyUrlSafe(bs: seq<byte>)
    ensures forall i :: 0 <= i < |EncodeBody(bs, UrlChar)| ==> IsUrlSafe(EncodeBody(bs, UrlChar)[i])
    decreases |bs|
  {
    if |bs| > 3 {
      BodyUrlSafe(bs[3..]);
      var g, rest := Chars(Sextets(bs[..3]), UrlChar), EncodeBody(bs[3..], UrlChar);
      assert forall i :: 0 <= i < |rest| ==> (g + rest)[|g| + i] == rest[i];
    }
  }

  lemma SwapChars(d: seq<sextet>)
    ensures ToUrlAlphabet(Chars(d, StdChar)) == Chars(d, UrlChar)
  {
  }

  lemma ToUrlAppend(s: string, t: string)
    ensures ToUrlAlphabet(s + t) == ToUrlAlphabet(s) + ToUrlAlphabet(t)
  {
    var l, r := ToUrlAlphabet(s + t), ToUrlAlphabet(s) + ToUrlAlphabet(t);
    assert forall i :: 0 <= i < |l| ==> l[i] == r[i];
  }

  /** Replacing '+' and '/' in standard base64 characters gives the URL-safe characters. */
  lemma {:induction false} SwapAlphabet(bs: seq<byte>)
    ensures ToUrlAlphabet(EncodeBody(bs, StdChar)) == EncodeBody(bs, UrlChar)
    decreases |bs|
  {
    if bs == [] {
    } else if |bs| <= 3 {
      SwapChars(Sextets(bs));
    } else {
      var g, rest := Chars(Sextets(bs[..3]), StdChar), EncodeBody(bs[3..], StdChar);
      SwapChars(Sextets(bs[..3]));
      SwapAlphabet(bs[3..]);
      ToUrlAppend(g, rest);
    }
  }

  lemma StripOnePad(s: string)
    requires s == [] || s[|s| - 1] != '='
    ensures StripTrailingPad(s + "=") == s
  {
    var t := s + "=";
    assert t[..|t| - 1] == s;
  }

  lemma StripAfterBody(body: string, n: nat)
    requires body == [] || body[|body| - 1] != '='
    ensures StripTrailingPad(body + Padding(n)) == body
  {
    if Padding(n) == "=" {
      StripOnePad(body);
    } else if Padding(n) == "==" {
      var s := body + "==";
      assert s[..|s| - 1] == body + "=";
      StripOnePad(body);
    } else {
      assert body + Padding(n) == body;
    }
  }

  /** base64urlencode is the unpadded URL-safe base64 of section 5 of RFC 4648. */
  lemma EncodeIsUnpaddedUrlBase64(bs: seq<byte>)
    ensures Base64UrlEncode(bs) == EncodeBody(bs, UrlChar)
  {
    var body, pad := EncodeBody(bs, StdChar), Padding(|bs|);
    ToUrlAppend(body, pad);
    SwapAlphabet(bs);
    assert ToUrlAlphabet(pad) == pad;
    BodyUrlSafe(bs);
    StripAfterBody(EncodeBody(bs, UrlChar), |bs|);
  }

  /**
   * The output uses only A-Z, a-z, 0-9, '-' and '_' (no '+', '/' or '='), and n bytes give
   * ceil(4n / 3) characters.
   */
  lemma EncodeShape(bs: seq<byte>)
    ensures forall i :: 0 <= i < |Base64UrlEncode(bs)| ==> IsUrlSafe(Base64UrlEncode(bs)[i])
    ensures |Base64UrlEncode(bs)| == (4 * |bs| + 2) / 3
  {
    EncodeIsUnpaddedUrlBase64(bs);
    BodyUrlSafe(bs);
    BodyLength(bs, UrlChar);
  }

  /** The 32 random bytes of generateCodeVerifier give a 43-character verifier. */
  lemma VerifierLength(bs: seq<byte>)
    requires |bs| == 32
    ensures |Base64UrlEncode(bs)| == 43
  {
    EncodeShape(bs);
  }

  // ---------------------------------------------------------------------------------------
  // The inverse: decoding unpadded base64url text.
  // ---------------------------------------------------------------------------------------

  function UrlValue(c: char): (r: Option<sextet>) {
    if 'A' <= c <= 'Z' then Some(c as int - 'A' as int)
    else if 'a' <= c <= 'z' then Some(c as int - 'a' as int + 26)
    else if '0' <= c <= '9' then Some(c as int - '0' as int + 52)
    else if c == '-' then Some(62)
    else if c == '_' then Some(63)
    else None
  }

  /** The 6-bit values of s, or None when a character is outside the URL-safe alphabet. */
  function UrlValues(s: string): (r: Option<seq<sextet>>)
    ensures r.Some? ==> |r.value| == |s|
  {
    if s == [] then Some([])
    else match (UrlValue(s[0]), UrlValues(s[1..]))
      case (Some(d), Some(ds)) => Some([d] + ds)
      case _ => None
  }

  /** The bytes that two to four 6-bit values carry. */
  function Bytes(d: seq<sextet>): (r: seq<byte>)
    requires 2 <= |d| <= 4
    ensures |r| == |d| - 1
  {
    var b0: byte := (d[0] as int) * 4 + (d[1] as int) / 16;
    if |d| == 2 then [b0]
    else
      var b1: byte := ((d[1] as int) % 16) * 16 + (d[2] as int) / 4;
      if |d| == 3 then [b0, b1] else [b0, b1, ((d[2] as int) % 4) * 64 + d[3]]
  }

  /** Decodes unpadded base64url text; a lone trailing character or a foreign one is an error. */
  function Base64UrlDecode(s: string): (r: Option<seq<byte>>)
    decreases |s|
  {
    if s == [] then Some([])
    else if |s| == 1 then None
    else
      var n := if |s| < 4 then |s| else 4;
      match (UrlValues(s[..n]), Base64UrlDecode(s[n..]))
      case (Some(d), Some(rest)) => Some(Bytes(d) + rest)
      case _ => None
  }

  lemma {:induction false} UrlValuesInverse(d: seq<sextet>)
    ensures UrlValues(Chars(d, UrlChar)) == Some(d)
  {
    if d != [] {
      UrlValuesInverse(d[1..]);
      assert Chars(d, UrlChar)[1..] == Chars(d[1..], UrlChar);
      assert [d[0]] + d[1..] == d;
    }
  }

  lemma SplitByte(h: int, l: int, m: int)
    requires m == 4 || m == 16 || m == 64
    requires 0 <= l < m
    ensures (h * m + l) / m == h && (h * m + l) % m == l
  {
  }

  /** The arithmetic of one group: packing bytes into 6-bit values and back loses nothing. */
  lemma SextetsBytes(bs: seq<byte>)
    requires 1 <= |bs| <= 3
    ensures Bytes(Sextets(bs)) == bs
  {
    var b0 := bs[0];
    if |bs| == 1 {
      SplitByte(b0 % 4, 0, 16);
    } else if |bs| == 2 {
      var b1 := bs[1];
      SplitByte(b0 % 4, b1 / 16, 16);
      SplitByte(b1 % 16, 0, 4);
    } else {
      var b1, b2 := bs[1], bs[2];
      SplitByte(b0 % 4, b1 / 16, 16);
      SplitByte(b1 % 16, b2 / 64, 4);
    }
  }

  lemma {:induction false} BodyRoundTrip(bs: seq<byte>)
    ensures Base64UrlDecode(EncodeBody(bs, UrlChar)) == Some(bs)
    decreases |bs|
  {
    if bs != [] {
      var n := if |bs| < 3 then |bs| else 3;
      var g, rest := Chars(Sextets(bs[..n]), UrlChar), EncodeBody(bs[n..], UrlChar);
      var s := EncodeBody(bs, UrlChar);
      assert s == g + rest by {
        if |bs| <= 3 {
          assert bs[..n] == bs && bs[n..] == [];
        }
      }
      UrlValuesInverse(Sextets(bs[..n]));
      SextetsBytes(bs[..n]);
      BodyRoundTrip(bs[n..]);
      assert s[..|g|] == g && s[|g|..] == rest;
      assert bs[..n] + bs[n..] == bs;
    }
  }

  /** Decoding inverts base64urlencode. */
  lemma RoundTrip(bs: seq<byte>)
    ensures Base64UrlDecode(Base64UrlEncode(bs)) == Some(bs)
  {
    EncodeIsUnpaddedUrlBase64(bs);
    BodyRoundTrip(bs);
  }
}
