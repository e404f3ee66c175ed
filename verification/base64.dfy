// Base64 as the level codes use it (apps/web/src/lib/level-code.js): the padded
// encoding of RFC 4648 section 4 that btoa produces, the character substitutions
// that turn it into the URL-safe form of RFC 4648 section 5 without padding, and
// the forgiving-base64 decoder of the WHATWG HTML standard that atob runs.
module Base64 {
  import opened Results

  predicate IsBytes(bs: seq<nat>) { forall i :: 0 <= i < |bs| ==> bs[i] < 256 }

  /** A character of the standard alphabet (RFC 4648 section 4, Table 1). */
  predicate IsStdChar(c: char) {
    ('A' <= c <= 'Z') || ('a' <= c <= 'z') || ('0' <= c <= '9') || c == '+' || c == '/'
  }

  predicate AllStd(s: string) { forall k :: 0 <= k < |s| ==> IsStdChar(s[k]) }

  /** The character encoding the 6-bit value v. */
  function StdChar(v: nat): (c: char)
    requires v < 64
    ensures IsStdChar(c) && StdValue(c) == v
  {
    if v < 26 then ('A' as int + v) as char
    else if v < 52 then ('a' as int + (v - 26)) as char
    else if v < 62 then ('0' as int + (v - 52)) as char
    else if v == 62 then '+'
    else '/'
  }

  /** The 6-bit value of a character of the alphabet. */
  function StdValue(c: char): (v: nat)
    requires IsStdChar(c)
    ensures v < 64
  {
    if 'A' <= c <= 'Z' then (c as int) - ('A' as int)
    else if 'a' <= c <= 'z' then (c as int) - ('a' as int) + 26
    else if '0' <= c <= '9' then (c as int) - ('0' as int) + 52
    else if c == '+' then 62
    else 63
  }

  // ---------------------------------------------------------------------
  // Encoding

  /** The four characters of a full 24-bit group. */
  function Quad(b0: nat, b1: nat, b2: nat): (s: string)
    requires b0 < 256 && b1 < 256 && b2 < 256
    ensures |s| == 4 && AllStd(s)
  {
    [StdChar(b0 / 4), StdChar((b0 % 4) * 16 + b1 / 16), StdChar((b1 % 16) * 4 + b2 / 64), StdChar(b2 % 64)]
  }

  /** The characters of the final group of one or two bytes, before padding. */
  function Tail(bs: seq<nat>): (s: string)
    requires IsBytes(bs) && 1 <= |bs| <= 2
    ensures |s| == |bs| + 1 && AllStd(s)
  {
    if |bs| == 1 then [StdChar(bs[0] / 4), StdChar((bs[0] % 4) * 16)]
    else [StdChar(bs[0] / 4), StdChar((bs[0] % 4) * 16 + bs[1] / 16), StdChar((bs[1] % 16) * 4)]
  }

  /** The encoding without its padding: four characters per three bytes and two or
      three for a final group of one or two. */
  function Unpadded(bs: seq<nat>): (s: string)
    requires IsBytes(bs)
    ensures AllStd(s) && |s| % 4 != 1
    ensures |s| % 4 == (if |bs| % 3 == 0 then 0 else |bs| % 3 + 1)
    decreases |bs|
  {
    if |bs| == 0 then ""
    else if |bs| < 3 then Tail(bs)
    else
      var rest := Unpadded(bs[3..]);
      ShiftMod(|rest|, |bs| - 3);
      Quad(bs[0], bs[1], bs[2]) + rest
  }

  /** Adding a whole group moves neither residue. */
  lemma ShiftMod(m: nat, n: nat)
    ensures (m + 4) % 4 == m % 4 && (n + 3) % 3 == n % 3
  {
  }

  /** Four characters per three bytes, and two or three for a final group of one
      or two. */
  lemma {:induction false} UnpaddedLength(bs: seq<nat>)
    requires IsBytes(bs)
    ensures |Unpadded(bs)| == 4 * (|bs| / 3) + (if |bs| % 3 == 0 then 0 else |bs| % 3 + 1)
    decreases |bs|
  {
    if |bs| >= 3 {
      UnpaddedLength(bs[3..]);
      assert |bs| / 3 == |bs[3..]| / 3 + 1;
    }
  }

  /** The '=' characters that complete the final quantum. */
  function Padding(n: nat): (p: string)
    ensures |p| == (3 - n % 3) % 3
    ensures forall k :: 0 <= k < |p| ==> p[k] == '='
  {
    if n % 3 == 1 then "==" else if n % 3 == 2 then "=" else ""
  }

  /** btoa and Buffer's 'base64' output: RFC 4648 section 4 with padding. */
  function Encode(bs: seq<nat>): (s: string)
    requires IsBytes(bs)
    ensures |s| % 4 == 0
  {
    var u := Unpadded(bs);
    PaddedLength(|u|, |bs|);
    u + Padding(|bs|)
  }

  /** The padding fills the last quantum of the unpadded characters. */
  lemma PaddedLength(m: nat, n: nat)
    requires m % 4 == (if n % 3 == 0 then 0 else n % 3 + 1)
    ensures (m + (3 - n % 3) % 3) % 4 == 0
  {
  }

  // ---------------------------------------------------------------------
  // Character substitutions

  /** String.prototype.replaceAll with a one-character pattern and replacement. */
  function ReplaceAll(s: string, a: char, b: char): (r: string)
    ensures |r| == |s|
    ensures forall k :: 0 <= k < |s| ==> r[k] == if s[k] == a then b else s[k]
  {
    seq(|s|, k requires 0 <= k < |s| => if s[k] == a then b else s[k])
  }

  /** replaceAll(c, ''): s with every c deleted. */
  function RemoveAll(s: string, c: char): (r: string)
    ensures |r| <= |s|
    ensures forall k :: 0 <= k < |r| ==> r[k] != c
  {
    if |s| == 0 then ""
    else (if s[0] == c then "" else [s[0]]) + RemoveAll(s[1..], c)
  }

  lemma {:induction false} RemoveAllAbsent(s: string, c: char)
    requires forall k :: 0 <= k < |s| ==> s[k] != c
    ensures RemoveAll(s, c) == s
  {
    if |s| > 0 {
      RemoveAllAbsent(s[1..], c);
    }
  }

  lemma {:induction false} RemoveAllAppend(s: string, t: string, c: char)
    ensures RemoveAll(s + t, c) == RemoveAll(s, c) + RemoveAll(t, c)
  {
    if |s| > 0 {
      assert (s + t)[1..] == s[1..] + t;
      RemoveAllAppend(s[1..], t, c);
    } else {
      assert s + t == t;
    }
  }

  lemma {:induction false} RemoveAllOnly(s: string, c: char)
    requires forall k :: 0 <= k < |s| ==> s[k] == c
    ensures RemoveAll(s, c) == ""
  {
    if |s| > 0 {
      RemoveAllOnly(s[1..], c);
    }
  }

  /** bytesToBase64Url: the padded encoding with '+' and '/' replaced by the
      URL-safe '-' and '_' and the padding removed. */
  function ToUrl(bs: seq<nat>): (s: string)
    requires IsBytes(bs)
  {
    RemoveAll(ReplaceAll(ReplaceAll(Encode(bs), '+', '-'), '/', '_'), '=')
  }

  /** The URL-safe alphabet of RFC 4648 section 5. */
  predicate IsUrlChar(c: char) {
    ('A' <= c <= 'Z') || ('a' <= c <= 'z') || ('0' <= c <= '9') || c == '-' || c == '_'
  }

  /** The URL form is the unpadded encoding over the URL-safe alphabet. */
  lemma ToUrlShape(bs: seq<nat>)
    requires IsBytes(bs)
    ensures ToUrl(bs) == ReplaceAll(ReplaceAll(Unpadded(bs), '+', '-'), '/', '_')
    ensures forall k :: 0 <= k < |ToUrl(bs)| ==> IsUrlChar(ToUrl(bs)[k])
  {
    var u, p := Unpadded(bs), Padding(|bs|);
    var mapped := ReplaceAll(ReplaceAll(u, '+', '-'), '/', '_');
    assert ReplaceAll(ReplaceAll(u + p, '+', '-'), '/', '_') == mapped + p;
    RemoveAllAppend(mapped, p, '=');
    RemoveAllAbsent(mapped, '=');
    RemoveAllOnly(p, '=');
    assert mapped + "" == mapped;
  }

  /** Mapping the URL-safe characters back restores the standard alphabet. */
  lemma FromUrlOfToUrl(bs: seq<nat>)
    requires IsBytes(bs)
    ensures ReplaceAll(ReplaceAll(ToUrl(bs), '-', '+'), '_', '/') == Unpadded(bs)
  {
    ToUrlShape(bs);
  }

  // ---------------------------------------------------------------------
  // Decoding

  /** ASCII whitespace of the WHATWG Infra standard: TAB, LF, FF, CR and SPACE. */
  predicate IsAsciiSpace(c: char) {
    c == '\U{0009}' || c == '\n' || c == '\U{000C}' || c == '\r' || c == ' '
  }

  function RemoveAsciiSpace(s: string): (r: string)
    ensures |r| <= |s|
    ensures forall k :: 0 <= k < |r| ==> !IsAsciiSpace(r[k])
  {
    if |s| == 0 then ""
    else (if IsAsciiSpace(s[0]) then "" else [s[0]]) + RemoveAsciiSpace(s[1..])
  }

  lemma {:induction false} RemoveAsciiSpaceAbsent(s: string)
    requires forall k :: 0 <= k < |s| ==> !IsAsciiSpace(s[k])
    ensures RemoveAsciiSpace(s) == s
  {
    if |s| > 0 {
      RemoveAsciiSpaceAbsent(s[1..]);
    }
  }

  predicate EndsWith(s: string, suffix: string) {
    |suffix| <= |s| && s[|s| - |suffix|..] == suffix
  }

  /** The bytes of a run of alphabet characters whose length is not 1 modulo 4;
      the bits left over after the last whole byte are discarded. */
  function DecodeChars(s: string): (bs: seq<nat>)
    requires AllStd(s) && |s| % 4 != 1
    ensures IsBytes(bs)
    decreases |s|
  {
    if |s| < 2 then []
    else
      var v0, v1 := StdValue(s[0]), StdValue(s[1]);
      if |s| == 2 then [v0 * 4 + v1 / 16]
      else
        var v2 := StdValue(s[2]);
        if |s| == 3 then [v0 * 4 + v1 / 16, (v1 % 16) * 16 + v2 / 4]
        else
          ShiftMod(|s| - 4, 0);
          [v0 * 4 + v1 / 16, (v1 % 16) * 16 + v2 / 4, (v2 % 4) * 64 + StdValue(s[3])] + DecodeChars(s[4..])
  }

  /** The forgiving decoder drops one or two trailing '=' from a whole number of
      quanta. */
  function StripPadding(t: string): string {
    if |t| % 4 == 0 && EndsWith(t, "==") then t[..|t| - 2]
    else if |t| % 4 == 0 && EndsWith(t, "=") then t[..|t| - 1]
    else t
  }

  /** atob: the forgiving-base64 decode of the WHATWG HTML standard. None is the
      InvalidCharacterError it throws. */
  function Atob(s: string): (r: Option<seq<nat>>)
    ensures r.Some? ==> IsBytes(r.value)
  {
    var u := StripPadding(RemoveAsciiSpace(s));
    if |u| % 4 == 1 || !AllStd(u) then None
    else Some(DecodeChars(u))
  }

  /** A value split at a multiple of 16 comes apart again. */
  lemma Split16(hi: nat, lo: nat)
    requires lo < 16
    ensures (hi * 16 + lo) / 16 == hi && (hi * 16 + lo) % 16 == lo
  {
  }

  lemma Split4(hi: nat, lo: nat)
    requires lo < 4
    ensures (hi * 4 + lo) / 4 == hi && (hi * 4 + lo) % 4 == lo
  {
  }

  /** The 6-bit values of a group put the three bytes back together. */
  lemma GroupValues(b0: nat, b1: nat, b2: nat)
    requires b0 < 256 && b1 < 256 && b2 < 256
    ensures var v0, v1, v2, v3 := b0 / 4, (b0 % 4) * 16 + b1 / 16, (b1 % 16) * 4 + b2 / 64, b2 % 64;
      v0 * 4 + v1 / 16 == b0 && (v1 % 16) * 16 + v2 / 4 == b1 && (v2 % 4) * 64 + v3 == b2
  {
    Split16(b0 % 4, b1 / 16);
    Split4(b1 % 16, b2 / 64);
  }

  /** Four alphabet characters decode to the bytes their values spell. */
  lemma DecodeFour(q: string)
    requires |q| == 4 && AllStd(q)
    ensures var v0, v1, v2, v3 := StdValue(q[0]), StdValue(q[1]), StdValue(q[2]), StdValue(q[3]);
      DecodeChars(q) == [v0 * 4 + v1 / 16, (v1 % 16) * 16 + v2 / 4, (v2 % 4) * 64 + v3]
  {
    assert DecodeChars(q[4..]) == [];
  }

  /** The three bytes of a group decode back from its four characters. */
  lemma QuadRoundTrip(b0: nat, b1: nat, b2: nat)
    requires b0 < 256 && b1 < 256 && b2 < 256
    ensures DecodeChars(Quad(b0, b1, b2)) == [b0, b1, b2]
  {
    DecodeFour(Quad(b0, b1, b2));
    GroupValues(b0, b1, b2);
  }

  lemma TailRoundTrip(bs: seq<nat>)
    requires IsBytes(bs) && 1 <= |bs| <= 2
    ensures DecodeChars(Tail(bs)) == bs
  {
    if |bs| == 1 {
      Split16(bs[0] % 4, 0);
    } else {
      Split16(bs[0] % 4, bs[1] / 16);
      Split4(bs[1] % 16, 0);
    }
  }

  /** A whole group decodes on its own, ahead of the rest. */
  lemma DecodeGroup(q: string, rest: string)
    requires |q| == 4 && AllStd(q) && AllStd(rest) && |rest| % 4 != 1
    ensures AllStd(q + rest) && |q + rest| % 4 != 1
    ensures DecodeChars(q + rest) == DecodeChars(q) + DecodeChars(rest)
  {
    var s := q + rest;
    assert s[4..] == rest;
    assert q[4..] == "";
    assert s[..4] == q;
  }

  /** Decoding the unpadded characters gives the bytes back. */
  lemma {:induction false} UnpaddedRoundTrip(bs: seq<nat>)
    requires IsBytes(bs)
    ensures DecodeChars(Unpadded(bs)) == bs
    decreases |bs|
  {
    if |bs| == 0 {
    } else if |bs| < 3 {
      TailRoundTrip(bs);
    } else {
      var q, rest := Quad(bs[0], bs[1], bs[2]), Unpadded(bs[3..]);
      UnpaddedRoundTrip(bs[3..]);
      QuadRoundTrip(bs[0], bs[1], bs[2]);
      DecodeGroup(q, rest);
      assert bs == [bs[0], bs[1], bs[2]] + bs[3..];
    }
  }

  /** Alphabet characters followed by the padding that completes their last
      quantum lose exactly that padding. */
  lemma StripPadded(u: string, n: nat)
    requires AllStd(u) && |u| % 4 == (if n % 3 == 0 then 0 else n % 3 + 1)
    ensures StripPadding(u + Padding(n)) == u
  {
    var p := Padding(n);
    var t := u + p;
    if n % 3 == 0 {
      assert t == u;
      assert |u| > 0 ==> IsStdChar(u[|u| - 1]);
    } else if n % 3 == 1 {
      assert t[|t| - 2..] == "==";
      assert t[..|t| - 2] == u;
    } else {
      assert IsStdChar(u[|u| - 1]);
      assert t[|t| - 2] == u[|u| - 1];
      assert t[..|t| - 1] == u;
    }
  }

  /** atob strips exactly the padding Encode added. */
  lemma PaddingStripped(bs: seq<nat>)
    requires IsBytes(bs)
    ensures StripPadding(Encode(bs)) == Unpadded(bs)
  {
    StripPadded(Unpadded(bs), |bs|);
  }

  /** atob undoes btoa. */
  lemma AtobEncode(bs: seq<nat>)
    requires IsBytes(bs)
    ensures Atob(Encode(bs)) == Some(bs)
  {
    var t := Encode(bs);
    forall k | 0 <= k < |t| ensures !IsAsciiSpace(t[k]) {
      if k < |Unpadded(bs)| {
        assert t[k] == Unpadded(bs)[k];
      } else {
        assert t[k] == Padding(|bs|)[k - |Unpadded(bs)|];
      }
    }
    RemoveAsciiSpaceAbsent(t);
    PaddingStripped(bs);
    UnpaddedRoundTrip(bs);
  }
}
