/** The base64url encoder page (encoder/js/app.js): input validation, the
    codec built from `btoa`/`atob` (base64 of section 4 of RFC 4648) with the
    alphabet remapped to the URL-safe one of section 5 and the padding
    stripped, and the small most-recent-first input history with its
    keyboard cursor. The UTF-16 to UTF-8 bridge around the codec
    (`encodeURIComponent`/`unescape` and `escape`/`decodeURIComponent`) is a
    boundary: the codec works on bytes. */
module Encoder {
  import opened Text
  import opened Wrappers

  type byte = x: int | 0 <= x < 256

  const MaxInputLength := 10000
  const MaxHistory := 10

  const InvalidTextMessage := "Please enter valid text (1-10000 characters)."
  const InvalidDecodeInputMessage := "Please enter valid Base64URL text."
  const InvalidFormatMessage := "Invalid Base64URL format. Use only A-Z, a-z, 0-9, -, and _"
  /** `atob` throws an `InvalidCharacterError` DOMException; its wording is the browser's. */
  const InvalidCharacterError := "InvalidCharacterError"
  const DecodeFailedPrefix := "Decoding failed: "

  // ---------------------------------------------------------------------
  // validation

  /** `isValidInput`: non-blank and shorter than the input cap, which counts
      UTF-16 code units. */
  function IsValidInput(text: string): (r: bool)
    ensures r ==> 0 < |text| && Utf16Length(text) < MaxInputLength
    ensures r ==> |text| < MaxInputLength
  {
    Utf16LengthBounds(text);
    text != [] && Trim(text) != [] && Utf16Length(text) < MaxInputLength
  }

  /** The handlers validate the trimmed input, so validity is a length window on it. */
  lemma ValidTrimmedInput(text: string)
    ensures IsValidInput(Trim(text)) <==> 0 < |Trim(text)| && Utf16Length(Trim(text)) < MaxInputLength
  {
    TrimIsIdempotent(text);
  }

  /** The character class `[-A-Za-z0-9_]`. */
  predicate IsUrlChar(c: char)
  {
    c == '-' || IsAsciiLetter(c) || IsAsciiDigit(c) || c == '_'
  }

  /** `isValidBase64URL`: the pattern `^[-A-Za-z0-9_]*$`, matched from the left. */
  function IsValidBase64Url(text: string): (r: bool)
    ensures r <==> forall i :: 0 <= i < |text| ==> IsUrlChar(text[i])
  {
    if text == [] then true
    else IsUrlChar(text[0]) && IsValidBase64Url(text[1..])
  }

  // ---------------------------------------------------------------------
  // the standard alphabet (Table 1 of RFC 4648): A-Z, a-z, 0-9, '+', '/'

  predicate IsStdChar(c: char)
  {
    IsAsciiLetter(c) || IsAsciiDigit(c) || c == '+' || c == '/'
  }

  predicate AllStd(s: string)
  {
    forall i :: 0 <= i < |s| ==> IsStdChar(s[i])
  }

  /** What `atob` decodes once the padding is gone. */
  predicate Decodable(d: string)
  {
    AllStd(d) && |d| % 4 != 1
  }

  /** The character of a 6-bit value. */
  function StdChar(v: int): (c: char)
    requires 0 <= v < 64
    ensures IsStdChar(c)
  {
    if v < 26 then ('A' as int + v) as char
    else if v < 52 then ('a' as int + (v - 26)) as char
    else if v < 62 then ('0' as int + (v - 52)) as char
    else if v == 62 then '+'
    else '/'
  }

  /** The 6-bit value of an alphabet character. */
  function StdIndex(c: char): (v: int)
    requires IsStdChar(c)
    ensures 0 <= v < 64
  {
    if IsAsciiUpper(c) then c as int - 'A' as int
    else if IsAsciiLower(c) then c as int - 'a' as int + 26
    else if IsAsciiDigit(c) then c as int - '0' as int + 52
    else if c == '+' then 62
    else 63
  }

  /** The two tables are inverse to each other. */
  lemma StdIndexOfChar(v: int)
    requires 0 <= v < 64
    ensures StdIndex(StdChar(v)) == v
  {
  }

  lemma StdCharOfIndex(c: char)
    requires IsStdChar(c)
    ensures StdChar(StdIndex(c)) == c
  {
  }

  // ---------------------------------------------------------------------
  // btoa: base64 of section 4 of RFC 4648

  /** The alphabet characters of the encoding: four per three bytes, then two
      for a last single byte or three for a last pair. */
  function EncodeGroups(b: seq<byte>): string
    decreases |b|
  {
    if |b| == 0 then []
    else if |b| == 1 then [StdChar(b[0] / 4), StdChar((b[0] % 4) * 16)]
    else if |b| == 2 then
      [StdChar(b[0] / 4), StdChar((b[0] % 4) * 16 + b[1] / 16), StdChar((b[1] % 16) * 4)]
    else
      [StdChar(b[0] / 4), StdChar((b[0] % 4) * 16 + b[1] / 16),
       StdChar((b[1] % 16) * 4 + b[2] / 64), StdChar(b[2] % 64)]
      + EncodeGroups(b[3..])
  }

  /** The encoding uses the alphabet only, four characters per three bytes
      and two or three for what is left. */
  lemma {:induction false} EncodeGroupsShape(b: seq<byte>)
    ensures AllStd(EncodeGroups(b))
    ensures |EncodeGroups(b)| == 4 * (|b| / 3) + (if |b| % 3 == 0 then 0 else |b| % 3 + 1)
    decreases |b|
  {
    if |b| >= 3 {
      EncodeGroupsShape(b[3..]);
      var q := [StdChar(b[0] / 4), StdChar((b[0] % 4) * 16 + b[1] / 16),
                StdChar((b[1] % 16) * 4 + b[2] / 64), StdChar(b[2] % 64)];
      assert EncodeGroups(b) == q + EncodeGroups(b[3..]);
    }
  }

  /** The `=` that fill the last group to four characters. */
  function Padding(n: nat): (r: string)
    ensures |r| == (if n % 3 == 0 then 0 else 3 - n % 3)
    ensures forall i :: 0 <= i < |r| ==> r[i] == '='
  {
    if n % 3 == 1 then "==" else if n % 3 == 2 then "=" else ""
  }

  /** `btoa` of a byte string. */
  function EncodeStd(b: seq<byte>): (r: string)
    ensures |r| % 4 == 0
  {
    EncodeGroupsShape(b);
    PaddedGroupsLength(|b|, |EncodeGroups(b)|, |Padding(|b|)|);
    EncodeGroups(b) + Padding(|b|)
  }

  /** The groups of `n` bytes and their padding fill whole quadruples. */
  lemma PaddedGroupsLength(n: nat, g: nat, p: nat)
    requires g == 4 * (n / 3) + (if n % 3 == 0 then 0 else n % 3 + 1)
    requires p == (if n % 3 == 0 then 0 else 3 - n % 3)
    ensures (g + p) % 4 == 0
  {
    var q := n / 3;
    var k := if n % 3 == 0 then q else q + 1;
    assert g + p == 4 * k;
  }

  /** The 6-bit values of the characters of `d`, packed into bytes; the bits
      left over after the last whole byte are dropped. */
  function DecodeGroups(d: string): seq<byte>
    requires Decodable(d)
    decreases |d|
  {
    if |d| == 0 then []
    else
      var v0, v1 := StdIndex(d[0]), StdIndex(d[1]);
      if |d| == 2 then [v0 * 4 + v1 / 16]
      else
        var v2 := StdIndex(d[2]);
        if |d| == 3 then [v0 * 4 + v1 / 16, (v1 % 16) * 16 + v2 / 4]
        else
          var v3 := StdIndex(d[3]);
          [v0 * 4 + v1 / 16, (v1 % 16) * 16 + v2 / 4, (v2 % 4) * 64 + v3] + DecodeGroups(d[4..])
  }

  /** The forgiving decode's first step: a length that is a multiple of four
      loses one or two final `=`. */
  function Unpadded(s: string): (d: string)
    ensures d <= s && |s| - |d| <= 2
  {
    if |s| % 4 == 0 && EndsWith(s, "==") then s[..|s| - 2]
    else if |s| % 4 == 0 && EndsWith(s, "=") then s[..|s| - 1]
    else s
  }

  /** `atob`, the forgiving base64 decode of the HTML standard on a string
      without white space: after `Unpadded`, a length of 1 modulo 4 or any
      character outside the alphabet is an `InvalidCharacterError`. */
  function DecodeStd(s: string): (r: Result<seq<byte>>)
    ensures r.Ok? <==> |Unpadded(s)| % 4 != 1 && AllStd(Unpadded(s))
  {
    var d := Unpadded(s);
    if |d| % 4 == 1 then Err(InvalidCharacterError)
    else if !AllStd(d) then Err(InvalidCharacterError)
    else Ok(DecodeGroups(d))
  }

  // ---------------------------------------------------------------------
  // the URL-safe transformations

  /** Every `+` written as `-` and every `/` as `_`. */
  function ToUrlAlphabet(s: string): string
  {
    ReplaceChar(ReplaceChar(s, '+', "-"), '/', "_")
  }

  /** Every `-` written back as `+` and every `_` as `/`. */
  function ToStdAlphabet(s: string): string
  {
    ReplaceChar(ReplaceChar(s, '-', "+"), '_', "/")
  }

  /** The final run of `=` padding removed. */
  function StripPadding(s: string): (r: string)
    ensures r <= s && (r == [] || r[|r| - 1] != '=')
    ensures forall i :: |r| <= i < |s| ==> s[i] == '='
  {
    if s != [] && s[|s| - 1] == '=' then StripPadding(s[..|s| - 1]) else s
  }

  /** `s.padEnd(target, c)`. */
  function PadEnd(s: string, target: int, c: char): (r: string)
    ensures |r| == if target <= |s| then |s| else target
    ensures r[..|s|] == s && forall i :: |s| <= i < |r| ==> r[i] == c
    decreases target - |s|
  {
    if target <= |s| then s else PadEnd(s + [c], target, c)
  }

  /** The decoder's target length: `input.length + (4 - input.length % 4) % 4`. */
  function PaddedLength(n: nat): (t: nat)
    ensures t % 4 == 0 && n <= t < n + 4
  {
    n + (4 - n % 4) % 4
  }

  /** No multiple of four below the padded length reaches `n`. */
  lemma PaddedLengthIsLeast(n: nat, m: int)
    requires n <= m && m % 4 == 0
    ensures PaddedLength(n) <= m
  {
  }

  /** The encoder's transformation of the UTF-8 bytes of the input. */
  function Encode(b: seq<byte>): (r: string)
    ensures IsValidBase64Url(r)
    ensures |r| == (4 * |b| + 2) / 3
  {
    var g := EncodeGroups(b);
    EncodeGroupsShape(b);
    EncodeStrips(g, Padding(|b|));
    UrlAlphabetOfStd(g);
    EncodedLength(|b|);
    StripPadding(ToUrlAlphabet(EncodeStd(b)))
  }

  /** The decoder's transformation of a validated input. */
  function Decode(input: string): (r: Result<seq<byte>>)
  {
    DecodeStd(PadEnd(ToStdAlphabet(input), PaddedLength(|input|), '='))
  }

  // ---------------------------------------------------------------------
  // facts about the transformations

  lemma EncodedLength(n: nat)
    ensures 4 * (n / 3) + (if n % 3 == 0 then 0 else n % 3 + 1) == (4 * n + 2) / 3
  {
  }

  /** A one-character global replacement changes the matching positions only. */
  lemma {:induction false} ReplaceAt(s: string, c: char, d: char)
    ensures |ReplaceChar(s, c, [d])| == |s|
    ensures forall i :: 0 <= i < |s| ==> ReplaceChar(s, c, [d])[i] == if s[i] == c then d else s[i]
  {
    if s != [] { ReplaceAt(s[1..], c, d); }
  }

  lemma {:induction false} ReplaceConcat(a: string, b: string, c: char, rep: string)
    ensures ReplaceChar(a + b, c, rep) == ReplaceChar(a, c, rep) + ReplaceChar(b, c, rep)
  {
    if a == [] {
      assert a + b == b;
    } else {
      assert (a + b)[1..] == a[1..] + b;
      ReplaceConcat(a[1..], b, c, rep);
    }
  }

  /** Position by position, the two remappings. */
  lemma UrlAlphabetAt(s: string)
    ensures |ToUrlAlphabet(s)| == |s|
    ensures forall i :: 0 <= i < |s| ==>
      ToUrlAlphabet(s)[i] == if s[i] == '+' then '-' else if s[i] == '/' then '_' else s[i]
  {
    ReplaceAt(s, '+', '-');
    ReplaceAt(ReplaceChar(s, '+', "-"), '/', '_');
  }

  lemma StdAlphabetAt(s: string)
    ensures |ToStdAlphabet(s)| == |s|
    ensures forall i :: 0 <= i < |s| ==>
      ToStdAlphabet(s)[i] == if s[i] == '-' then '+' else if s[i] == '_' then '/' else s[i]
  {
    ReplaceAt(s, '-', '+');
    ReplaceAt(ReplaceChar(s, '-', "+"), '_', '/');
  }

  /** The URL alphabet of an alphabet string passes the decoder's check, has
      the same length, and maps back. */
  lemma UrlAlphabetOfStd(g: string)
    requires AllStd(g)
    ensures IsValidBase64Url(ToUrlAlphabet(g)) && |ToUrlAlphabet(g)| == |g|
    ensures ToStdAlphabet(ToUrlAlphabet(g)) == g
  {
    UrlAlphabetAt(g);
    StdAlphabetAt(ToUrlAlphabet(g));
  }

  lemma StdAlphabetOfUrl(u: string)
    requires IsValidBase64Url(u)
    ensures AllStd(ToStdAlphabet(u)) && |ToStdAlphabet(u)| == |u|
  {
    StdAlphabetAt(u);
  }

  /** Stripping the padding off the URL form of `g + p` leaves the URL form of `g`. */
  lemma EncodeStrips(g: string, p: string)
    requires AllStd(g) && forall i :: 0 <= i < |p| ==> p[i] == '='
    ensures StripPadding(ToUrlAlphabet(g + p)) == ToUrlAlphabet(g)
  {
    ReplaceConcat(g, p, '+', "-");
    ReplaceAbsent(p, '+', "-");
    ReplaceConcat(ReplaceChar(g, '+', "-"), p, '/', "_");
    ReplaceAbsent(p, '/', "_");
    UrlAlphabetOfStd(g);
    StripPaddingRun(ToUrlAlphabet(g), p);
  }

  lemma {:induction false} StripPaddingRun(u: string, p: string)
    requires IsValidBase64Url(u) && forall i :: 0 <= i < |p| ==> p[i] == '='
    ensures StripPadding(u + p) == u
    decreases |p|
  {
    if p == [] {
      assert u + p == u;
      assert u == [] || u[|u| - 1] != '=';
    } else {
      assert (u + p)[..|u + p| - 1] == u + p[..|p| - 1];
      StripPaddingRun(u, p[..|p| - 1]);
    }
  }

  lemma Pack16(x: int, y: int)
    requires 0 <= y < 16
    ensures (x * 16 + y) / 16 == x && (x * 16 + y) % 16 == y
  {
  }

  lemma Pack4(x: int, y: int)
    requires 0 <= y < 4
    ensures (x * 4 + y) / 4 == x && (x * 4 + y) % 4 == y
  {
  }

  /** Four alphabet characters in front of a decodable string keep it decodable. */
  lemma DecodableQuad(d: string)
    requires |d| >= 4 && Decodable(d[4..])
    requires IsStdChar(d[0]) && IsStdChar(d[1]) && IsStdChar(d[2]) && IsStdChar(d[3])
    ensures Decodable(d)
  {
    forall i | 4 <= i < |d| ensures IsStdChar(d[i]) {
      assert d[i] == d[4..][i - 4];
    }
  }

  /** Decoding a string whose first four characters carry the values `v0`..`v3`. */
  lemma DecodeQuad(d: string, v0: int, v1: int, v2: int, v3: int)
    requires 0 <= v0 < 64 && 0 <= v1 < 64 && 0 <= v2 < 64 && 0 <= v3 < 64
    requires |d| >= 4 && Decodable(d)
    requires d[0] == StdChar(v0) && d[1] == StdChar(v1) && d[2] == StdChar(v2) && d[3] == StdChar(v3)
    ensures DecodeGroups(d) == [v0 * 4 + v1 / 16, (v1 % 16) * 16 + v2 / 4, (v2 % 4) * 64 + v3] + DecodeGroups(d[4..])
  {
    StdIndexOfChar(v0);
    StdIndexOfChar(v1);
    StdIndexOfChar(v2);
    StdIndexOfChar(v3);
  }

  /** Decoding two or three alphabet characters. */
  lemma DecodePair(d: string, v0: int, v1: int)
    requires 0 <= v0 < 64 && 0 <= v1 < 64
    requires |d| == 2 && d[0] == StdChar(v0) && d[1] == StdChar(v1)
    ensures Decodable(d) && DecodeGroups(d) == [v0 * 4 + v1 / 16]
  {
    StdIndexOfChar(v0);
    StdIndexOfChar(v1);
  }

  lemma DecodeTriple(d: string, v0: int, v1: int, v2: int)
    requires 0 <= v0 < 64 && 0 <= v1 < 64 && 0 <= v2 < 64
    requires |d| == 3 && d[0] == StdChar(v0) && d[1] == StdChar(v1) && d[2] == StdChar(v2)
    ensures Decodable(d) && DecodeGroups(d) == [v0 * 4 + v1 / 16, (v1 % 16) * 16 + v2 / 4]
  {
    StdIndexOfChar(v0);
    StdIndexOfChar(v1);
    StdIndexOfChar(v2);
  }

  /** The encoding of one or two last bytes decodes back to them. */
  lemma DecodeOneByte(b0: byte)
    ensures Decodable(EncodeGroups([b0])) && DecodeGroups(EncodeGroups([b0])) == [b0]
  {
    var v0, v1 := b0 / 4, (b0 % 4) * 16;
    DecodePair(EncodeGroups([b0]), v0, v1);
    Pack16(b0 % 4, 0);
  }

  lemma DecodeTwoBytes(b0: byte, b1: byte)
    ensures Decodable(EncodeGroups([b0, b1])) && DecodeGroups(EncodeGroups([b0, b1])) == [b0, b1]
  {
    var v0, v1, v2 := b0 / 4, (b0 % 4) * 16 + b1 / 16, (b1 % 16) * 4;
    DecodeTriple(EncodeGroups([b0, b1]), v0, v1, v2);
    Pack16(b0 % 4, b1 / 16);
    Pack4(b1 % 16, 0);
  }

  lemma DecodeLastGroup(b: seq<byte>)
    requires 1 <= |b| <= 2
    ensures Decodable(EncodeGroups(b)) && DecodeGroups(EncodeGroups(b)) == b
  {
    if |b| == 1 {
      assert b == [b[0]];
      DecodeOneByte(b[0]);
    } else {
      assert b == [b[0], b[1]];
      DecodeTwoBytes(b[0], b[1]);
    }
  }

  /** Encoding a group of three bytes in front of more bytes puts four
      alphabet characters in front of their encoding. */
  lemma DecodableThree(b0: byte, b1: byte, b2: byte, t: seq<byte>)
    requires Decodable(EncodeGroups(t))
    ensures Decodable(EncodeGroups([b0, b1, b2] + t))
    ensures EncodeGroups([b0, b1, b2] + t)[4..] == EncodeGroups(t)
  {
    var b := [b0, b1, b2] + t;
    assert b[3..] == t;
    DecodableQuad(EncodeGroups(b));
  }

  /** A group of three bytes in front of more bytes decodes back to them. */
  lemma DecodeThreeBytes(b0: byte, b1: byte, b2: byte, t: seq<byte>)
    requires Decodable(EncodeGroups(t))
    ensures Decodable(EncodeGroups([b0, b1, b2] + t))
    ensures DecodeGroups(EncodeGroups([b0, b1, b2] + t)) == [b0, b1, b2] + DecodeGroups(EncodeGroups(t))
  {
    DecodableThree(b0, b1, b2, t);
    var b := [b0, b1, b2] + t;
    assert b[0] == b0 && b[1] == b1 && b[2] == b2 && |b| >= 3;
    var v0, v1, v2, v3 := b0 / 4, (b0 % 4) * 16 + b1 / 16, (b1 % 16) * 4 + b2 / 64, b2 % 64;
    var d := EncodeGroups(b);
    DecodeQuad(d, v0, v1, v2, v3);
    ThreeBytesUnpacked(b0, b1, b2, v0, v1, v2, v3);
    assert d[4..] == EncodeGroups(t);
  }

  /** The three bytes come back out of their four 6-bit values. */
  lemma ThreeBytesUnpacked(b0: byte, b1: byte, b2: byte, v0: int, v1: int, v2: int, v3: int)
    requires v0 == b0 / 4 && v1 == (b0 % 4) * 16 + b1 / 16 && v2 == (b1 % 16) * 4 + b2 / 64 && v3 == b2 % 64
    ensures [v0 * 4 + v1 / 16, (v1 % 16) * 16 + v2 / 4, (v2 % 4) * 64 + v3] == [b0, b1, b2]
  {
    Pack16(b0 % 4, b1 / 16);
    Pack4(b1 % 16, b2 / 64);
  }

  /** Unpacking the packed groups gives back the bytes. */
  lemma {:induction false} DecodeGroupsOfEncodeGroups(b: seq<byte>)
    ensures Decodable(EncodeGroups(b)) && DecodeGroups(EncodeGroups(b)) == b
    decreases |b|
  {
    if |b| == 0 {
    } else if |b| <= 2 {
      DecodeLastGroup(b);
    } else {
      DecodeGroupsOfEncodeGroups(b[3..]);
      assert b == [b[0], b[1], b[2]] + b[3..];
      DecodeThreeBytes(b[0], b[1], b[2], b[3..]);
    }
  }

  lemma EndsWithEquals(s: string)
    ensures EndsWith(s, "=") <==> s != [] && s[|s| - 1] == '='
    ensures EndsWith(s, "==") <==> |s| >= 2 && s[|s| - 2] == '=' && s[|s| - 1] == '='
  {
    if |s| >= 1 { assert s[|s| - 1..] == [s[|s| - 1]]; }
    if |s| >= 2 { assert s[|s| - 2..] == [s[|s| - 2], s[|s| - 1]]; }
  }

  /** The final `=` the decoder added are the ones `atob` removes. */
  lemma UnpaddedOfPadded(g: string, p: string)
    requires AllStd(g) && |p| < 3 && (|g| + |p|) % 4 == 0 && (p != [] ==> g != [])
    requires forall i :: 0 <= i < |p| ==> p[i] == '='
    ensures Unpadded(g + p) == g
  {
    var s := g + p;
    EndsWithEquals(s);
    if |p| == 2 {
      assert s[..|s| - 2] == g;
    } else if |p| == 1 {
      assert IsStdChar(s[|s| - 2]);
      assert s[..|s| - 1] == g;
    } else {
      assert s == g;
      if s != [] { assert IsStdChar(s[|s| - 1]); }
    }
  }

  /** Padding `s` to a multiple of four with `c` appends the run `p` of `c` that reaches it. */
  lemma PadEndRun(s: string, p: string, c: char)
    requires |p| < 4 && (|s| + |p|) % 4 == 0 && forall i :: 0 <= i < |p| ==> p[i] == c
    ensures PadEnd(s, PaddedLength(|s|), c) == s + p
  {
    var r := PadEnd(s, PaddedLength(|s|), c);
    assert |r| == |s + p|;
    assert r[..|s|] == s;
    assert r == r[..|s|] + r[|s|..];
    assert r[|s|..] == p;
  }

  /** The decoder pads the encoder's output back to what `btoa` produced. */
  lemma PaddedEncoding(b: seq<byte>)
    ensures PadEnd(ToStdAlphabet(Encode(b)), PaddedLength(|Encode(b)|), '=') == EncodeStd(b)
  {
    StdOfEncode(b);
    var g := EncodeGroups(b);
    var p := Padding(|b|);
    assert g + p == EncodeStd(b);
    assert |g + p| % 4 == 0 && |p| < 3;
    PadEndRun(g, p, '=');
  }

  /** Back in the standard alphabet, the encoder's output is the groups
      `btoa` writes before its padding. */
  lemma StdOfEncode(b: seq<byte>)
    ensures ToStdAlphabet(Encode(b)) == EncodeGroups(b) && |Encode(b)| == |EncodeGroups(b)|
  {
    var g := EncodeGroups(b);
    var p := Padding(|b|);
    EncodeGroupsShape(b);
    assert Encode(b) == StripPadding(ToUrlAlphabet(g + p));
    EncodeStrips(g, p);
    UrlAlphabetOfStd(g);
  }

  /** Round trip: the decoder returns the bytes the encoder was given. */
  lemma DecodeEncode(b: seq<byte>)
    ensures Decode(Encode(b)) == Ok(b)
  {
    PaddedEncoding(b);
    StdRoundTrip(b);
  }

  /** `atob(btoa(b))` is `b`. */
  lemma StdRoundTrip(b: seq<byte>)
    ensures DecodeStd(EncodeStd(b)) == Ok(b)
  {
    var g := EncodeGroups(b);
    var p := Padding(|b|);
    assert Unpadded(g + p) == g by {
      EncodeStdParts(b);
      UnpaddedOfPadded(g, p);
    }
    DecodeGroupsOfEncodeGroups(b);
  }

  /** What `btoa` writes: the groups, over the standard alphabet, then at
      most two `=`, and those only after some group character. */
  lemma EncodeStdParts(b: seq<byte>)
    ensures var g, p := EncodeGroups(b), Padding(|b|);
      AllStd(g) && |p| < 3 && (|g| + |p|) % 4 == 0 && (p != [] ==> g != [])
  {
    EncodeGroupsShape(b);
    assert |EncodeStd(b)| % 4 == 0;
    if |b| % 3 != 0 {
      assert |EncodeGroups(b)| >= |b| % 3 + 1;
    }
  }

  /** A string over the URL-safe alphabet fails to decode exactly when its
      length is 1 modulo 4. */
  lemma DecodeFailsExactly(input: string)
    requires IsValidBase64Url(input)
    ensures Decode(input).Err? <==> |input| % 4 == 1
  {
    if |input| % 4 == 1 {
      DecodeFailsOnLength(input);
    } else {
      DecodeSucceeds(input);
    }
  }

  lemma DecodeFailsOnLength(input: string)
    requires IsValidBase64Url(input) && |input| % 4 == 1
    ensures Decode(input).Err?
  {
    StdAlphabetOfUrl(input);
    PaddedStdFails(ToStdAlphabet(input));
  }

  lemma DecodeSucceeds(input: string)
    requires IsValidBase64Url(input) && |input| % 4 != 1
    ensures Decode(input).Ok?
  {
    StdAlphabetOfUrl(input);
    PaddedStdDecodes(ToStdAlphabet(input));
  }

  /** `atob` rejects any string of length 1 modulo 4 padded to a multiple of
      four, an alphabet string included: one `=` stays behind. */
  lemma PaddedStdFails(s: string)
    requires |s| % 4 == 1
    ensures !Decodable(Unpadded(PadEnd(s, PaddedLength(|s|), '=')))
  {
    var d := PaddedOneMod4(s);
    assert !IsStdChar(d[|s|]);
  }

  /** A string of length 1 modulo 4 gets three `=`, and `atob` removes two. */
  lemma PaddedOneMod4(s: string) returns (d: string)
    requires |s| % 4 == 1
    ensures d == Unpadded(PadEnd(s, PaddedLength(|s|), '='))
    ensures |d| == |s| + 1 && d[|s|] == '='
  {
    var p: string := "===";
    assert |p| == 3 && p[0] == p[1] == p[2] == '=';
    PadEndRun(s, p, '=');
    var padded := s + p;
    EndsWithEquals(padded);
    assert |padded| % 4 == 0 && padded[|padded| - 2] == '=' && padded[|padded| - 1] == '=';
    d := padded[..|padded| - 2];
    assert Unpadded(padded) == d;
  }

  /** `atob` accepts any other alphabet string padded to a multiple of four. */
  lemma PaddedStdDecodes(s: string)
    requires AllStd(s) && |s| % 4 != 1
    ensures Unpadded(PadEnd(s, PaddedLength(|s|), '=')) == s
  {
    if |s| % 4 == 0 {
      PaddedRun(s, "");
    } else if |s| % 4 == 2 {
      var p: string := "==";
      assert |p| == 2 && p[0] == p[1] == '=';
      FillsToFour(|s|, |p|);
      PaddedRun(s, p);
    } else {
      var p: string := "=";
      assert |p| == 1 && p[0] == '=';
      FillsToFour(|s|, |p|);
      PaddedRun(s, p);
    }
  }

  /** Padding with the run `p` that reaches a multiple of four, then
      unpadding, gives `s` back. */
  lemma PaddedRun(s: string, p: string)
    requires AllStd(s) && |p| < 3 && (|s| + |p|) % 4 == 0 && (p != [] ==> s != [])
    requires forall i :: 0 <= i < |p| ==> p[i] == '='
    ensures Unpadded(PadEnd(s, PaddedLength(|s|), '=')) == s
  {
    PadEndRun(s, p, '=');
    UnpaddedOfPadded(s, p);
  }

  lemma FillsToFour(n: nat, k: nat)
    requires 0 < k < 4 && n % 4 == 4 - k
    ensures (n + k) % 4 == 0
  {
    var q := n / 4;
    assert n == 4 * q + (4 - k);
    assert n + k == 4 * (q + 1);
  }

  // ---------------------------------------------------------------------
  // the page

  /** The input after `addToHistory`: unshifted when absent, the oldest entry
      popped beyond the cap. */
  function Recorded(history: seq<string>, text: string): (r: seq<string>)
    ensures text in r
    ensures |history| <= MaxHistory ==> |r| <= MaxHistory
    ensures text in history ==> r == history
    ensures text !in history ==> r[0] == text && r[1..] <= history
    ensures text !in history ==> |r| == if |history| < MaxHistory then |history| + 1 else |history|
  {
    if text in history then history
    else
      var u := [text] + history;
      if |u| > MaxHistory then
        assert u[..|u| - 1][0] == text;
        u[..|u| - 1]
      else u
  }

  predicate NoDuplicates(s: seq<string>)
  {
    forall i, j :: 0 <= i < j < |s| ==> s[i] != s[j]
  }

  lemma RecordedNoDuplicates(history: seq<string>, text: string)
    requires NoDuplicates(history)
    ensures NoDuplicates(Recorded(history, text))
  {
    var r := Recorded(history, text);
    if text !in history {
      forall i, j | 0 <= i < j < |r| ensures r[i] != r[j] {
        if i == 0 {
          assert r[j] == history[j - 1];
        } else {
          assert r[i] == history[i - 1] && r[j] == history[j - 1];
        }
      }
    }
  }

  /** What the encode handler shows: the URL-safe encoding of the UTF-8 bytes
      `utf8` of the trimmed input, or the validation message. */
  function Encoded(text: string, utf8: seq<byte>): (r: Result<string>)
    ensures r.Ok? <==> 0 < |Trim(text)| && Utf16Length(Trim(text)) < MaxInputLength
    ensures r.Ok? ==> Decode(r.value) == Ok(utf8)
    ensures r.Err? ==> r.message == InvalidTextMessage
  {
    ValidTrimmedInput(text);
    if !IsValidInput(Trim(text)) then Err(InvalidTextMessage)
    else
      DecodeEncode(utf8);
      Ok(Encode(utf8))
  }

  /** What the decode handler shows: the decoded bytes, or the validation
      message, or the `atob` failure. */
  function Decoded(text: string): (r: Result<seq<byte>>)
    ensures r.Ok? <==>
      0 < |Trim(text)| && Utf16Length(Trim(text)) < MaxInputLength &&
      IsValidBase64Url(Trim(text)) && |Trim(text)| % 4 != 1
  {
    var input := Trim(text);
    ValidTrimmedInput(text);
    if !IsValidInput(input) then Err(InvalidDecodeInputMessage)
    else if !IsValidBase64Url(input) then Err(InvalidFormatMessage)
    else
      DecodeFailsExactly(input);
      match Decode(input)
      case Ok(bytes) => Ok(bytes)
      case Err(m) => Err(DecodeFailedPrefix + m)
  }

  /** The page state: the input history (most recent first) and the cursor
      that ArrowUp/ArrowDown move through it (-1: not browsing). */
  class EncoderPage {
    var history: seq<string>
    var historyIndex: int

    ghost predicate Valid()
      reads this
    {
      |history| <= MaxHistory && NoDuplicates(history) && -1 <= historyIndex < |history|
    }

    constructor()
      ensures Valid() && history == [] && historyIndex == -1
    {
      history := [];
      historyIndex := -1;
    }

    /** `addToHistory`. */
    method AddToHistory(text: string)
      modifies this
      requires Valid()
      ensures Valid()
      ensures history == Recorded(old(history), text) && historyIndex == -1
    {
      RecordedNoDuplicates(history, text);
      if text !in history {
        history := [text] + history;
        if |history| > MaxHistory {
          history := history[..|history| - 1];
        }
      }
      historyIndex := -1;
    }

    /** The encode handler; `utf8` is the UTF-8 form of the trimmed input. */
    method EncodeInput(text: string, utf8: seq<byte>) returns (r: Result<string>)
      modifies this
      requires Valid()
      ensures Valid() && r == Encoded(text, utf8)
      ensures r.Ok? ==> history == Recorded(old(history), Trim(text)) && historyIndex == -1
      ensures r.Err? ==> history == old(history) && historyIndex == old(historyIndex)
    {
      var input := Trim(text);
      if !IsValidInput(input) {
        return Err(InvalidTextMessage);
      }
      var encoded := StripPadding(ToUrlAlphabet(EncodeStd(utf8)));
      AddToHistory(input);
      r := Ok(encoded);
    }

    /** The decode handler. */
    method DecodeInput(text: string) returns (r: Result<seq<byte>>)
      modifies this
      requires Valid()
      ensures Valid() && r == Decoded(text)
      ensures r.Ok? ==> history == Recorded(old(history), Trim(text)) && historyIndex == -1
      ensures r.Err? ==> history == old(history) && historyIndex == old(historyIndex)
    {
      var input := Trim(text);
      if !IsValidInput(input) {
        return Err(InvalidDecodeInputMessage);
      }
      if !IsValidBase64Url(input) {
        return Err(InvalidFormatMessage);
      }
      var padded := PadEnd(ToStdAlphabet(input), PaddedLength(|input|), '=');
      var decoded := DecodeStd(padded);
      if decoded.Err? {
        return Err(DecodeFailedPrefix + decoded.message);
      }
      AddToHistory(input);
      r := Ok(decoded.value);
    }

    /** ArrowUp in the input: one step back in the history, stopping at the
        oldest entry; returns the text put into the input, if any. */
    method ArrowUp() returns (shown: Option<string>)
      modifies this
      requires Valid()
      ensures Valid() && history == old(history)
      ensures |history| > 0 ==>
        historyIndex == (if old(historyIndex) + 1 < |history| then old(historyIndex) + 1 else |history| - 1)
        && shown == Some(history[historyIndex])
      ensures |history| == 0 ==> historyIndex == old(historyIndex) && shown == None
    {
      shown := None;
      if |history| > 0 {
        historyIndex := if historyIndex + 1 < |history| then historyIndex + 1 else |history| - 1;
        shown := Some(history[historyIndex]);
      }
    }

    /** ArrowDown in the input: one step towards the newest entry, and past it
        to an empty input. */
    method ArrowDown() returns (shown: Option<string>)
      modifies this
      requires Valid()
      ensures Valid() && history == old(history)
      ensures old(historyIndex) > -1 ==>
        historyIndex == old(historyIndex) - 1
        && shown == Some(if historyIndex == -1 then "" else history[historyIndex])
      ensures old(historyIndex) == -1 ==> historyIndex == -1 && shown == None
    {
      shown := None;
      if historyIndex > -1 {
        historyIndex := if -1 < historyIndex - 1 then historyIndex - 1 else -1;
        shown := Some(if historyIndex == -1 then "" else history[historyIndex]);
      }
    }
  }
}
