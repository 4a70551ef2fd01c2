/** The URL-safe base64 encoding of section 5 of RFC 4648 ("base64url"), as
    Python's `base64.urlsafe_b64encode` produces it (with `=` padding), and
    `str.rstrip("=")`, which the token derivation applies to its output.
    `Decode` is the inverse on unpadded input: it is not used by the system,
    it is the reference against which the encoding is proved lossless. */
module Base64Url {
  import opened Octets

  /** The 64 characters of the base64url alphabet: `A-Z a-z 0-9 - _`. */
  predicate IsUrlSafeChar(c: char) {
    ('A' <= c <= 'Z') || ('a' <= c <= 'z') || ('0' <= c <= '9') || c == '-' || c == '_'
  }

  predicate AllUrlSafe(s: string) {
    forall i :: 0 <= i < |s| ==> IsUrlSafeChar(s[i])
  }

  /** The character for the 6-bit value `v` (Table 2 of RFC 4648). */
  function Digit(v: int): (c: char)
    requires 0 <= v < 64
    ensures IsUrlSafeChar(c)
  {
    if v < 26 then (65 + v) as char        // 'A'..'Z'
    else if v < 52 then (71 + v) as char   // 'a'..'z'
    else if v < 62 then (v - 4) as char    // '0'..'9'
    else if v == 62 then '-'
    else '_'
  }

  /** The 6-bit value of an alphabet character. */
  function DigitValue(c: char): (v: int)
    requires IsUrlSafeChar(c)
    ensures 0 <= v < 64 && Digit(v) == c
  {
    if 'A' <= c <= 'Z' then c as int - 65
    else if 'a' <= c <= 'z' then c as int - 71
    else if '0' <= c <= '9' then c as int + 4
    else if c == '-' then 62
    else 63
  }

  lemma DigitInjective(v: int, w: int)
    requires 0 <= v < 64 && 0 <= w < 64
    ensures Digit(v) == Digit(w) ==> v == w
  {
    if Digit(v) == Digit(w) {
      assert DigitValue(Digit(v)) == v;
      assert DigitValue(Digit(w)) == w;
    }
  }

  /** Three bytes (24 bits) as four 6-bit digits, most significant first. */
  function EncodeGroup(b0: Byte, b1: Byte, b2: Byte): (s: string)
    ensures |s| == 4 && AllUrlSafe(s)
  {
    [Digit(b0 / 4), Digit((b0 % 4) * 16 + b1 / 16), Digit((b1 % 16) * 4 + b2 / 64), Digit(b2 % 64)]
  }

  /** `base64.urlsafe_b64encode`: whole groups of three bytes, then a final
      group of one or two bytes padded with zero bits and `=` characters. */
  function Encode(bs: Bytes): (s: string)
    ensures |s| == 4 * ((|bs| + 2) / 3)
    ensures forall i :: 0 <= i < |s| ==> IsUrlSafeChar(s[i]) || s[i] == '='
    decreases |bs|
  {
    if |bs| == 0 then ""
    else if |bs| == 1 then [Digit(bs[0] / 4), Digit((bs[0] % 4) * 16), '=', '=']
    else if |bs| == 2 then [Digit(bs[0] / 4), Digit((bs[0] % 4) * 16 + bs[1] / 16), Digit((bs[1] % 16) * 4), '=']
    else EncodeGroup(bs[0], bs[1], bs[2]) + Encode(bs[3..])
  }

  /** Python's `s.rstrip("=")`: drop every trailing `=`. */
  function StripPadding(s: string): (r: string)
    ensures |r| <= |s| && r == s[..|r|]
    ensures |r| > 0 ==> r[|r| - 1] != '='
    ensures forall i :: |r| <= i < |s| ==> s[i] == '='
    decreases |s|
  {
    if |s| > 0 && s[|s| - 1] == '=' then StripPadding(s[..|s| - 1]) else s
  }

  /** Python's slice `s[:n]`, which never fails on a short string. */
  function Take(s: string, n: nat): (r: string)
    ensures |r| == if |s| <= n then |s| else n
    ensures r == s[..|r|]
  {
    if |s| <= n then s else s[..n]
  }

  function DecodeGroup(c0: char, c1: char, c2: char, c3: char): (bs: Bytes)
    requires IsUrlSafeChar(c0) && IsUrlSafeChar(c1) && IsUrlSafeChar(c2) && IsUrlSafeChar(c3)
    ensures |bs| == 3
  {
    var v0, v1, v2, v3 := DigitValue(c0), DigitValue(c1), DigitValue(c2), DigitValue(c3);
    [v0 * 4 + v1 / 16, (v1 % 16) * 16 + v2 / 4, (v2 % 4) * 64 + v3]
  }

  /** Decoding of unpadded base64url text whose length is a multiple of 4. */
  function Decode(s: string): (bs: Bytes)
    requires |s| % 4 == 0 && AllUrlSafe(s)
    ensures |bs| == 3 * (|s| / 4)
    decreases |s|
  {
    if |s| == 0 then []
    else DecodeGroup(s[0], s[1], s[2], s[3]) + Decode(s[4..])
  }

  lemma DigitValueOfDigit(v: int)
    requires 0 <= v < 64
    ensures DigitValue(Digit(v)) == v
  {
    DigitInjective(DigitValue(Digit(v)), v);
  }

  /** Bit-field arithmetic of one group: `x` in the high bits, `y` below it. */
  lemma Split16(x: int, y: int)
    requires 0 <= x && 0 <= y < 16
    ensures (x * 16 + y) / 16 == x && (x * 16 + y) % 16 == y
  {
  }

  lemma Split4(x: int, y: int)
    requires 0 <= x && 0 <= y < 4
    ensures (x * 4 + y) / 4 == x && (x * 4 + y) % 4 == y
  {
  }

  lemma DecodeEncodeGroup(b0: Byte, b1: Byte, b2: Byte)
    ensures var s := EncodeGroup(b0, b1, b2);
            DecodeGroup(s[0], s[1], s[2], s[3]) == [b0, b1, b2]
  {
    var v0, v1, v2, v3 := b0 / 4, (b0 % 4) * 16 + b1 / 16, (b1 % 16) * 4 + b2 / 64, b2 % 64;
    DigitValueOfDigit(v0);
    DigitValueOfDigit(v1);
    DigitValueOfDigit(v2);
    DigitValueOfDigit(v3);
    Split16(b0 % 4, b1 / 16);
    Split4(b1 % 16, b2 / 64);
    assert v0 * 4 + v1 / 16 == b0;
    assert (v1 % 16) * 16 + v2 / 4 == b1;
    assert (v2 % 4) * 64 + v3 == b2;
  }

  /** Whole groups encode to padding-free text. */
  lemma {:induction false} EncodeWholeGroupsUnpadded(bs: Bytes)
    requires |bs| % 3 == 0
    ensures AllUrlSafe(Encode(bs))
    decreases |bs|
  {
    if |bs| > 0 {
      EncodeWholeGroupsUnpadded(bs[3..]);
      var g, rest := EncodeGroup(bs[0], bs[1], bs[2]), Encode(bs[3..]);
      assert Encode(bs) == g + rest;
      forall i | 0 <= i < |g + rest| ensures IsUrlSafeChar((g + rest)[i]) {
        if i >= 4 { assert (g + rest)[i] == rest[i - 4]; }
      }
    }
  }

  /** One step of decoding an encoding: the first group comes back. */
  lemma DecodeEncodeStep(bs: Bytes)
    requires |bs| >= 3
    requires AllUrlSafe(Encode(bs)) && AllUrlSafe(Encode(bs[3..]))
    requires |Encode(bs[3..])| % 4 == 0
    ensures Decode(Encode(bs)) == [bs[0], bs[1], bs[2]] + Decode(Encode(bs[3..]))
  {
    var s, g, rest := Encode(bs), EncodeGroup(bs[0], bs[1], bs[2]), Encode(bs[3..]);
    assert s == g + rest;
    assert s[4..] == rest;
    assert s[0] == g[0] && s[1] == g[1] && s[2] == g[2] && s[3] == g[3];
    DecodeEncodeGroup(bs[0], bs[1], bs[2]);
  }

  /** Base64url encoding loses nothing: decoding whole groups gives the bytes back. */
  lemma {:induction false} DecodeEncode(bs: Bytes)
    requires |bs| % 3 == 0
    ensures AllUrlSafe(Encode(bs)) && Decode(Encode(bs)) == bs
    decreases |bs|
  {
    EncodeWholeGroupsUnpadded(bs);
    if |bs| > 0 {
      DecodeEncode(bs[3..]);
      DecodeEncodeStep(bs);
      assert bs == [bs[0], bs[1], bs[2]] + bs[3..];
    }
  }

  /** Encoding is compositional at group boundaries. */
  lemma {:induction false} EncodeAppend(a: Bytes, b: Bytes)
    requires |a| % 3 == 0
    ensures Encode(a + b) == Encode(a) + Encode(b)
    decreases |a|
  {
    if |a| == 0 {
      assert a + b == b;
    } else {
      assert (a + b)[3..] == a[3..] + b;
      assert (a + b)[0] == a[0] && (a + b)[1] == a[1] && (a + b)[2] == a[2];
      EncodeAppend(a[3..], b);
    }
  }

  /** Stripping `=` from `x + y` never reaches into a padding-free `x`. */
  lemma {:induction false} StripPaddingAppend(x: string, y: string)
    requires AllUrlSafe(x)
    ensures StripPadding(x + y) == x + StripPadding(y)
    decreases |y|
  {
    if |y| == 0 {
      assert x + y == x;
      if |x| > 0 { assert IsUrlSafeChar(x[|x| - 1]); }
    } else if y[|y| - 1] == '=' {
      assert (x + y)[..|x + y| - 1] == x + y[..|y| - 1];
      StripPaddingAppend(x, y[..|y| - 1]);
    } else {
      assert (x + y)[|x + y| - 1] == y[|y| - 1];
    }
  }
}
