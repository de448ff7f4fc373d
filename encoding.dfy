/** The two text encodings a token passes through: the decimal rendering of the
    window index inside the signed message (Python's `str(int)`), and the
    URL-safe base64 alphabet of section 5 of RFC 4648 that turns the digest into
    the token, with the trailing `=` padding removed as section 3.2 permits. */
module Encoding {
  import opened Outcomes

  type byte = x: int | 0 <= x < 256

  // ---------------------------------------------------------------------------
  // Decimal rendering of integers
  // ---------------------------------------------------------------------------

  predicate IsDigit(c: char) { '0' <= c <= '9' }

  function DigitChar(d: int): (c: char)
    requires 0 <= d < 10
    ensures IsDigit(c) && c as int - '0' as int == d
  {
    ('0' as int + d) as char
  }

  /** `str(n)` for a natural number: no sign, no leading zero. */
  function NatToDecimal(n: nat): (s: string)
    ensures |s| > 0 && forall i :: 0 <= i < |s| ==> IsDigit(s[i])
    ensures |s| > 1 ==> s[0] != '0'
  {
    if n < 10 then [DigitChar(n)] else NatToDecimal(n / 10) + [DigitChar(n % 10)]
  }

  /** `str(i)` for any integer: a minus sign before the magnitude when negative. */
  function IntToDecimal(i: int): (s: string)
    ensures |s| > 0 && ':' !in s
    ensures i < 0 <==> s[0] == '-'
  {
    if i < 0 then "-" + NatToDecimal(-i) else NatToDecimal(i)
  }

  /** The value of a string of decimal digits. */
  function DecimalValue(s: string): nat
    requires forall i :: 0 <= i < |s| ==> IsDigit(s[i])
  {
    if s == [] then 0
    else
      var last := s[|s| - 1];
      assert IsDigit(last);
      DecimalValue(s[..|s| - 1]) * 10 + (last as int - '0' as int)
  }

  /** Reads back what IntToDecimal writes. */
  function ParseInt(s: string): Option<int> {
    if |s| > 0 && s[0] == '-' then
      (if forall i :: 1 <= i < |s| ==> IsDigit(s[i]) then Some(0 - DecimalValue(s[1..]) as int) else None)
    else if forall i :: 0 <= i < |s| ==> IsDigit(s[i]) then Some(DecimalValue(s))
    else None
  }

  lemma {:induction false} DecimalRoundTrip(n: nat)
    ensures DecimalValue(NatToDecimal(n)) == n
  {
    if n >= 10 {
      var s := NatToDecimal(n);
      DecimalRoundTrip(n / 10);
      assert s[..|s| - 1] == NatToDecimal(n / 10);
    }
  }

  lemma IntRoundTrip(i: int)
    ensures ParseInt(IntToDecimal(i)) == Some(i)
  {
    if i < 0 {
      DecimalRoundTrip(-i);
      assert IntToDecimal(i)[1..] == NatToDecimal(-i);
    } else {
      DecimalRoundTrip(i);
    }
  }

  /** Distinct window indices are rendered as distinct strings. */
  lemma IntToDecimalInjective(i: int, j: int)
    ensures IntToDecimal(i) == IntToDecimal(j) ==> i == j
  {
    IntRoundTrip(i);
    IntRoundTrip(j);
  }

  // ---------------------------------------------------------------------------
  // URL-safe base64 (RFC 4648, section 5)
  // ---------------------------------------------------------------------------

  /** A character of the URL-safe alphabet: A-Z, a-z, 0-9, '-' and '_'. */
  predicate IsSymbol(c: char) {
    ('A' <= c <= 'Z') || ('a' <= c <= 'z') || ('0' <= c <= '9') || c == '-' || c == '_'
  }

  /** The alphabet character for a 6-bit value (table 2 of RFC 4648). */
  function Symbol(v: int): (c: char)
    requires 0 <= v < 64
    ensures IsSymbol(c)
  {
    if v < 26 then ('A' as int + v) as char
    else if v < 52 then ('a' as int + (v - 26)) as char
    else if v < 62 then ('0' as int + (v - 52)) as char
    else if v == 62 then '-'
    else '_'
  }

  /** The 6-bit value of an alphabet character (0 for any other character). */
  function SymbolValue(c: char): (v: int)
    ensures 0 <= v < 64
  {
    if 'A' <= c <= 'Z' then c as int - 'A' as int
    else if 'a' <= c <= 'z' then c as int - 'a' as int + 26
    else if '0' <= c <= '9' then c as int - '0' as int + 52
    else if c == '-' then 62
    else if c == '_' then 63
    else 0
  }

  lemma SymbolValueOfSymbol(v: int)
    requires 0 <= v < 64
    ensures SymbolValue(Symbol(v)) == v
  {
  }

  /** `base64.urlsafe_b64encode`: every 3 bytes become 4 characters; a final group
      of 1 or 2 bytes becomes 2 or 3 characters followed by `=` up to 4. */
  function Base64UrlPadded(d: seq<byte>): (s: string)
  {
    if |d| == 0 then []
    else if |d| == 1 then [Symbol(d[0] / 4), Symbol(d[0] % 4 * 16), '=', '=']
    else if |d| == 2 then
      [Symbol(d[0] / 4), Symbol(d[0] % 4 * 16 + d[1] / 16), Symbol(d[1] % 16 * 4), '=']
    else
      [Symbol(d[0] / 4), Symbol(d[0] % 4 * 16 + d[1] / 16),
       Symbol(d[1] % 16 * 4 + d[2] / 64), Symbol(d[2] % 64)] + Base64UrlPadded(d[3..])
  }

  /** The padded encoding has 4 characters per started 3-byte group. */
  lemma {:induction false} Base64UrlPaddedLength(d: seq<byte>)
    ensures |Base64UrlPadded(d)| == 4 * ((|d| + 2) / 3)
  {
    if |d| >= 3 {
      EncodePaddedGroup(d);
      Base64UrlPaddedLength(d[3..]);
      assert (|d| + 2) / 3 == (|d[3..]| + 2) / 3 + 1;
    }
  }

  lemma EncodePaddedGroup(d: seq<byte>)
    requires |d| >= 3
    ensures Base64UrlPadded(d) == [Symbol(d[0] / 4), Symbol(d[0] % 4 * 16 + d[1] / 16),
                                   Symbol(d[1] % 16 * 4 + d[2] / 64), Symbol(d[2] % 64)] + Base64UrlPadded(d[3..])
  {
  }

  /** Python's `str.rstrip(c)`: removes every trailing occurrence of `c`. */
  function RStrip(s: string, c: char): string
  {
    if |s| > 0 && s[|s| - 1] == c then RStrip(s[..|s| - 1], c) else s
  }

  /** The padding-free URL-safe encoding (section 3.2 of RFC 4648): as above, with
      no `=` after a final short group. */
  function Base64Url(d: seq<byte>): (s: string)
  {
    if |d| == 0 then []
    else if |d| == 1 then [Symbol(d[0] / 4), Symbol(d[0] % 4 * 16)]
    else if |d| == 2 then
      [Symbol(d[0] / 4), Symbol(d[0] % 4 * 16 + d[1] / 16), Symbol(d[1] % 16 * 4)]
    else
      [Symbol(d[0] / 4), Symbol(d[0] % 4 * 16 + d[1] / 16),
       Symbol(d[1] % 16 * 4 + d[2] / 64), Symbol(d[2] % 64)] + Base64Url(d[3..])
  }

  /** The bytes a group of characters carries: the first from the first two
      characters, the second from the middle two, the third from the last two. */
  function Byte0(c0: char, c1: char): byte
  {
    SymbolValue(c0) * 4 + SymbolValue(c1) / 16
  }

  function Byte1(c1: char, c2: char): byte
  {
    SymbolValue(c1) % 16 * 16 + SymbolValue(c2) / 4
  }

  function Byte2(c2: char, c3: char): byte
  {
    SymbolValue(c2) % 4 * 64 + SymbolValue(c3)
  }

  /** Text a padding-free encoding can be: alphabet characters only, and no
      single character left over after the groups of four. */
  predicate WellFormed(s: string) {
    |s| % 4 != 1 && forall i :: 0 <= i < |s| ==> IsSymbol(s[i])
  }

  /** Decodes padding-free URL-safe base64; None unless the text is well formed. */
  function Base64UrlDecode(s: string): Option<seq<byte>> {
    if WellFormed(s) then Some(DecodeGroups(s)) else None
  }

  /** The bytes carried by well-formed text: three per group of four characters,
      one or two for a final group of two or three. */
  function DecodeGroups(s: string): seq<byte> {
    if |s| < 2 then []
    else if |s| == 2 then [Byte0(s[0], s[1])]
    else if |s| == 3 then [Byte0(s[0], s[1]), Byte1(s[1], s[2])]
    else [Byte0(s[0], s[1]), Byte1(s[1], s[2]), Byte2(s[2], s[3])] + DecodeGroups(s[4..])
  }

  /** Every character of an encoding is in the URL-safe alphabet, so none is `=`. */
  lemma {:induction false} Base64UrlAlphabet(d: seq<byte>)
    ensures forall i :: 0 <= i < |Base64Url(d)| ==> IsSymbol(Base64Url(d)[i])
  {
    if |d| >= 3 {
      Base64UrlAlphabet(d[3..]);
    }
  }

  /** Four characters per three bytes, rounded up: a 32-byte digest gives 43. */
  lemma {:induction false} Base64UrlLength(d: seq<byte>)
    ensures |Base64Url(d)| == (4 * |d| + 2) / 3
  {
    if |d| >= 3 {
      Base64UrlLength(d[3..]);
    }
  }

  /** Stripping the padding from the library's encoding gives the padding-free one. */
  lemma {:induction false} StripPaddingIsUnpadded(d: seq<byte>)
    ensures RStrip(Base64UrlPadded(d), '=') == Base64Url(d)
  {
    var p := Base64UrlPadded(d);
    if |d| == 1 {
      assert RStrip(p, '=') == RStrip(p[..3], '=');
      assert p[..3][..2] == p[..2];
      assert RStrip(p[..3], '=') == RStrip(p[..2], '=');
      assert IsSymbol(p[1]);
      assert p[..2] == Base64Url(d);
    } else if |d| == 2 {
      assert RStrip(p, '=') == RStrip(p[..3], '=');
      assert IsSymbol(p[2]);
      assert p[..3] == Base64Url(d);
    } else if |d| >= 3 {
      var q := Base64Url(d)[..4];
      StripPaddingIsUnpadded(d[3..]);
      RStripAfterPrefix(q, Base64UrlPadded(d[3..]), '=');
      assert Base64UrlPadded(d) == q + Base64UrlPadded(d[3..]);
    }
  }

  /** A prefix ending in a character other than `c` is never stripped. */
  lemma {:induction false} RStripAfterPrefix(p: string, s: string, c: char)
    requires |p| > 0 && p[|p| - 1] != c
    ensures RStrip(p + s, c) == p + RStrip(s, c)
  {
    if |s| > 0 && s[|s| - 1] == c {
      assert (p + s)[..|p + s| - 1] == p + s[..|s| - 1];
      RStripAfterPrefix(p, s[..|s| - 1], c);
    } else {
      assert p + s == (p + s)[..|p + s|];
    }
  }

  /** The bit arithmetic of one group: the 6-bit values the encoder takes from
      three bytes give the same three bytes back in the decoder. */
  lemma GroupRoundTrip(x: byte, y: byte, z: byte)
    ensures Byte0(Symbol(x / 4), Symbol(x % 4 * 16 + y / 16)) == x
    ensures Byte1(Symbol(x % 4 * 16 + y / 16), Symbol(y % 16 * 4 + z / 64)) == y
    ensures Byte2(Symbol(y % 16 * 4 + z / 64), Symbol(z % 64)) == z
  {
    SymbolValueOfSymbol(x / 4);
    SymbolValueOfSymbol(x % 4 * 16 + y / 16);
    SymbolValueOfSymbol(y % 16 * 4 + z / 64);
    SymbolValueOfSymbol(z % 64);
  }

  /** An encoding never leaves a single character over. */
  lemma Base64UrlWellFormed(d: seq<byte>)
    ensures WellFormed(Base64Url(d))
  {
    Base64UrlAlphabet(d);
    Base64UrlNoSingleLeftOver(d);
  }

  lemma {:induction false} Base64UrlNoSingleLeftOver(d: seq<byte>)
    ensures |Base64Url(d)| % 4 != 1
  {
    if |d| >= 3 {
      EncodeGroup(d);
      Base64UrlNoSingleLeftOver(d[3..]);
      LengthStep(Base64Url(d), Base64Url(d[3..]));
    }
  }

  lemma LengthStep(s: string, r: string)
    requires |s| == 4 + |r| && |r| % 4 != 1
    ensures |s| % 4 != 1
  {
  }

  /** Decoding undoes encoding. */
  lemma {:induction false} Base64UrlRoundTrip(d: seq<byte>)
    ensures Base64UrlDecode(Base64Url(d)) == Some(d)
  {
    Base64UrlWellFormed(d);
    DecodeGroupsRoundTrip(d);
  }

  lemma {:induction false} DecodeGroupsRoundTrip(d: seq<byte>)
    ensures DecodeGroups(Base64Url(d)) == d
  {
    if |d| == 1 {
      RoundTripOneByte(d);
    } else if |d| == 2 {
      RoundTripTwoBytes(d);
    } else if |d| >= 3 {
      DecodeGroupsRoundTrip(d[3..]);
      RoundTripGroup(d);
    }
  }

  /** One step of the round trip: the first three bytes come back from the first
      four characters, the rest from the rest. */
  lemma RoundTripGroup(d: seq<byte>)
    requires |d| >= 3 && DecodeGroups(Base64Url(d[3..])) == d[3..]
    ensures DecodeGroups(Base64Url(d)) == d
  {
    EncodeGroup(d);
    GroupRoundTrip(d[0], d[1], d[2]);
    DecodeGroupOf(d, Base64Url(d), Base64Url(d[3..]), Symbol(d[0] / 4), Symbol(d[0] % 4 * 16 + d[1] / 16),
                  Symbol(d[1] % 16 * 4 + d[2] / 64), Symbol(d[2] % 64));
  }

  /** The encoder writes three bytes as four characters, then the rest. */
  lemma EncodeGroup(d: seq<byte>)
    requires |d| >= 3
    ensures Base64Url(d) == [Symbol(d[0] / 4), Symbol(d[0] % 4 * 16 + d[1] / 16),
                             Symbol(d[1] % 16 * 4 + d[2] / 64), Symbol(d[2] % 64)] + Base64Url(d[3..])
  {
  }

  /** Text that starts with four characters carrying the first three bytes of d,
      followed by text carrying the rest of d, decodes to d. */
  lemma DecodeGroupOf(d: seq<byte>, s: string, r: string, c0: char, c1: char, c2: char, c3: char)
    requires |d| >= 3 && s == [c0, c1, c2, c3] + r && DecodeGroups(r) == d[3..]
    requires Byte0(c0, c1) == d[0] && Byte1(c1, c2) == d[1] && Byte2(c2, c3) == d[2]
    ensures DecodeGroups(s) == d
  {
    DecodeGroupStep(s, r, c0, c1, c2, c3);
    assert [d[0], d[1], d[2]] + d[3..] == d;
  }

  /** A final single byte is written as two characters and read back from them. */
  lemma RoundTripOneByte(d: seq<byte>)
    requires |d| == 1
    ensures DecodeGroups(Base64Url(d)) == d
  {
    var c0, c1 := Symbol(d[0] / 4), Symbol(d[0] % 4 * 16);
    assert Base64Url(d) == [c0, c1];
    GroupRoundTrip(d[0], 0, 0);
    DecodeShortGroup(d, Base64Url(d), c0, c1, c1);
  }

  /** A final pair of bytes is written as three characters and read back from them. */
  lemma RoundTripTwoBytes(d: seq<byte>)
    requires |d| == 2
    ensures DecodeGroups(Base64Url(d)) == d
  {
    var c0, c1, c2 := Symbol(d[0] / 4), Symbol(d[0] % 4 * 16 + d[1] / 16), Symbol(d[1] % 16 * 4);
    assert Base64Url(d) == [c0, c1, c2];
    GroupRoundTrip(d[0], d[1], 0);
    DecodeShortGroup(d, Base64Url(d), c0, c1, c2);
  }

  /** Two or three characters carrying one or two bytes decode to them. */
  lemma DecodeShortGroup(d: seq<byte>, s: string, c0: char, c1: char, c2: char)
    requires |d| == 1 ==> s == [c0, c1] && Byte0(c0, c1) == d[0]
    requires |d| == 2 ==> s == [c0, c1, c2] && Byte0(c0, c1) == d[0] && Byte1(c1, c2) == d[1]
    requires |d| == 1 || |d| == 2
    ensures DecodeGroups(s) == d
  {
  }

  /** Decoding reads a leading group of four characters as three bytes and goes
      on with the rest. */
  lemma DecodeGroupStep(s: string, r: string, c0: char, c1: char, c2: char, c3: char)
    requires s == [c0, c1, c2, c3] + r
    ensures DecodeGroups(s) == [Byte0(c0, c1), Byte1(c1, c2), Byte2(c2, c3)] + DecodeGroups(r)
  {
    assert s[0] == c0 && s[1] == c1 && s[2] == c2 && s[3] == c3 && s[4..] == r;
  }

  /** Distinct digests give distinct token texts. */
  lemma Base64UrlInjective(d1: seq<byte>, d2: seq<byte>)
    ensures Base64Url(d1) == Base64Url(d2) ==> d1 == d2
  {
    Base64UrlRoundTrip(d1);
    Base64UrlRoundTrip(d2);
  }
}
