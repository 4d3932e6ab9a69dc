/**
 * Page addresses.  A page's address is `https://{language}.wikipedia.org/wiki/`
 * followed by `urllib.parse.quote(title)` with its default `safe='/'`:
 * the title is encoded as UTF-8 and every byte outside the unreserved set of
 * section 2.3 of RFC 3986 (letters, digits, `-`, `.`, `_`, `~`) and `/` is
 * written as `%` and two upper-case hexadecimal digits (section 2.1 of RFC 3986).
 */
module UrlQuote {

  type Byte = b: int | 0 <= b < 256

  // ------------------------------------------------------------------
  // UTF-8
  // ------------------------------------------------------------------

  /** The UTF-8 encoding of one Unicode scalar value (section 3 of RFC 3629). */
  function Utf8(c: char): (r: seq<Byte>)
    ensures 1 <= |r| <= 4
    ensures (|r| == 1) == (c as int < 0x80)
    ensures |r| == 1 ==> r[0] == c as int
    ensures forall i :: 1 <= i < |r| ==> 0x80 <= r[i] < 0xC0
  {
    var cp := c as int;
    var q1, r0 := cp / 64, cp % 64;
    var q2, r1 := q1 / 64, q1 % 64;
    var q3, r2 := q2 / 64, q2 % 64;
    if cp < 0x80 then [cp]
    else if cp < 0x800 then [0xC0 + q1, 0x80 + r0]
    else if cp < 0x10000 then [0xE0 + q2, 0x80 + r1, 0x80 + r0]
    else [0xF0 + q3, 0x80 + r2, 0x80 + r1, 0x80 + r0]
  }

  /** The UTF-8 encoding of a string, character by character. */
  function Utf8Encode(s: string): (r: seq<Byte>)
    ensures |r| >= |s|
  {
    if |s| == 0 then [] else Utf8(s[0]) + Utf8Encode(s[1..])
  }

  /** The number of bytes a sequence starting with lead byte `b` occupies. */
  function SequenceLength(b: Byte): (n: nat)
    ensures 1 <= n <= 4
  {
    if b < 0x80 then 1 else if b < 0xE0 then 2 else if b < 0xF0 then 3 else 4
  }

  /** The code point carried by one complete byte sequence. */
  function CodePointOf(u: seq<Byte>): int
    requires 1 <= |u| <= 4
  {
    if |u| == 1 then u[0]
    else if |u| == 2 then (u[0] as int - 0xC0) * 64 + (u[1] as int - 0x80)
    else if |u| == 3 then (u[0] as int - 0xE0) * 4096 + (u[1] as int - 0x80) * 64 + (u[2] as int - 0x80)
    else (u[0] as int - 0xF0) * 262144 + (u[1] as int - 0x80) * 4096 + (u[2] as int - 0x80) * 64 + (u[3] as int - 0x80)
  }

  /** Decodes a byte sequence into code points; a truncated tail is dropped. */
  function Utf8Decode(b: seq<Byte>): seq<int>
    decreases |b|
  {
    if |b| == 0 then []
    else
      var n := SequenceLength(b[0]);
      if n > |b| then [] else [CodePointOf(b[..n])] + Utf8Decode(b[n..])
  }

  /** The code points of a string. */
  function CodePoints(s: string): (r: seq<int>)
    ensures |r| == |s|
    ensures forall i :: 0 <= i < |s| ==> r[i] == s[i] as int
  {
    seq(|s|, i requires 0 <= i < |s| => s[i] as int)
  }

  /** The lead byte of a character's encoding announces its length, and the bytes give back the code point. */
  lemma Utf8DecodesOne(c: char)
    ensures SequenceLength(Utf8(c)[0]) == |Utf8(c)|
    ensures CodePointOf(Utf8(c)) == c as int
  {
  }

  /** Decoding the encoding of a string gives back its code points. */
  lemma {:induction false} Utf8RoundTrip(s: string)
    ensures Utf8Decode(Utf8Encode(s)) == CodePoints(s)
  {
    if |s| > 0 {
      var u, rest := Utf8(s[0]), Utf8Encode(s[1..]);
      Utf8DecodesOne(s[0]);
      assert (u + rest)[0] == u[0];
      assert (u + rest)[..|u|] == u;
      assert (u + rest)[|u|..] == rest;
      Utf8RoundTrip(s[1..]);
      assert CodePoints(s) == [s[0] as int] + CodePoints(s[1..]);
    }
  }

  /** Strings with the same code points are the same string. */
  lemma CodePointsInjective(s: string, t: string)
    requires CodePoints(s) == CodePoints(t)
    ensures s == t
  {
    assert |s| == |t|;
    forall i | 0 <= i < |s|
      ensures s[i] == t[i]
    {
      assert CodePoints(s)[i] == CodePoints(t)[i];
    }
  }

  /** Different strings have different UTF-8 encodings. */
  lemma Utf8EncodeInjective(s: string, t: string)
    requires Utf8Encode(s) == Utf8Encode(t)
    ensures s == t
  {
    Utf8RoundTrip(s);
    Utf8RoundTrip(t);
    CodePointsInjective(s, t);
  }

  // ------------------------------------------------------------------
  // Percent-encoding
  // ------------------------------------------------------------------

  /** Unreserved characters of section 2.3 of RFC 3986. */
  predicate Unreserved(c: char)
  {
    ('A' <= c <= 'Z') || ('a' <= c <= 'z') || ('0' <= c <= '9') ||
    c == '-' || c == '.' || c == '_' || c == '~'
  }

  /** Characters `quote` leaves as they are: the unreserved ones and `/`. */
  predicate Safe(c: char)
  {
    Unreserved(c) || c == '/'
  }

  /** An upper-case hexadecimal digit. */
  predicate UpperHex(c: char)
  {
    ('0' <= c <= '9') || ('A' <= c <= 'F')
  }

  function HexDigit(n: int): (c: char)
    requires 0 <= n < 16
    ensures UpperHex(c)
  {
    if n < 10 then ('0' as int + n) as char else ('A' as int + n - 10) as char
  }

  function HexValue(c: char): int
  {
    if '0' <= c <= '9' then c as int - '0' as int
    else if 'A' <= c <= 'F' then c as int - 'A' as int + 10
    else 0
  }

  lemma HexRoundTrip(n: int)
    requires 0 <= n < 16
    ensures HexValue(HexDigit(n)) == n
  {
  }

  /** One byte: itself when it is a safe ASCII character, `%XX` otherwise. */
  function PercentEncodeByte(b: Byte): (r: string)
    ensures |r| == 1 || |r| == 3
    ensures |r| == 1 <==> b < 0x80 && Safe(b as char)
    ensures |r| == 1 ==> r[0] as int == b
    ensures |r| == 3 ==> r[0] == '%' && UpperHex(r[1]) && UpperHex(r[2])
  {
    if b < 0x80 && Safe(b as char) then [b as char]
    else ['%', HexDigit(b / 16), HexDigit(b % 16)]
  }

  /** A character that may appear in the output of `quote`. */
  predicate QuotedChar(c: char)
  {
    Safe(c) || c == '%' || UpperHex(c)
  }

  function PercentEncode(b: seq<Byte>): (r: string)
    ensures |r| >= |b|
    ensures forall i :: 0 <= i < |r| ==> QuotedChar(r[i])
  {
    if |b| == 0 then [] else PercentEncodeByte(b[0]) + PercentEncode(b[1..])
  }

  /** Reads `%XX` as one byte and any other character as its own code. */
  function PercentDecode(s: string): seq<int>
    decreases |s|
  {
    if |s| == 0 then []
    else if s[0] == '%' && |s| >= 3 then [HexValue(s[1]) * 16 + HexValue(s[2])] + PercentDecode(s[3..])
    else [s[0] as int] + PercentDecode(s[1..])
  }

  lemma PercentDecodesOne(b: Byte, rest: string)
    ensures PercentDecode(PercentEncodeByte(b) + rest) == [b] + PercentDecode(rest)
  {
    var e := PercentEncodeByte(b);
    if |e| == 1 {
      assert (e + rest)[1..] == rest;
    } else {
      HexRoundTrip(b / 16);
      HexRoundTrip(b % 16);
      assert (e + rest)[3..] == rest;
    }
  }

  /** Percent-decoding undoes percent-encoding. */
  lemma {:induction false} PercentRoundTrip(b: seq<Byte>)
    ensures PercentDecode(PercentEncode(b)) == b
  {
    if |b| > 0 {
      PercentDecodesOne(b[0], PercentEncode(b[1..]));
      PercentRoundTrip(b[1..]);
      assert b == [b[0]] + b[1..];
    }
  }

  // ------------------------------------------------------------------
  // quote and the page address
  // ------------------------------------------------------------------

  /** `urllib.parse.quote(s)` with the default `safe='/'` and UTF-8. */
  function Quote(s: string): (r: string)
    ensures |r| >= |s|
    ensures forall i :: 0 <= i < |r| ==> QuotedChar(r[i])
  {
    PercentEncode(Utf8Encode(s))
  }

  /** Different titles are quoted differently. */
  lemma QuoteInjective(s: string, t: string)
    requires Quote(s) == Quote(t)
    ensures s == t
  {
    PercentRoundTrip(Utf8Encode(s));
    PercentRoundTrip(Utf8Encode(t));
    Utf8EncodeInjective(s, t);
  }

  /** A title made only of safe characters is its own quotation. */
  lemma {:induction false} QuoteSafeUnchanged(s: string)
    requires forall i :: 0 <= i < |s| ==> Safe(s[i])
    ensures Quote(s) == s
  {
    if |s| > 0 {
      assert s[0] as int < 0x80;
      QuoteSafeUnchanged(s[1..]);
      assert s == [s[0]] + s[1..];
    }
  }

  /** A space becomes `%20`, so a quoted title never contains a space. */
  lemma QuoteSpace()
    ensures Quote(" ") == "%20"
  {
    assert Utf8Encode(" ") == [0x20];
    assert PercentEncodeByte(0x20) == ['%', HexDigit(2), HexDigit(0)];
  }

  /** The address of a page in the given language edition. */
  function PageUrl(language: string, title: string): (r: string)
    ensures |r| >= |title|
  {
    "https://" + language + ".wikipedia.org/wiki/" + Quote(title)
  }

  /** Within one language edition, different titles get different addresses. */
  lemma PageUrlInjective(language: string, s: string, t: string)
    requires PageUrl(language, s) == PageUrl(language, t)
    ensures s == t
  {
    var prefix := "https://" + language + ".wikipedia.org/wiki/";
    assert PageUrl(language, s) == prefix + Quote(s);
    assert PageUrl(language, t) == prefix + Quote(t);
    assert Quote(s) == PageUrl(language, s)[|prefix|..];
    assert Quote(t) == PageUrl(language, t)[|prefix|..];
    QuoteInjective(s, t);
  }

  /** The address ends with the quoted title after the `/wiki/` path. */
  lemma PageUrlShape(language: string, title: string)
    ensures PageUrl(language, title)[..8] == "https://"
    ensures PageUrl(language, title)[|PageUrl(language, title)| - |Quote(title)|..] == Quote(title)
  {
  }
}
