/**
 * `urllib.parse.quote(s)` with its default `safe='/'`, which the handler uses
 * twice on the object key: for the download URL in the record and for the
 * CDN path it invalidates. The text is encoded as UTF-8; each byte that is an
 * ASCII letter, digit, one of `_.-~` or `/` stands for itself, and every other
 * byte becomes `%XX` with upper-case hexadecimal digits (section 2.1 of
 * RFC 3986).
 */
module UrlQuote {
  import opened Wrappers

  type Byte = x: int | 0 <= x < 256

  /** The bytes `quote` leaves as they are. */
  predicate IsSafe(b: int)
  {
    || ('A' as int <= b <= 'Z' as int)
    || ('a' as int <= b <= 'z' as int)
    || ('0' as int <= b <= '9' as int)
    || b == '_' as int || b == '.' as int || b == '-' as int || b == '~' as int
    || b == '/' as int
  }

  /** The upper-case hexadecimal digits `quote` writes after a `%`. */
  const HexDigits: string := "0123456789ABCDEF"

  predicate IsHexDigit(c: char)
  {
    ('0' <= c <= '9') || ('A' <= c <= 'F')
  }

  /** Every character `quote` can produce. */
  predicate IsUrlChar(c: char)
  {
    IsSafe(c as int) || c == '%' || IsHexDigit(c)
  }

  /** The UTF-8 encoding of one Unicode scalar value. */
  function EncodeChar(c: char): (bs: seq<Byte>)
    ensures 1 <= |bs| <= 4
    ensures |bs| == 1 <==> c as int < 0x80
    ensures |bs| == 1 ==> bs[0] == c as int
    ensures |bs| > 1 ==> bs[0] >= 0xC0 && forall i | 1 <= i < |bs| :: 0x80 <= bs[i] < 0xC0
  {
    var cp := c as int;
    if cp < 0x80 then [cp]
    else if cp < 0x800 then [0xC0 + cp / 0x40, 0x80 + cp % 0x40]
    else if cp < 0x1_0000 then [0xE0 + cp / 0x1000, 0x80 + (cp / 0x40) % 0x40, 0x80 + cp % 0x40]
    else [0xF0 + cp / 0x4_0000, 0x80 + (cp / 0x1000) % 0x40, 0x80 + (cp / 0x40) % 0x40, 0x80 + cp % 0x40]
  }

  /** `s.encode("utf-8")`; no scalar value fails to encode. */
  function Utf8(s: string): (bs: seq<Byte>)
    ensures |bs| >= |s|
  {
    if s == [] then [] else EncodeChar(s[0]) + Utf8(s[1..])
  }

  /** One byte as `quote` writes it. */
  function QuoteByte(b: Byte): (t: string)
    ensures IsSafe(b) ==> t == [b as char]
    ensures !IsSafe(b) ==> |t| == 3 && t[0] == '%' && IsHexDigit(t[1]) && IsHexDigit(t[2])
  {
    if IsSafe(b) then [b as char] else ['%', HexDigits[b / 16], HexDigits[b % 16]]
  }

  /** `quote_from_bytes(bs, safe='/')`. */
  function QuoteBytes(bs: seq<Byte>): (t: string)
    ensures |t| >= |bs|
    ensures forall i | 0 <= i < |t| :: IsUrlChar(t[i])
  {
    if bs == [] then [] else QuoteByte(bs[0]) + QuoteBytes(bs[1..])
  }

  /** `quote(s)`, with `safe='/'` and the UTF-8 encoding. */
  function Quote(s: string): (t: string)
    ensures forall i | 0 <= i < |t| :: IsUrlChar(t[i])
    ensures '"' !in t && '<' !in t && '>' !in t
  {
    QuoteBytes(Utf8(s))
  }

  function HexValue(c: char): (v: nat)
    requires IsHexDigit(c)
    ensures v < 16 && HexDigits[v] == c
  {
    if c <= '9' then c as int - '0' as int else c as int - 'A' as int + 10
  }

  /**
   * Percent-decoding to bytes, the inverse of `QuoteBytes`: `%XX` becomes the
   * byte XX and any other ASCII character its own code. Text `quote` could not
   * have produced (a `%` without two hexadecimal digits, a character beyond
   * ASCII) decodes to `None`.
   */
  function PercentDecode(t: string): (r: Option<seq<Byte>>)
    ensures r.Some? ==> |r.value| <= |t|
  {
    if t == [] then Some([])
    else if t[0] == '%' then
      if |t| >= 3 && IsHexDigit(t[1]) && IsHexDigit(t[2]) then
        match PercentDecode(t[3..])
        case None => None
        case Some(rest) => Some([HexValue(t[1]) * 16 + HexValue(t[2])] + rest)
      else None
    else if t[0] as int < 0x80 then
      match PercentDecode(t[1..])
      case None => None
      case Some(rest) => Some([t[0] as int] + rest)
    else None
  }

  /** Decoding the quoted form of one byte, followed by more text. */
  lemma DecodeQuotedByte(b: Byte, rest: string)
    ensures PercentDecode(QuoteByte(b) + rest)
         == match PercentDecode(rest)
            case None => None
            case Some(bs) => Some([b] + bs)
  {
    var t := QuoteByte(b) + rest;
    if IsSafe(b) {
      assert t[0] == b as char && t[0] as int == b;
      assert t[1..] == rest;
    } else {
      assert t[3..] == rest;
      var hi, lo := HexValue(t[1]), HexValue(t[2]);
      HexDigitsDistinct(hi, b / 16);
      HexDigitsDistinct(lo, b % 16);
      assert hi * 16 + lo == b;
    }
  }

  /** Quoting loses nothing: decoding the quoted bytes gives them back. */
  lemma {:induction false} PercentDecodeQuoteBytes(bs: seq<Byte>)
    ensures PercentDecode(QuoteBytes(bs)) == Some(bs)
  {
    if bs != [] {
      PercentDecodeQuoteBytes(bs[1..]);
      DecodeQuotedByte(bs[0], QuoteBytes(bs[1..]));
      assert bs == [bs[0]] + bs[1..];
    }
  }

  lemma HexDigitsDistinct(i: nat, j: nat)
    requires i < 16 && j < 16 && HexDigits[i] == HexDigits[j]
    ensures i == j
  {
  }

  /** The URL of a key can be decoded back to the key's UTF-8 bytes. */
  lemma QuoteRoundTrip(s: string)
    ensures PercentDecode(Quote(s)) == Some(Utf8(s))
  {
    PercentDecodeQuoteBytes(Utf8(s));
  }

  /** A key made only of safe ASCII characters is its own quoted form. */
  lemma {:induction false} QuoteOfSafeText(s: string)
    requires forall i | 0 <= i < |s| :: IsSafe(s[i] as int)
    ensures Quote(s) == s
  {
    if s != [] {
      assert s[0] as int < 0x80;
      QuoteOfSafeText(s[1..]);
      assert Utf8(s) == [s[0] as int] + Utf8(s[1..]);
      assert QuoteBytes(Utf8(s)) == QuoteByte(s[0] as int) + QuoteBytes(Utf8(s[1..]));
    }
  }

  lemma {:induction false} Utf8Concat(a: string, b: string)
    ensures Utf8(a + b) == Utf8(a) + Utf8(b)
  {
    if a == [] {
      assert a + b == b;
    } else {
      assert (a + b)[1..] == a[1..] + b;
      Utf8Concat(a[1..], b);
    }
  }

  lemma {:induction false} QuoteBytesConcat(a: seq<Byte>, b: seq<Byte>)
    ensures QuoteBytes(a + b) == QuoteBytes(a) + QuoteBytes(b)
  {
    if a == [] {
      assert a + b == b;
    } else {
      assert (a + b)[1..] == a[1..] + b;
      QuoteBytesConcat(a[1..], b);
    }
  }

  /** Quoting works piece by piece: the quoted form of a concatenation is the concatenation of the quoted forms. */
  lemma QuoteConcat(a: string, b: string)
    ensures Quote(a + b) == Quote(a) + Quote(b)
  {
    Utf8Concat(a, b);
    QuoteBytesConcat(Utf8(a), Utf8(b));
  }

  /** A key of letters, dots and slashes is used as it is. */
  lemma QuoteSafeKeyExample()
    ensures Quote("mods/Foo.zip") == "mods/Foo.zip"
  {
    QuoteOfSafeText("mods/Foo.zip");
  }

  /** A space is the typical character outside the safe set: it becomes `%20`. */
  lemma QuoteSpaceExample()
    ensures Quote(" ") == "%20"
  {
    assert Utf8(" ") == [32];
    assert QuoteBytes([32]) == "%20";
  }
}
