/**
 * Python's `urllib.parse.quote(s)` with its default `safe='/'`: the string is
 * encoded as UTF-8 and every byte outside the unreserved characters of
 * section 2.3 of RFC 3986 and '/' becomes a `%XX` escape with upper-case hex
 * digits (section 2.1 of RFC 3986).
 */
module PercentEncoding {
  import opened Common

  type Byte = b: int | 0 <= b < 256

  /** Unicode scalar values, i.e. the values Dafny's `char` can hold. */
  predicate IsScalarValue(cp: int) {
    (0 <= cp < 0xD800) || (0xE000 <= cp < 0x11_0000)
  }

  /** UTF-8 encoding of one character (section 3 of RFC 3629). */
  function EncodeChar(c: char): (r: seq<Byte>)
    ensures 1 <= |r| <= 4
    ensures (c as int < 0x80) <==> (|r| == 1)
    ensures |r| == 1 ==> r[0] == c as int
    ensures (0x80 <= c as int < 0x800) <==> (|r| == 2)
    ensures (0x800 <= c as int < 0x1_0000) <==> (|r| == 3)
    ensures |r| > 1 ==> r[0] >= 0xC0 && forall i :: 1 <= i < |r| ==> 0x80 <= r[i] < 0xC0
  {
    var cp := c as int;
    if cp < 0x80 then [cp]
    else if cp < 0x800 then [0xC0 + cp / 64, 0x80 + cp % 64]
    else if cp < 0x1_0000 then [0xE0 + cp / 4096, 0x80 + (cp / 64) % 64, 0x80 + cp % 64]
    else [0xF0 + cp / 262144, 0x80 + (cp / 4096) % 64, 0x80 + (cp / 64) % 64, 0x80 + cp % 64]
  }

  function Utf8(s: string): (bytes: seq<Byte>)
    decreases |s|
  {
    if |s| == 0 then [] else EncodeChar(s[0]) + Utf8(s[1..])
  }

  /** The number of bytes a UTF-8 sequence starting with `lead` occupies, if it is a lead byte. */
  function SequenceLength(lead: Byte): nat {
    if lead < 0x80 then 1
    else if 0xC0 <= lead < 0xE0 then 2
    else if 0xE0 <= lead < 0xF0 then 3
    else if 0xF0 <= lead < 0xF8 then 4
    else 0
  }

  /** The code point of one well-formed UTF-8 sequence of length 1 to 4. */
  function CodePoint(bs: seq<Byte>): int
    requires 1 <= |bs| <= 4
  {
    if |bs| == 1 then bs[0]
    else if |bs| == 2 then (bs[0] as int - 0xC0) * 64 + (bs[1] as int - 0x80)
    else if |bs| == 3 then (bs[0] as int - 0xE0) * 4096 + (bs[1] as int - 0x80) * 64 + (bs[2] as int - 0x80)
    else (bs[0] as int - 0xF0) * 262144 + (bs[1] as int - 0x80) * 4096 + (bs[2] as int - 0x80) * 64 + (bs[3] as int - 0x80)
  }

  /** The smallest code point a sequence of `n` bytes may carry; a smaller one is an overlong form. */
  function MinCodePoint(n: nat): int {
    if n <= 1 then 0 else if n == 2 then 0x80 else if n == 3 then 0x800 else 0x1_0000
  }

  /** Every byte after the lead byte is a continuation byte `10xxxxxx`. */
  predicate ContinuationBytes(bs: seq<Byte>) {
    forall i :: 1 <= i < |bs| ==> 0x80 <= bs[i] < 0xC0
  }

  /**
   * UTF-8 decoding; `None` when the bytes are not the encoding of a string:
   * a bad lead byte, a truncated sequence, a bad continuation byte, an
   * overlong form, a surrogate or a value past U+10FFFF.
   */
  function DecodeUtf8(bs: seq<Byte>): (s: Option<string>)
    decreases |bs|
  {
    if |bs| == 0 then Some([])
    else
      var n := SequenceLength(bs[0]);
      if n == 0 || |bs| < n then None
      else
        var cp := CodePoint(bs[..n]);
        if !ContinuationBytes(bs[..n]) || cp < MinCodePoint(n) || !IsScalarValue(cp) then None
        else match DecodeUtf8(bs[n..])
          case None => None
          case Some(rest) => Some([cp as char] + rest)
  }

  lemma EncodeCharCodePoint(c: char)
    ensures SequenceLength(EncodeChar(c)[0]) == |EncodeChar(c)|
    ensures CodePoint(EncodeChar(c)) == c as int
  {
    var cp := c as int;
    if cp >= 0x1_0000 {
      assert cp == (cp / 262144) * 262144 + ((cp / 4096) % 64) * 4096 + ((cp / 64) % 64) * 64 + cp % 64 by {
        assert cp == (cp / 64) * 64 + cp % 64;
        assert cp / 64 == ((cp / 64) / 64) * 64 + (cp / 64) % 64;
        assert (cp / 64) / 64 == cp / 4096;
        assert cp / 4096 == ((cp / 4096) / 64) * 64 + (cp / 4096) % 64;
        assert (cp / 4096) / 64 == cp / 262144;
      }
    } else if cp >= 0x800 {
      assert cp == (cp / 4096) * 4096 + ((cp / 64) % 64) * 64 + cp % 64 by {
        assert cp == (cp / 64) * 64 + cp % 64;
        assert cp / 64 == ((cp / 64) / 64) * 64 + (cp / 64) % 64;
        assert (cp / 64) / 64 == cp / 4096;
      }
    }
  }

  /** UTF-8 decoding undoes the encoding, so distinct strings have distinct encodings. */
  lemma {:induction false} Utf8RoundTrip(s: string)
    ensures DecodeUtf8(Utf8(s)) == Some(s)
    decreases |s|
  {
    if |s| > 0 {
      var head := EncodeChar(s[0]);
      var bs := Utf8(s);
      EncodeCharCodePoint(s[0]);
      assert bs[..|head|] == head;
      assert bs[|head|..] == Utf8(s[1..]);
      Utf8RoundTrip(s[1..]);
      assert [s[0]] + s[1..] == s;
    }
  }

  lemma Utf8Injective(s: string, t: string)
    ensures Utf8(s) == Utf8(t) <==> s == t
  {
    Utf8RoundTrip(s);
    Utf8RoundTrip(t);
  }

  /** Bytes `quote` never escapes: ASCII letters, digits, `_.-~` and the `safe` default '/'. */
  predicate IsSafe(b: Byte) {
    || ('A' as int <= b <= 'Z' as int)
    || ('a' as int <= b <= 'z' as int)
    || ('0' as int <= b <= '9' as int)
    || b == '_' as int || b == '.' as int || b == '-' as int || b == '~' as int
    || b == '/' as int
  }

  predicate IsSafeChar(c: char) {
    c as int < 256 && IsSafe(c as int)
  }

  predicate IsHexDigit(c: char) {
    ('0' <= c <= '9') || ('A' <= c <= 'F')
  }

  /** Every character `quote` may emit. */
  predicate IsQuotedChar(c: char) {
    IsSafeChar(c) || c == '%' || IsHexDigit(c)
  }

  function HexChar(d: int): (c: char)
    requires 0 <= d < 16
    ensures IsHexDigit(c)
  {
    if d < 10 then ('0' as int + d) as char else ('A' as int + d - 10) as char
  }

  function HexValue(c: char): (d: int)
    requires IsHexDigit(c)
    ensures 0 <= d < 16
  {
    if c <= '9' then c as int - '0' as int else c as int - 'A' as int + 10
  }

  function QuoteByte(b: Byte): (r: string)
    ensures forall i :: 0 <= i < |r| ==> IsQuotedChar(r[i])
  {
    if IsSafe(b) then [b as char] else ['%', HexChar(b / 16), HexChar(b % 16)]
  }

  function QuoteBytes(bs: seq<Byte>): (r: string)
    ensures forall i :: 0 <= i < |r| ==> IsQuotedChar(r[i])
    decreases |bs|
  {
    if |bs| == 0 then "" else QuoteByte(bs[0]) + QuoteBytes(bs[1..])
  }

  /**
   * `quote(s)`. Its output alphabet holds no ')', space or newline, so the
   * link target of a Markdown citation cannot be cut short by a file name.
   */
  function Quote(s: string): (r: string)
    ensures forall i :: 0 <= i < |r| ==> IsQuotedChar(r[i])
    ensures ')' !in r && ' ' !in r && '\n' !in r
  {
    QuoteBytes(Utf8(s))
  }

  /** Percent-decoding to bytes: `%XX` escapes and plain ASCII characters. */
  function PercentDecode(s: string): (bytes: Option<seq<Byte>>)
    decreases |s|
  {
    if |s| == 0 then Some([])
    else if s[0] == '%' then
      if |s| >= 3 && IsHexDigit(s[1]) && IsHexDigit(s[2]) then
        match PercentDecode(s[3..])
        case None => None
        case Some(rest) => Some([HexValue(s[1]) * 16 + HexValue(s[2])] + rest)
      else None
    else if s[0] as int < 128 then
      match PercentDecode(s[1..])
      case None => None
      case Some(rest) => Some([s[0] as int] + rest)
    else None
  }

  lemma HexRoundTrip(d: int)
    requires 0 <= d < 16
    ensures HexValue(HexChar(d)) == d
  {
  }

  lemma {:induction false} QuoteBytesRoundTrip(bs: seq<Byte>)
    ensures PercentDecode(QuoteBytes(bs)) == Some(bs)
    decreases |bs|
  {
    if |bs| > 0 {
      var b := bs[0];
      var q := QuoteBytes(bs);
      QuoteBytesRoundTrip(bs[1..]);
      if IsSafe(b) {
        assert q[1..] == QuoteBytes(bs[1..]);
      } else {
        assert q[3..] == QuoteBytes(bs[1..]);
        HexRoundTrip(b / 16);
        HexRoundTrip(b % 16);
      }
      assert [b] + bs[1..] == bs;
    }
  }

  /** Percent-decoding a quoted file name and decoding the bytes as UTF-8 gives the name back. */
  lemma QuoteRoundTrip(s: string)
    ensures PercentDecode(Quote(s)) == Some(Utf8(s))
    ensures DecodeUtf8(PercentDecode(Quote(s)).value) == Some(s)
  {
    QuoteBytesRoundTrip(Utf8(s));
    Utf8RoundTrip(s);
  }

  /** Distinct file names get distinct links. */
  lemma QuoteInjective(s: string, t: string)
    ensures Quote(s) == Quote(t) <==> s == t
  {
    QuoteRoundTrip(s);
    QuoteRoundTrip(t);
  }

  /** A name made only of safe characters is left as it is. */
  lemma {:induction false} QuoteKeepsSafeNames(s: string)
    requires forall i :: 0 <= i < |s| ==> IsSafeChar(s[i])
    ensures Quote(s) == s
    decreases |s|
  {
    if |s| > 0 {
      QuoteKeepsSafeNames(s[1..]);
      assert Utf8(s) == [s[0] as int] + Utf8(s[1..]);
      assert QuoteBytes(Utf8(s))[1..] == QuoteBytes(Utf8(s[1..]));
      assert [s[0]] + s[1..] == s;
    }
  }

  /** The overlong three-byte form of U+0100 is not UTF-8: only the two-byte form C4 80 is. */
  lemma OverlongRejected()
    ensures DecodeUtf8([0xE0, 0x84, 0x80]) == None
    ensures EncodeChar('\U{100}') == [0xC4, 0x80]
  {
    assert CodePoint([0xE0, 0x84, 0x80]) == 0x100;
  }

  /** An accented letter is escaped byte by byte: `quote("é")` is `%C3%A9`. */
  lemma QuoteAccentedLetter()
    ensures Utf8("\U{E9}") == [0xC3, 0xA9]
    ensures Quote("\U{E9}") == "%C3%A9"
  {
    assert Utf8("\U{E9}") == EncodeChar('\U{E9}') + Utf8([]);
    assert QuoteBytes([0xC3, 0xA9]) == QuoteByte(0xC3) + QuoteBytes([0xA9]);
    assert QuoteBytes([0xA9]) == QuoteByte(0xA9) + QuoteBytes([]);
  }
}
