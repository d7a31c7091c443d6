/** `urllib.parse.quote(s)` with its default `safe='/'`, which the add-on uses to
    put words into URLs: the string is encoded as UTF-8, and every byte other
    than an ASCII letter, digit, `_`, `.`, `-`, `~` or `/` is written as `%XX`
    with upper-case hexadecimal digits. A strict decoder is defined alongside,
    as the inverse that shows the quoting loses nothing. */
module UrlQuote {
  import opened Wrappers
  import opened Text

  type Byte = b: int | 0 <= b < 256

  /** The characters `quote` leaves as they are. */
  predicate IsSafeChar(c: char) {
    IsAlnum(c) || c == '_' || c == '.' || c == '-' || c == '~' || c == '/'
  }

  /** The bytes `quote` leaves as they are: the safe characters are all ASCII. */
  predicate IsSafeByte(b: Byte) {
    b < 128 && IsSafeChar(b as char)
  }

  // ---------------------------------------------------------------------------
  // UTF-8
  // ---------------------------------------------------------------------------

  /** The UTF-8 encoding of one code point (`c.encode("utf-8")`). */
  function Utf8Char(c: char): (bs: seq<Byte>)
    ensures 1 <= |bs| <= 4
    ensures |bs| == 1 <==> c as int < 0x80
    ensures |bs| == 1 ==> bs[0] == c as int
  {
    var v := c as int;
    if v < 0x80 then [v]
    else if v < 0x800 then [0xC0 + v / 0x40, 0x80 + v % 0x40]
    else if v < 0x1_0000 then [0xE0 + v / 0x1000, 0x80 + (v / 0x40) % 0x40, 0x80 + v % 0x40]
    else [0xF0 + v / 0x4_0000, 0x80 + (v / 0x1000) % 0x40, 0x80 + (v / 0x40) % 0x40, 0x80 + v % 0x40]
  }

  /** The UTF-8 encoding of a string (`s.encode("utf-8")`). */
  function Utf8(s: string): seq<Byte>
    decreases |s|
  {
    if |s| == 0 then [] else Utf8Char(s[0]) + Utf8(s[1..])
  }

  /** Number of bytes of the UTF-8 sequence a lead byte starts, or 0 for a byte
      that cannot start one. */
  function SequenceLength(lead: Byte): nat {
    if lead < 0x80 then 1
    else if 0xC0 <= lead < 0xE0 then 2
    else if 0xE0 <= lead < 0xF0 then 3
    else if 0xF0 <= lead < 0xF8 then 4
    else 0
  }

  predicate IsContinuation(b: Byte) {
    0x80 <= b < 0xC0
  }

  /** The code point an integer names, when it is a Unicode scalar value. */
  function ToChar(v: int): Option<char> {
    if 0 <= v < 0xD800 || 0xE000 <= v < 0x11_0000 then Some(v as char) else None
  }

  /** The code point of one UTF-8 sequence, whose length `SequenceLength` gives. */
  function DecodeSequence(bs: seq<Byte>): Option<char>
    requires |bs| > 0 && |bs| == SequenceLength(bs[0])
  {
    if forall i :: 1 <= i < |bs| ==> IsContinuation(bs[i]) then
      var b: seq<int> := bs;
      if |b| == 1 then ToChar(b[0])
      else if |b| == 2 then ToChar((b[0] - 0xC0) * 0x40 + (b[1] - 0x80))
      else if |b| == 3 then
        ToChar((b[0] - 0xE0) * 0x1000 + (b[1] - 0x80) * 0x40 + (b[2] - 0x80))
      else
        ToChar((b[0] - 0xF0) * 0x4_0000 + (b[1] - 0x80) * 0x1000 + (b[2] - 0x80) * 0x40 + (b[3] - 0x80))
    else None
  }

  /** A UTF-8 decoder (`bs.decode("utf-8")`, failing where Python would raise). */
  function Utf8Decode(bs: seq<Byte>): Option<string>
    decreases |bs|
  {
    if |bs| == 0 then Some("")
    else
      var n := SequenceLength(bs[0]);
      if n == 0 || |bs| < n then None
      else match (DecodeSequence(bs[..n]), Utf8Decode(bs[n..]))
        case (Some(c), Some(rest)) => Some([c] + rest)
        case _ => None
  }

  // ---------------------------------------------------------------------------
  // Percent-encoding
  // ---------------------------------------------------------------------------

  const HexDigits: string := "0123456789ABCDEF"

  /** One byte as `quote` writes it. */
  function QuoteByte(b: Byte): string {
    if IsSafeByte(b) then [b as char] else ['%', HexDigits[b / 16], HexDigits[b % 16]]
  }

  /** `urllib.parse.quote_from_bytes(bs, safe='/')`. */
  function QuoteBytes(bs: seq<Byte>): (r: string)
    ensures forall c :: c in r ==> IsSafeChar(c) || c == '%'
    decreases |bs|
  {
    if |bs| == 0 then "" else QuoteByte(bs[0]) + QuoteBytes(bs[1..])
  }

  /** `urllib.parse.quote(s)`: every character of the result is a safe
      character or the `%` of an escape, so in particular none of `&`, `=`,
      `?`, `#` or a space can appear. */
  function Quote(s: string): (r: string)
    ensures forall c :: c in r ==> IsSafeChar(c) || c == '%'
  {
    QuoteBytes(Utf8(s))
  }

  function HexValue(c: char): (v: int)
    ensures 0 <= v < 16
  {
    if '0' <= c <= '9' then c as int - '0' as int
    else if 'A' <= c <= 'F' then c as int - 'A' as int + 10
    else if 'a' <= c <= 'f' then c as int - 'a' as int + 10
    else 0
  }

  predicate IsHexDigit(c: char) {
    ('0' <= c <= '9') || ('A' <= c <= 'F') || ('a' <= c <= 'f')
  }

  /** A strict percent-decoder: `%XX` gives byte `XX`, an ASCII character gives
      its own byte, anything else fails. */
  function PercentDecode(s: string): Option<seq<Byte>>
    decreases |s|
  {
    if |s| == 0 then Some([])
    else if s[0] == '%' then
      if |s| >= 3 && IsHexDigit(s[1]) && IsHexDigit(s[2]) then
        match PercentDecode(s[3..])
        case Some(rest) => Some([HexValue(s[1]) * 16 + HexValue(s[2])] + rest)
        case None => None
      else None
    else if s[0] as int < 128 then
      match PercentDecode(s[1..])
      case Some(rest) => Some([s[0] as int] + rest)
      case None => None
    else None
  }

  /** Decoding a quoted URL component back to the string. */
  function Unquote(s: string): Option<string> {
    match PercentDecode(s)
    case Some(bs) => Utf8Decode(bs)
    case None => None
  }

  // ---------------------------------------------------------------------------
  // Round trips
  // ---------------------------------------------------------------------------

  lemma HexDigitValue(n: int)
    requires 0 <= n < 16
    ensures IsHexDigit(HexDigits[n]) && HexValue(HexDigits[n]) == n
  {
  }

  /** Percent-decoding undoes `quote_from_bytes`. */
  lemma {:induction false} PercentDecodeQuoteBytes(bs: seq<Byte>)
    ensures PercentDecode(QuoteBytes(bs)) == Some(bs)
    decreases |bs|
  {
    if |bs| > 0 {
      PercentDecodeQuoteBytes(bs[1..]);
      PercentDecodeQuoteByte(bs[0], QuoteBytes(bs[1..]), bs[1..]);
      assert bs == [bs[0]] + bs[1..];
    }
  }

  /** Percent-decoding one quoted byte in front of decodable text. */
  lemma PercentDecodeQuoteByte(b: Byte, rest: string, tail: seq<Byte>)
    requires PercentDecode(rest) == Some(tail)
    ensures PercentDecode(QuoteByte(b) + rest) == Some([b] + tail)
  {
    var s := QuoteByte(b) + rest;
    if IsSafeByte(b) {
      assert s[0] == b as char && s[1..] == rest;
    } else {
      HexDigitValue(b / 16);
      HexDigitValue(b % 16);
      assert s[0] == '%' && s[1] == HexDigits[b / 16] && s[2] == HexDigits[b % 16];
      assert s[3..] == rest;
    }
  }

  /** Decoding the UTF-8 encoding of one character gives that character back. */
  lemma DecodeUtf8Char(c: char)
    ensures var bs := Utf8Char(c);
            SequenceLength(bs[0]) == |bs| && DecodeSequence(bs) == Some(c)
  {
    var v := c as int;
    if v < 0x80 {
    } else if v < 0x800 {
      assert (v / 0x40) * 0x40 + v % 0x40 == v;
    } else if v < 0x1_0000 {
      Split3(v);
    } else {
      Split4(v);
    }
  }

  lemma Split3(v: int)
    requires 0 <= v < 0x1_0000
    ensures (v / 0x1000) * 0x1000 + ((v / 0x40) % 0x40) * 0x40 + v % 0x40 == v
  {
    var q := v / 0x40;
    assert q * 0x40 + v % 0x40 == v;
    assert (q / 0x40) * 0x40 + q % 0x40 == q;
    assert q / 0x40 == v / 0x1000;
  }

  lemma Split4(v: int)
    requires 0 <= v < 0x11_0000
    ensures (v / 0x4_0000) * 0x4_0000 + ((v / 0x1000) % 0x40) * 0x1000
            + ((v / 0x40) % 0x40) * 0x40 + v % 0x40 == v
  {
    var q := v / 0x40;
    var p := q / 0x40;
    assert q * 0x40 + v % 0x40 == v;
    assert p * 0x40 + q % 0x40 == q;
    assert (p / 0x40) * 0x40 + p % 0x40 == p;
    assert p == v / 0x1000;
    assert p / 0x40 == v / 0x4_0000;
  }

  /** UTF-8 decoding undoes UTF-8 encoding. */
  lemma {:induction false} Utf8RoundTrip(s: string)
    ensures Utf8Decode(Utf8(s)) == Some(s)
    decreases |s|
  {
    if |s| > 0 {
      var head := Utf8Char(s[0]);
      var bs := Utf8(s);
      DecodeUtf8Char(s[0]);
      Utf8RoundTrip(s[1..]);
      assert bs[..|head|] == head;
      assert bs[|head|..] == Utf8(s[1..]);
      assert s == [s[0]] + s[1..];
    }
  }

  /** `quote` is lossless: the quoted text decodes back to the original string,
      so distinct words give distinct URL components. */
  lemma QuoteRoundTrip(s: string)
    ensures Unquote(Quote(s)) == Some(s)
  {
    PercentDecodeQuoteBytes(Utf8(s));
    Utf8RoundTrip(s);
  }
}
