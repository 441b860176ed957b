/**
 * `urllib.parse.quote(v)` with its default `safe='/'`: the string is encoded to UTF-8
 * (RFC 3629) and every byte outside the unreserved set of section 2.3 of RFC 3986 and
 * `/` becomes a percent-encoded octet (section 2.1 of RFC 3986, upper-case hex digits).
 * The decoders here are reference inverses used to state what the encoding preserves.
 */
module PercentEncoding {
  import opened Wrappers

  type Byte = b: int | 0 <= b < 256

  // ---------------------------------------------------------------- UTF-8

  /** The UTF-8 encoding of one Unicode scalar value. */
  function EncodeChar(c: char): (bs: seq<Byte>)
    ensures 1 <= |bs| <= 4
    ensures (|bs| == 1) == (c as int < 0x80)
  {
    var cp := c as int;
    if cp < 0x80 then [cp]
    else if cp < 0x800 then [0xC0 + cp / 64, 0x80 + cp % 64]
    else if cp < 0x1_0000 then [0xE0 + cp / 4096, 0x80 + cp / 64 % 64, 0x80 + cp % 64]
    else [0xF0 + cp / 262144, 0x80 + cp / 4096 % 64, 0x80 + cp / 64 % 64, 0x80 + cp % 64]
  }

  /** `s.encode("utf-8")`. */
  function Utf8Encode(s: string): seq<Byte>
    decreases |s|
  {
    if s == [] then [] else EncodeChar(s[0]) + Utf8Encode(s[1..])
  }

  predicate IsContinuation(b: Byte) { 0x80 <= b < 0xC0 }

  /** The code points a Dafny `char` (a Unicode scalar value) can hold. */
  predicate IsScalarValue(cp: int) { 0 <= cp < 0xD800 || 0xE000 <= cp < 0x11_0000 }

  /**
   * Reads one well-formed UTF-8 sequence from the front of `bs`: the character and the
   * number of bytes it took, or None for a malformed, overlong or surrogate sequence.
   */
  function DecodeFirst(bs: seq<Byte>): (r: Option<(char, nat)>)
    ensures r.Some? ==> 1 <= r.value.1 <= |bs|
  {
    if bs == [] then None
    else if bs[0] < 0x80 then Some((bs[0] as char, 1))
    else if 0xC2 <= bs[0] < 0xE0 && |bs| >= 2 && IsContinuation(bs[1]) then
      Some((((bs[0] as int - 0xC0) * 64 + (bs[1] as int - 0x80)) as char, 2))
    else if 0xE0 <= bs[0] < 0xF0 && |bs| >= 3 && IsContinuation(bs[1]) && IsContinuation(bs[2]) then
      var cp := (bs[0] as int - 0xE0) * 4096 + (bs[1] as int - 0x80) * 64 + (bs[2] as int - 0x80);
      if 0x800 <= cp && IsScalarValue(cp) then Some((cp as char, 3)) else None
    else if 0xF0 <= bs[0] < 0xF5 && |bs| >= 4 && IsContinuation(bs[1]) && IsContinuation(bs[2]) && IsContinuation(bs[3]) then
      var cp := (bs[0] as int - 0xF0) * 262144 + (bs[1] as int - 0x80) * 4096 + (bs[2] as int - 0x80) * 64 + (bs[3] as int - 0x80);
      if 0x1_0000 <= cp && IsScalarValue(cp) then Some((cp as char, 4)) else None
    else None
  }

  /** `bs.decode("utf-8")`: None when the bytes are not well-formed UTF-8. */
  function Utf8Decode(bs: seq<Byte>): Option<string>
    decreases |bs|
  {
    if bs == [] then Some([])
    else match DecodeFirst(bs)
      case None => None
      case Some((c, n)) =>
        match Utf8Decode(bs[n..])
        case None => None
        case Some(rest) => Some([c] + rest)
  }

  lemma Split2(cp: int)
    requires 0 <= cp
    ensures cp == cp / 64 * 64 + cp % 64
  {
  }

  lemma Split3(cp: int)
    requires 0 <= cp
    ensures cp == cp / 4096 * 4096 + cp / 64 % 64 * 64 + cp % 64
  {
    var q := cp / 64;
    assert cp == q * 64 + cp % 64;
    assert q == q / 64 * 64 + q % 64;
    assert q / 64 == cp / 4096;
  }

  lemma Split4(cp: int)
    requires 0 <= cp
    ensures cp == cp / 262144 * 262144 + cp / 4096 % 64 * 4096 + cp / 64 % 64 * 64 + cp % 64
  {
    var q := cp / 4096;
    Split3(cp);
    assert q == q / 64 * 64 + q % 64;
    assert q / 64 == cp / 262144;
  }

  /** Decoding the front of an encoded character gives the character back, and its length. */
  lemma DecodeEncodedChar(c: char, rest: seq<Byte>)
    ensures DecodeFirst(EncodeChar(c) + rest) == Some((c, |EncodeChar(c)|))
  {
    var cp := c as int;
    var bs := EncodeChar(c) + rest;
    if cp < 0x80 {
    } else if cp < 0x800 {
      Split2(cp);
      assert (bs[0] as int - 0xC0) * 64 + (bs[1] as int - 0x80) == cp;
    } else if cp < 0x1_0000 {
      Split3(cp);
      assert (bs[0] as int - 0xE0) * 4096 + (bs[1] as int - 0x80) * 64 + (bs[2] as int - 0x80) == cp;
    } else {
      Split4(cp);
      assert (bs[0] as int - 0xF0) * 262144 + (bs[1] as int - 0x80) * 4096 + (bs[2] as int - 0x80) * 64 + (bs[3] as int - 0x80) == cp;
    }
  }

  /** Decoding the UTF-8 encoding of a string gives the string back. */
  lemma {:induction false} Utf8RoundTrip(s: string)
    ensures Utf8Decode(Utf8Encode(s)) == Some(s)
    decreases |s|
  {
    if s != [] {
      var e, rest := EncodeChar(s[0]), Utf8Encode(s[1..]);
      DecodeEncodedChar(s[0], rest);
      Utf8RoundTrip(s[1..]);
      Utf8DecodeStep(s[0], e, rest, s[1..]);
      assert [s[0]] + s[1..] == s;
    }
  }

  /** One decoding step: a character read from the front, then the rest decoded. */
  lemma Utf8DecodeStep(c: char, e: seq<Byte>, rest: seq<Byte>, tail: string)
    requires e != [] && DecodeFirst(e + rest) == Some((c, |e|))
    requires Utf8Decode(rest) == Some(tail)
    ensures Utf8Decode(e + rest) == Some([c] + tail)
  {
    assert (e + rest)[|e|..] == rest;
  }

  /** Distinct strings have distinct encodings. */
  lemma Utf8Injective(s: string, t: string)
    requires Utf8Encode(s) == Utf8Encode(t)
    ensures s == t
  {
    Utf8RoundTrip(s);
    Utf8RoundTrip(t);
  }

  // ---------------------------------------------------------------- percent-encoding

  /** The bytes `quote` leaves alone: ASCII letters, digits, `_.-~` and the safe `/`. */
  predicate IsSafeByte(b: Byte) {
    ('A' as int <= b <= 'Z' as int) || ('a' as int <= b <= 'z' as int) || ('0' as int <= b <= '9' as int)
    || b == '_' as int || b == '.' as int || b == '-' as int || b == '~' as int || b == '/' as int
  }

  function HexDigit(n: nat): (c: char)
    requires n < 16
    ensures IsHexDigit(c)
  {
    if n < 10 then ('0' as int + n) as char else ('A' as int + n - 10) as char
  }

  predicate IsHexDigit(c: char) { '0' <= c <= '9' || 'A' <= c <= 'F' || 'a' <= c <= 'f' }

  function HexValue(c: char): (n: nat)
    requires IsHexDigit(c)
    ensures n < 16
  {
    if c <= '9' then c as int - '0' as int
    else if c <= 'F' then c as int - 'A' as int + 10
    else c as int - 'a' as int + 10
  }

  /** One byte as `quote_from_bytes` writes it. */
  function QuoteByte(b: Byte): (s: string)
    ensures IsSafeByte(b) ==> s == [b as char]
    ensures !IsSafeByte(b) ==> |s| == 3 && s[0] == '%' && IsHexDigit(s[1]) && IsHexDigit(s[2]) && HexValue(s[1]) * 16 + HexValue(s[2]) == b
  {
    if IsSafeByte(b) then [b as char] else ['%', HexDigit(b / 16), HexDigit(b % 16)]
  }

  function QuoteBytes(bs: seq<Byte>): string
    decreases |bs|
  {
    if bs == [] then "" else QuoteByte(bs[0]) + QuoteBytes(bs[1..])
  }

  /** `urllib.parse.quote(s)`. */
  function Quote(s: string): string {
    QuoteBytes(Utf8Encode(s))
  }

  /** The characters a quoted string can hold: unreserved ones, `/`, and `%` with hex digits. */
  predicate IsQuotedChar(c: char) {
    IsHexDigit(c) || ('A' <= c <= 'Z') || ('a' <= c <= 'z') || c in "_.-~/%"
  }

  lemma {:induction false} QuoteBytesChars(bs: seq<Byte>)
    ensures forall i :: 0 <= i < |QuoteBytes(bs)| ==> IsQuotedChar(QuoteBytes(bs)[i])
    decreases |bs|
  {
    if bs != [] {
      QuoteBytesChars(bs[1..]);
      var h, t := QuoteByte(bs[0]), QuoteBytes(bs[1..]);
      assert forall i :: 0 <= i < |h| ==> IsQuotedChar(h[i]);
      assert forall i :: |h| <= i < |h + t| ==> (h + t)[i] == t[i - |h|];
    }
  }

  /** A quoted value holds neither `&` nor `=`, so it cannot break a query string apart. */
  lemma QuoteHasNoDelimiters(s: string)
    ensures '&' !in Quote(s) && '=' !in Quote(s)
  {
    QuoteBytesChars(Utf8Encode(s));
  }

  /**
   * Reference decoder for percent-encoding: `%` with two hex digits gives that octet,
   * any other ASCII character gives its own code.
   */
  function PercentDecode(s: string): Option<seq<Byte>>
    decreases |s|
  {
    if s == [] then Some([])
    else if s[0] == '%' then
      if |s| >= 3 && IsHexDigit(s[1]) && IsHexDigit(s[2]) then
        match PercentDecode(s[3..])
        case None => None
        case Some(rest) => Some([HexValue(s[1]) * 16 + HexValue(s[2])] + rest)
      else None
    else if s[0] as int < 0x80 then
      match PercentDecode(s[1..])
      case None => None
      case Some(rest) => Some([s[0] as int] + rest)
    else None
  }

  /** A byte left as it is decodes to itself in front of the rest. */
  lemma DecodeSafeByte(b: Byte, t: string)
    requires IsSafeByte(b)
    ensures PercentDecode(QuoteByte(b) + t) ==
              if PercentDecode(t).Some? then Some([b] + PercentDecode(t).value) else None
  {
    assert QuoteByte(b) == [b as char];
    DecodeAscii(b as char, t);
  }

  /** An escaped byte decodes to itself in front of the rest. */
  lemma DecodeEscapedByte(b: Byte, t: string)
    requires !IsSafeByte(b)
    ensures PercentDecode(QuoteByte(b) + t) ==
              if PercentDecode(t).Some? then Some([b] + PercentDecode(t).value) else None
  {
    var h := QuoteByte(b);
    var x, y := h[1], h[2];
    assert h == ['%', x, y] && HexValue(x) * 16 + HexValue(y) == b;
    DecodeEscape(x, y, t);
    assert h + t == ['%', x, y] + t;
  }

  lemma DecodeAscii(c: char, t: string)
    requires c != '%' && c as int < 0x80
    ensures PercentDecode([c] + t) ==
              if PercentDecode(t).Some? then Some([c as int] + PercentDecode(t).value) else None
  {
    assert ([c] + t)[1..] == t;
  }

  lemma DecodeEscape(x: char, y: char, t: string)
    requires IsHexDigit(x) && IsHexDigit(y)
    ensures PercentDecode(['%', x, y] + t) ==
              if PercentDecode(t).Some? then Some([HexValue(x) * 16 + HexValue(y)] + PercentDecode(t).value) else None
  {
    assert (['%', x, y] + t)[3..] == t;
  }

  lemma {:induction false} PercentDecodeQuoteBytes(bs: seq<Byte>)
    ensures PercentDecode(QuoteBytes(bs)) == Some(bs)
    decreases |bs|
  {
    if bs != [] {
      PercentDecodeQuoteBytes(bs[1..]);
      if IsSafeByte(bs[0]) {
        DecodeSafeByte(bs[0], QuoteBytes(bs[1..]));
      } else {
        DecodeEscapedByte(bs[0], QuoteBytes(bs[1..]));
      }
      assert [bs[0]] + bs[1..] == bs;
    }
  }

  /** `unquote(quote(s)) == s`: percent-decoding then UTF-8 decoding recovers the value. */
  lemma QuoteRoundTrip(s: string)
    ensures PercentDecode(Quote(s)) == Some(Utf8Encode(s))
    ensures Utf8Decode(PercentDecode(Quote(s)).value) == Some(s)
  {
    PercentDecodeQuoteBytes(Utf8Encode(s));
    Utf8RoundTrip(s);
  }

  /** A value made only of safe ASCII characters is left as it is. */
  lemma {:induction false} QuoteOfSafe(s: string)
    requires forall i :: 0 <= i < |s| ==> s[i] as int < 0x80 && IsSafeByte(s[i] as int)
    ensures Quote(s) == s
    decreases |s|
  {
    if s != [] {
      QuoteOfSafe(s[1..]);
      assert [s[0]] + s[1..] == s;
    }
  }
}
