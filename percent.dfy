/** Percent-encoding of query arguments, as `urllib.parse.quote` of
    Python 3.7 and later does it with its default `safe='/'`: the text is
    encoded as UTF-8 (RFC 3629), the unreserved characters of section 2.3
    of RFC 3986 (including `~`) and `/` are kept, and every other octet
    becomes `%` followed by two upper-case hexadecimal digits (section 2.1
    of RFC 3986). */
module Percent {
  import opened Wrappers

  type Byte = b: int | 0 <= b < 256

  /** The unreserved characters of section 2.3 of RFC 3986. */
  predicate IsUnreserved(c: char) {
    ('A' <= c <= 'Z') || ('a' <= c <= 'z') || ('0' <= c <= '9') ||
    c == '-' || c == '.' || c == '_' || c == '~'
  }

  /** Characters `quote` leaves as they are. */
  predicate IsSafe(c: char) {
    IsUnreserved(c) || c == '/'
  }

  /** UTF-8 encoding of one Unicode scalar value. */
  function Utf8Char(c: char): (bs: seq<Byte>)
    ensures 1 <= |bs| <= 4
    ensures (c as int) < 0x80 <==> bs == [c as int]
  {
    var cp := c as int;
    if cp < 0x80 then [cp]
    else if cp < 0x800 then [0xC0 + cp / 64, 0x80 + cp % 64]
    else if cp < 0x10000 then [0xE0 + cp / 4096, 0x80 + (cp / 64) % 64, 0x80 + cp % 64]
    else [0xF0 + cp / 262144, 0x80 + (cp / 4096) % 64, 0x80 + (cp / 64) % 64, 0x80 + cp % 64]
  }

  function Utf8(s: string): seq<Byte> {
    if s == [] then [] else Utf8Char(s[0]) + Utf8(s[1..])
  }

  function HexDigit(x: int): (c: char)
    requires 0 <= x < 16
    ensures IsUnreserved(c)
  {
    if x < 10 then '0' + (x as char) else 'A' + ((x - 10) as char)
  }

  predicate IsHexDigit(c: char) {
    ('0' <= c <= '9') || ('A' <= c <= 'F') || ('a' <= c <= 'f')
  }

  function HexValue(c: char): (x: int)
    requires IsHexDigit(c)
    ensures 0 <= x < 16
  {
    if '0' <= c <= '9' then (c as int) - ('0' as int)
    else if 'A' <= c <= 'F' then (c as int) - ('A' as int) + 10
    else (c as int) - ('a' as int) + 10
  }

  /** The encoding of one octet. */
  function EncodeByte(b: Byte): (t: string)
    ensures forall i :: 0 <= i < |t| ==> IsSafe(t[i]) || t[i] == '%'
  {
    if b < 128 && IsSafe(b as char) then [b as char]
    else ['%', HexDigit(b / 16), HexDigit(b % 16)]
  }

  /** `quote_from_bytes`: the text holds only safe characters and `%`. */
  function PercentEncode(bs: seq<Byte>): (t: string)
    ensures forall i :: 0 <= i < |t| ==> IsSafe(t[i]) || t[i] == '%'
  {
    if bs == [] then [] else EncodeByte(bs[0]) + PercentEncode(bs[1..])
  }

  /** `quote(s)`, the encoder applied to every query argument. */
  function Quote(s: string): string {
    PercentEncode(Utf8(s))
  }

  /** Reverses `PercentEncode`: a `%` must introduce two hexadecimal digits,
      any other character must be ASCII. */
  function PercentDecode(t: string): Option<seq<Byte>> {
    if t == [] then Some([])
    else if t[0] == '%' then
      if |t| >= 3 && IsHexDigit(t[1]) && IsHexDigit(t[2]) then
        match PercentDecode(t[3..])
        case None => None
        case Some(rest) => Some([HexValue(t[1]) * 16 + HexValue(t[2])] + rest)
      else None
    else if (t[0] as int) < 128 then
      match PercentDecode(t[1..])
      case None => None
      case Some(rest) => Some([t[0] as int] + rest)
    else None
  }

  // ---------------------------------------------------------------------

  lemma DecodeEncodeByte(b: Byte, rest: string)
    ensures PercentDecode(EncodeByte(b) + rest) ==
      match PercentDecode(rest)
      case None => None
      case Some(r) => Some([b] + r)
  {
    var t := EncodeByte(b) + rest;
    if b < 128 && IsSafe(b as char) {
      assert t[1..] == rest;
    } else {
      assert t[3..] == rest;
      assert HexValue(HexDigit(b / 16)) == b / 16;
      assert HexValue(HexDigit(b % 16)) == b % 16;
    }
  }

  /** Decoding an encoding gives back the octets (section 2.1 of RFC 3986). */
  lemma {:induction false} DecodeEncode(bs: seq<Byte>)
    ensures PercentDecode(PercentEncode(bs)) == Some(bs)
  {
    if bs != [] {
      DecodeEncode(bs[1..]);
      DecodeEncodeByte(bs[0], PercentEncode(bs[1..]));
      assert [bs[0]] + bs[1..] == bs;
    }
  }

  /** Every encoded argument decodes to the UTF-8 octets of the original. */
  lemma QuoteRoundTrip(s: string)
    ensures PercentDecode(Quote(s)) == Some(Utf8(s))
  {
    DecodeEncode(Utf8(s));
  }

  /** An encoded argument never contains a delimiter of the query component,
      so it cannot add, end or split a `name=value` pair. */
  lemma QuoteHasNoDelimiter(s: string)
    ensures '&' !in Quote(s) && '=' !in Quote(s) && '?' !in Quote(s) && '#' !in Quote(s)
  {
    var t := Quote(s);
    forall i | 0 <= i < |t| ensures t[i] != '&' && t[i] != '=' && t[i] != '?' && t[i] != '#' {
      assert IsSafe(t[i]) || t[i] == '%';
    }
  }

  /** Text made of unreserved characters and `/` is left unchanged
      (section 2.3 of RFC 3986). */
  lemma {:induction false} QuoteKeepsSafeText(s: string)
    requires forall i :: 0 <= i < |s| ==> IsSafe(s[i])
    ensures Quote(s) == s
  {
    if s != [] {
      QuoteKeepsSafeText(s[1..]);
      assert (s[0] as int) < 0x80;
      var bs := Utf8(s);
      assert bs == [s[0] as int] + Utf8(s[1..]);
      assert bs[1..] == Utf8(s[1..]);
      assert EncodeByte(bs[0]) == [s[0]];
      assert s == [s[0]] + s[1..];
    }
  }
}
