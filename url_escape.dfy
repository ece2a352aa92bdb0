/**
  A concrete stand-in for `url_escape::encode_component_to_string`, the
  percent-encoder that writes the `filename*` parameter of
  `Content-Disposition`: the name's UTF-8 bytes are written one by one,
  an unreserved byte (RFC 3986 section 2.3: letters, digits, '-', '.',
  '_', '~') as its own character and every other byte as '%' followed by
  two upper-case hexadecimal digits.

  The escape set is an assumption of this model: the library's own table
  is not part of it. The negotiation logic does not depend on this module;
  it receives the encoder as a parameter, and this module is one instance
  of it for which the round trip of RFC 5987's extended value is proved.
 */
module UrlEscape {
  import opened Wrappers
  import opened Primitives

  // ---- UTF-8 ----

  /** The UTF-8 encoding of one Unicode scalar value (RFC 3629 section 3). */
  function Utf8Char(c: char): (bs: seq<byte>)
    ensures 1 <= |bs| <= 4
    ensures |bs| == 1 <==> c as int < 0x80
  {
    var n := c as int;
    if n < 0x80 then [n as byte]
    else if n < 0x800 then
      [(0xC0 + n / 0x40) as byte, (0x80 + n % 0x40) as byte]
    else if n < 0x1_0000 then
      [(0xE0 + n / 0x1000) as byte, (0x80 + n / 0x40 % 0x40) as byte, (0x80 + n % 0x40) as byte]
    else
      [(0xF0 + n / 0x4_0000) as byte, (0x80 + n / 0x1000 % 0x40) as byte,
       (0x80 + n / 0x40 % 0x40) as byte, (0x80 + n % 0x40) as byte]
  }

  /** The UTF-8 bytes of a string, as Rust stores a `String`. */
  function Utf8(s: string): (bs: seq<byte>)
    ensures |bs| >= |s|
  {
    if s == [] then [] else Utf8Char(s[0]) + Utf8(s[1..])
  }

  predicate IsContinuation(b: byte) {
    0x80 <= b < 0xC0
  }

  /** The scalar value a lead byte and its continuation bytes denote, if that is a char. */
  function Scalar(n: int, min: int): Option<char> {
    if 0 <= min <= n < 0x11_0000 && !(0xD800 <= n < 0xE000) then Some(n as char) else None
  }

  /** The first char of a UTF-8 byte string and the number of bytes it takes. */
  function DecodeChar(bs: seq<byte>): (r: Option<(char, nat)>)
    ensures r.Some? ==> 1 <= r.value.1 <= |bs|
  {
    if bs == [] then None
    else
      var b0 := bs[0] as int;
      if b0 < 0x80 then Some(((b0 as char), 1))
      else if 0xC0 <= b0 < 0xE0 && |bs| >= 2 && IsContinuation(bs[1]) then
        match Scalar((b0 - 0xC0) * 0x40 + (bs[1] as int - 0x80), 0x80)
        case Some(c) => Some((c, 2))
        case None => None
      else if 0xE0 <= b0 < 0xF0 && |bs| >= 3 && IsContinuation(bs[1]) && IsContinuation(bs[2]) then
        match Scalar((b0 - 0xE0) * 0x1000 + (bs[1] as int - 0x80) * 0x40 + (bs[2] as int - 0x80), 0x800)
        case Some(c) => Some((c, 3))
        case None => None
      else if 0xF0 <= b0 < 0xF8 && |bs| >= 4 && IsContinuation(bs[1]) && IsContinuation(bs[2]) && IsContinuation(bs[3]) then
        match Scalar((b0 - 0xF0) * 0x4_0000 + (bs[1] as int - 0x80) * 0x1000 + (bs[2] as int - 0x80) * 0x40 + (bs[3] as int - 0x80), 0x1_0000)
        case Some(c) => Some((c, 4))
        case None => None
      else None
  }

  /** Decoding of UTF-8 bytes back to text; `None` for a malformed byte string. */
  function Utf8Decode(bs: seq<byte>): Option<string>
    decreases |bs|
  {
    if bs == [] then Some("")
    else match DecodeChar(bs)
      case None => None
      case Some((c, k)) =>
        match Utf8Decode(bs[k..])
        case None => None
        case Some(rest) => Some([c] + rest)
  }

  lemma DecodeEncodedChar(c: char, rest: seq<byte>)
    ensures DecodeChar(Utf8Char(c) + rest) == Some((c, |Utf8Char(c)|))
  {
    var n := c as int;
    if n < 0x80 {
    } else if n < 0x800 {
      DecodeTwoBytes(c, rest);
    } else if n < 0x1_0000 {
      DecodeThreeBytes(c, rest);
    } else {
      DecodeFourBytes(c, rest);
    }
  }

  lemma DecodeTwoBytes(c: char, rest: seq<byte>)
    requires 0x80 <= c as int < 0x800
    ensures DecodeChar(Utf8Char(c) + rest) == Some((c, 2))
  {
    var n := c as int;
    var bs := Utf8Char(c) + rest;
    var hi, lo := n / 0x40, n % 0x40;
    assert n == hi * 0x40 + lo;
    assert bs[0] as int == 0xC0 + hi && bs[1] as int == 0x80 + lo;
    assert Scalar(hi * 0x40 + lo, 0x80) == Some(c);
  }

  lemma DecodeThreeBytes(c: char, rest: seq<byte>)
    requires 0x800 <= c as int < 0x1_0000
    ensures DecodeChar(Utf8Char(c) + rest) == Some((c, 3))
  {
    var n := c as int;
    var bs := Utf8Char(c) + rest;
    var b, m, lo := n / 0x1000, n / 0x40 % 0x40, n % 0x40;
    assert n == b * 0x1000 + m * 0x40 + lo;
    assert bs[0] as int == 0xE0 + b && bs[1] as int == 0x80 + m && bs[2] as int == 0x80 + lo;
    assert Scalar(b * 0x1000 + m * 0x40 + lo, 0x800) == Some(c);
  }

  lemma DecodeFourBytes(c: char, rest: seq<byte>)
    requires 0x1_0000 <= c as int
    ensures DecodeChar(Utf8Char(c) + rest) == Some((c, 4))
  {
    var n := c as int;
    var bs := Utf8Char(c) + rest;
    var a, b, m, lo := SplitScalar(n);
    assert bs[0] as int == 0xF0 + a && bs[1] as int == 0x80 + b;
    assert bs[2] as int == 0x80 + m && bs[3] as int == 0x80 + lo;
    assert Scalar(a * 0x4_0000 + b * 0x1000 + m * 0x40 + lo, 0x1_0000) == Some(c);
  }

  /** The four six-bit groups (the first one three bits) of a supplementary-plane scalar. */
  lemma SplitScalar(n: int) returns (a: int, b: int, m: int, lo: int)
    requires 0x1_0000 <= n < 0x11_0000
    ensures a == n / 0x4_0000 && b == n / 0x1000 % 0x40 && m == n / 0x40 % 0x40 && lo == n % 0x40
    ensures 0 <= a < 8 && 0 <= b < 0x40 && 0 <= m < 0x40 && 0 <= lo < 0x40
    ensures n == a * 0x4_0000 + b * 0x1000 + m * 0x40 + lo
  {
    var q1 := n / 0x40;
    lo := n % 0x40;
    var q2 := q1 / 0x40;
    m := q1 % 0x40;
    a := q2 / 0x40;
    b := q2 % 0x40;
    assert n == q1 * 0x40 + lo;
    assert q1 == q2 * 0x40 + m;
    assert q2 == a * 0x40 + b;
    assert q2 == n / 0x1000;
    assert a == n / 0x4_0000;
  }

  /** Decoding undoes encoding, for every string. */
  lemma {:induction false} Utf8RoundTrip(s: string)
    ensures Utf8Decode(Utf8(s)) == Some(s)
  {
    if s != [] {
      var head := Utf8Char(s[0]);
      DecodeEncodedChar(s[0], Utf8(s[1..]));
      assert (head + Utf8(s[1..]))[|head|..] == Utf8(s[1..]);
      Utf8RoundTrip(s[1..]);
      assert [s[0]] + s[1..] == s;
    }
  }

  // ---- percent-encoding ----

  /** RFC 3986 section 2.3 unreserved characters. */
  predicate IsUnreserved(c: char) {
    ('A' <= c <= 'Z') || ('a' <= c <= 'z') || ('0' <= c <= '9') || c == '-' || c == '.' || c == '_' || c == '~'
  }

  const HEX: string := "0123456789ABCDEF"

  function HexDigit(d: nat): (c: char)
    requires d < 16
    ensures IsUnreserved(c)
  {
    HEX[d]
  }

  function HexValue(c: char): (v: Option<nat>)
    ensures v.Some? ==> v.value < 16
  {
    if '0' <= c <= '9' then Some((c as int) - ('0' as int))
    else if 'A' <= c <= 'F' then Some((c as int) - ('A' as int) + 10)
    else if 'a' <= c <= 'f' then Some((c as int) - ('a' as int) + 10)
    else None
  }

  lemma HexValueOfDigit(d: nat)
    requires d < 16
    ensures HexValue(HexDigit(d)) == Some(d)
  {
  }

  /** One byte as it appears in the encoded text. */
  function EncodeByte(b: byte): (t: string)
    ensures forall i :: 0 <= i < |t| ==> IsUnreserved(t[i]) || t[i] == '%'
  {
    var c := (b as int) as char;
    if IsUnreserved(c) then [c]
    else ['%', HexDigit(b as int / 16), HexDigit(b as int % 16)]
  }

  /** Percent-encoding of a byte string. */
  function PercentEncode(bs: seq<byte>): (t: string)
    ensures forall i :: 0 <= i < |t| ==> IsUnreserved(t[i]) || t[i] == '%'
    ensures |t| >= |bs|
  {
    if bs == [] then "" else EncodeByte(bs[0]) + PercentEncode(bs[1..])
  }

  /** The model of `encode_component_to_string`'s appended text. */
  function EncodeComponent(s: string): (t: string)
    ensures forall i :: 0 <= i < |t| ==> IsUnreserved(t[i]) || t[i] == '%'
    ensures s != "" <==> t != ""
  {
    PercentEncode(Utf8(s))
  }

  /** Percent-decoding: "%XY" becomes the byte 0xXY, any other ASCII character its own byte. */
  function PercentDecode(t: string): Option<seq<byte>> {
    if t == [] then Some([])
    else if t[0] == '%' then
      if |t| < 3 then None
      else match (HexValue(t[1]), HexValue(t[2]), PercentDecode(t[3..]))
        case (Some(hi), Some(lo), Some(rest)) => Some([(hi * 16 + lo) as byte] + rest)
        case _ => None
    else if t[0] as int < 0x80 then
      match PercentDecode(t[1..])
      case Some(rest) => Some([(t[0] as int) as byte] + rest)
      case None => None
    else None
  }

  lemma DecodeEncodedByte(b: byte, rest: string)
    ensures PercentDecode(EncodeByte(b) + rest) ==
            match PercentDecode(rest)
            case Some(r) => Some([b] + r)
            case None => None
  {
    var c := (b as int) as char;
    var t := EncodeByte(b) + rest;
    if IsUnreserved(c) {
      assert t[1..] == rest;
    } else {
      assert t[3..] == rest;
      HexValueOfDigit(b as int / 16);
      HexValueOfDigit(b as int % 16);
    }
  }

  /** Decoding undoes encoding, for every byte string. */
  lemma {:induction false} PercentRoundTrip(bs: seq<byte>)
    ensures PercentDecode(PercentEncode(bs)) == Some(bs)
  {
    if bs != [] {
      DecodeEncodedByte(bs[0], PercentEncode(bs[1..]));
      PercentRoundTrip(bs[1..]);
      assert [bs[0]] + bs[1..] == bs;
    }
  }

  /** The encoded component decodes to the UTF-8 bytes of the original text, and those to the text. */
  lemma ComponentRoundTrip(s: string)
    ensures PercentDecode(EncodeComponent(s)) == Some(Utf8(s))
    ensures Utf8Decode(PercentDecode(EncodeComponent(s)).value) == Some(s)
  {
    PercentRoundTrip(Utf8(s));
    Utf8RoundTrip(s);
  }
}
