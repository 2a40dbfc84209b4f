/**
 * encodeURIComponent (ECMAScript section 19.2.6.5) and its inverse
 * decodeURIComponent (section 19.2.6.2), on strings of Unicode scalar values.
 * The client encodes the signer's name with the first; the server's request
 * parameter decoding undoes it.
 */
module UriComponent {
  import opened Wrappers

  type Byte = b: int | 0 <= b < 256

  /** The characters encodeURIComponent leaves alone: letters, digits and - _ . ! ~ * ' ( ) */
  predicate Unreserved(c: char) {
    ('A' <= c <= 'Z') || ('a' <= c <= 'z') || ('0' <= c <= '9')
    || c == '-' || c == '_' || c == '.' || c == '!' || c == '~' || c == '*' || c == '\'' || c == '(' || c == ')'
  }

  /** Upper-case hexadecimal digit, as encodeURIComponent writes them. */
  function HexDigit(d: int): char
    requires 0 <= d < 16
  {
    if d < 10 then ('0' as int + d) as char else ('A' as int + d - 10) as char
  }

  predicate IsHex(c: char) {
    ('0' <= c <= '9') || ('A' <= c <= 'F') || ('a' <= c <= 'f')
  }

  function HexValue(c: char): (d: int)
    requires IsHex(c)
    ensures 0 <= d < 16
  {
    if '0' <= c <= '9' then c as int - '0' as int
    else if 'A' <= c <= 'F' then c as int - 'A' as int + 10
    else c as int - 'a' as int + 10
  }

  /** The UTF-8 encoding of one scalar value. */
  function Utf8(c: char): (bs: seq<Byte>)
    ensures 1 <= |bs| <= 4
  {
    var n := c as int;
    if n < 0x80 then [n]
    else if n < 0x800 then [0xC0 + n / 64, 0x80 + n % 64]
    else if n < 0x1_0000 then [0xE0 + (n / 64) / 64, 0x80 + (n / 64) % 64, 0x80 + n % 64]
    else [0xF0 + ((n / 64) / 64) / 64, 0x80 + ((n / 64) / 64) % 64, 0x80 + (n / 64) % 64, 0x80 + n % 64]
  }

  /** "%XX" for each byte. */
  function Escapes(bs: seq<Byte>): (r: string)
    ensures |r| == 3 * |bs|
    ensures forall i :: 0 <= i < |r| ==> Safe(r[i])
  {
    if bs == [] then [] else ['%', HexDigit(bs[0] / 16), HexDigit(bs[0] % 16)] + Escapes(bs[1..])
  }

  function EncodeChar(c: char): string {
    if Unreserved(c) then [c] else Escapes(Utf8(c))
  }

  /**
   * encodeURIComponent. The encoded form is at least as long as the text and
   * holds only unreserved characters and '%': no space, '&', '=', '#' or '+'
   * that would end or change a query parameter.
   */
  function Encode(s: string): (r: string)
    ensures |s| <= |r|
    ensures forall i :: 0 <= i < |r| ==> Safe(r[i])
  {
    if s == [] then [] else EncodeChar(s[0]) + Encode(s[1..])
  }

  /** The characters that can appear in an encoded string. */
  predicate Safe(c: char) {
    Unreserved(c) || c == '%'
  }

  // ---- decoding ----

  /** The number of bytes in a UTF-8 sequence with this lead byte; 0 if it cannot lead one. */
  function LeadLength(b: Byte): nat {
    if b < 0x80 then 1
    else if 0xC0 <= b < 0xE0 then 2
    else if 0xE0 <= b < 0xF0 then 3
    else if 0xF0 <= b < 0xF8 then 4
    else 0
  }

  predicate Continuation(b: Byte) {
    0x80 <= b < 0xC0
  }

  /** The scalar value a complete UTF-8 sequence stands for; None if it is malformed. */
  function Utf8Char(bs: seq<Byte>): Option<char> {
    if |bs| == 1 && bs[0] < 0x80 then
      Some(bs[0] as char)
    else if |bs| == 2 && 0xC0 <= bs[0] < 0xE0 && Continuation(bs[1]) then
      var v: int := (bs[0] as int - 0xC0) * 64 + (bs[1] as int - 0x80);
      if 0x80 <= v then Some(v as char) else None
    else if |bs| == 3 && 0xE0 <= bs[0] < 0xF0 && Continuation(bs[1]) && Continuation(bs[2]) then
      var v: int := (bs[0] as int - 0xE0) * 4096 + (bs[1] as int - 0x80) * 64 + (bs[2] as int - 0x80);
      if 0x800 <= v && !(0xD800 <= v < 0xE000) then Some(v as char) else None
    else if |bs| == 4 && 0xF0 <= bs[0] < 0xF8 && Continuation(bs[1]) && Continuation(bs[2]) && Continuation(bs[3]) then
      var v: int := (bs[0] as int - 0xF0) * 262144 + (bs[1] as int - 0x80) * 4096 + (bs[2] as int - 0x80) * 64 + (bs[3] as int - 0x80);
      if 0x1_0000 <= v < 0x11_0000 then Some(v as char) else None
    else
      None
  }

  /** Reads `count` escapes "%XX" from the front of `s`. */
  function ReadEscapes(s: string, count: nat): (r: Option<seq<Byte>>)
    ensures r.Some? ==> |r.value| == count && 3 * count <= |s|
    decreases count
  {
    if count == 0 then Some([])
    else if |s| >= 3 && s[0] == '%' && IsHex(s[1]) && IsHex(s[2]) then
      match ReadEscapes(s[3..], count - 1)
      case Some(rest) => Some([HexValue(s[1]) * 16 + HexValue(s[2])] + rest)
      case None => None
    else None
  }

  /**
   * decodeURIComponent: None where the JavaScript function throws URIError. Text
   * without '%' comes back as it is, and decoding never lengthens the text.
   */
  function Decode(s: string): (r: Option<string>)
    ensures r.Some? ==> |r.value| <= |s|
    ensures (forall i :: 0 <= i < |s| ==> s[i] != '%') ==> r == Some(s)
    decreases |s|
  {
    if s == [] then Some([])
    else if s[0] != '%' then
      assert forall i :: 0 <= i < |s| - 1 ==> s[1..][i] == s[i + 1];
      assert [s[0]] + s[1..] == s;
      match Decode(s[1..])
      case Some(rest) => Some([s[0]] + rest)
      case None => None
    else if |s| >= 3 && IsHex(s[1]) && IsHex(s[2]) then
      var n := LeadLength(HexValue(s[1]) * 16 + HexValue(s[2]));
      if n == 0 then None
      else match ReadEscapes(s, n)
        case None => None
        case Some(bs) =>
          match Utf8Char(bs)
          case None => None
          case Some(c) =>
            match Decode(s[3 * n..])
            case Some(rest) => Some([c] + rest)
            case None => None
    else None
  }

  lemma HexRoundTrip(b: Byte)
    ensures HexValue(HexDigit(b / 16)) * 16 + HexValue(HexDigit(b % 16)) == b
  {
  }

  lemma {:induction false} ReadEscapesOf(bs: seq<Byte>, rest: string)
    ensures ReadEscapes(Escapes(bs) + rest, |bs|) == Some(bs)
  {
    if bs != [] {
      var s := Escapes(bs) + rest;
      HexRoundTrip(bs[0]);
      assert s[3..] == Escapes(bs[1..]) + rest;
      ReadEscapesOf(bs[1..], rest);
      assert [bs[0]] + bs[1..] == bs;
    }
  }

  lemma Utf8RoundTrip2(n: int)
    requires 0x80 <= n < 0x800
    ensures (n / 64) * 64 + n % 64 == n && 2 <= n / 64 < 32
  {
  }

  lemma Utf8RoundTrip3(n: int)
    requires 0x800 <= n < 0x1_0000
    ensures ((n / 64) / 64) * 4096 + ((n / 64) % 64) * 64 + n % 64 == n
    ensures 2 <= n / 64 && (n / 64) / 64 < 16
  {
    var m := n / 64;
    assert n == m * 64 + n % 64;
    assert m == (m / 64) * 64 + m % 64;
  }

  lemma Utf8RoundTrip4(n: int)
    requires 0x1_0000 <= n < 0x11_0000
    ensures (((n / 64) / 64) / 64) * 262144 + (((n / 64) / 64) % 64) * 4096 + ((n / 64) % 64) * 64 + n % 64 == n
    ensures ((n / 64) / 64) / 64 < 8
  {
    var m := n / 64;
    var m2 := m / 64;
    assert n == m * 64 + n % 64;
    assert m == m2 * 64 + m % 64;
    assert m2 == (m2 / 64) * 64 + m2 % 64;
    assert m2 < 272;
  }

  lemma Utf8RoundTrip(c: char)
    ensures LeadLength(Utf8(c)[0]) == |Utf8(c)|
    ensures Utf8Char(Utf8(c)) == Some(c)
  {
    var n := c as int;
    if n < 0x80 {
    } else if n < 0x800 {
      Utf8RoundTrip2(n);
    } else if n < 0x1_0000 {
      Utf8RoundTrip3(n);
    } else {
      Utf8RoundTrip4(n);
    }
  }

  lemma DecodeEncodedChar(c: char, rest: string)
    ensures Decode(EncodeChar(c) + rest) == match Decode(rest) { case Some(r) => Some([c] + r) case None => None }
  {
    var s := EncodeChar(c) + rest;
    if Unreserved(c) {
      assert s[1..] == rest;
    } else {
      var bs := Utf8(c);
      Utf8RoundTrip(c);
      HexRoundTrip(bs[0]);
      ReadEscapesOf(bs, rest);
      assert s[3 * |bs|..] == rest;
    }
  }

  /** decodeURIComponent(encodeURIComponent(s)) == s: the server reads back the name the client sent. */
  lemma {:induction false} DecodeEncode(s: string)
    ensures Decode(Encode(s)) == Some(s)
  {
    if s != [] {
      DecodeEncode(s[1..]);
      DecodeEncodedChar(s[0], Encode(s[1..]));
      assert [s[0]] + s[1..] == s;
    }
  }
}
