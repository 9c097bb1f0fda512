/**
 * ECMAScript `encodeURIComponent` and `decodeURIComponent` (section 19.2.6 of
 * ECMA-262) over strings of Unicode scalar values. Encoding keeps the
 * RFC 2396 section 2.3 "unreserved" characters and writes every other
 * character as the UTF-8 octets of its code point, each octet as a
 * percent-encoded triple `%XY` in upper-case hexadecimal (section 2.1 of
 * RFC 3986). Decoding undoes that, and fails (a `URIError` in the program)
 * on a malformed escape or an invalid UTF-8 sequence.
 */
module UriComponent {
  import opened Common

  type Byte = b: int | 0 <= b < 256

  /** The characters `encodeURIComponent` leaves unescaped. */
  predicate IsUnreserved(c: char) {
    || ('A' <= c <= 'Z') || ('a' <= c <= 'z') || ('0' <= c <= '9')
    || c == '-' || c == '_' || c == '.' || c == '!' || c == '~'
    || c == '*' || c == '\'' || c == '(' || c == ')'
  }

  predicate IsHexDigit(c: char) {
    ('0' <= c <= '9') || ('a' <= c <= 'f') || ('A' <= c <= 'F')
  }

  predicate IsUpperHexDigit(c: char) {
    ('0' <= c <= '9') || ('A' <= c <= 'F')
  }

  /** The upper-case hexadecimal digit for a value below 16. */
  function HexDigit(d: int): (c: char)
    requires 0 <= d < 16
    ensures IsUpperHexDigit(c)
  {
    if d < 10 then ('0' as int + d) as char else ('A' as int + d - 10) as char
  }

  function HexValue(c: char): (v: int)
    requires IsHexDigit(c)
    ensures 0 <= v < 16
  {
    if '0' <= c <= '9' then c as int - '0' as int
    else if 'a' <= c <= 'f' then c as int - 'a' as int + 10
    else c as int - 'A' as int + 10
  }

  lemma HexRoundTrip(d: int)
    requires 0 <= d < 16
    ensures IsHexDigit(HexDigit(d)) && HexValue(HexDigit(d)) == d
  {
  }

  // ---------------------------------------------------------------- encoding

  /** The UTF-8 octets of a scalar value. */
  function Utf8Encode(c: char): (bs: seq<Byte>)
    ensures 1 <= |bs| <= 4
    ensures (|bs| == 1) == (c as int < 0x80)
  {
    var cp := c as int;
    if cp < 0x80 then [cp]
    else if cp < 0x800 then [0xC0 + cp / 64, 0x80 + cp % 64]
    else if cp < 0x10000 then [0xE0 + cp / 4096, 0x80 + cp / 64 % 64, 0x80 + cp % 64]
    else [0xF0 + cp / 262144, 0x80 + cp / 4096 % 64, 0x80 + cp / 64 % 64, 0x80 + cp % 64]
  }

  /** One octet as a percent-encoded triple. */
  function Escape(b: Byte): (t: string)
    ensures |t| == 3 && t[0] == '%' && IsUpperHexDigit(t[1]) && IsUpperHexDigit(t[2])
  {
    ['%', HexDigit(b / 16), HexDigit(b % 16)]
  }

  function EscapeAll(bs: seq<Byte>): (t: string)
    ensures |t| == 3 * |bs|
  {
    if bs == [] then [] else Escape(bs[0]) + EscapeAll(bs[1..])
  }

  /** One character as `encodeURIComponent` writes it: itself, or one to four escaped octets. */
  function EncodeChar(c: char): (t: string)
    ensures 1 <= |t| <= 12
  {
    if IsUnreserved(c) then [c] else EscapeAll(Utf8Encode(c))
  }

  /**
   * `encodeURIComponent`: every character in turn, so the output is never
   * shorter than the input, and at most twelve times as long.
   */
  function Encode(s: string): (e: string)
    ensures |s| <= |e| <= 12 * |s|
  {
    if s == [] then [] else EncodeChar(s[0]) + Encode(s[1..])
  }

  // ---------------------------------------------------------------- decoding

  /** The octet written as `%XY` at position `k` of `s`, if there is one. */
  function EscapedByte(s: string, k: nat): Option<Byte> {
    if k + 2 < |s| && s[k] == '%' && IsHexDigit(s[k + 1]) && IsHexDigit(s[k + 2])
    then Some(16 * HexValue(s[k + 1]) + HexValue(s[k + 2]))
    else None
  }

  /** `n` consecutive escaped octets at the start of `s`. */
  function EscapedBytes(s: string, n: nat): (r: Option<seq<Byte>>)
    ensures r.Some? ==> |r.value| == n && 3 * n <= |s|
  {
    if n == 0 then Some([])
    else match EscapedByte(s, 0)
      case None => None
      case Some(b) =>
        match EscapedBytes(s[3..], n - 1)
        case None => None
        case Some(bs) => Some([b] + bs)
  }

  /** The number of leading 1 bits of an octet. */
  function LeadingOnes(b: Byte): nat {
    if b < 0x80 then 0
    else if b < 0xC0 then 1
    else if b < 0xE0 then 2
    else if b < 0xF0 then 3
    else if b < 0xF8 then 4
    else if b < 0xFC then 5
    else if b < 0xFE then 6
    else if b < 0xFF then 7
    else 8
  }

  predicate IsContinuation(b: Byte) {
    0x80 <= b < 0xC0
  }

  /**
   * The code point of a multi-octet UTF-8 sequence whose lead octet announces
   * its length, or `None` when the octets are not the valid (shortest,
   * non-surrogate, in range) encoding of one scalar value.
   */
  function DecodeScalar(bs: seq<Byte>): Option<char>
    requires 2 <= |bs| <= 4 && LeadingOnes(bs[0]) == |bs|
  {
    if !(forall i :: 1 <= i < |bs| ==> IsContinuation(bs[i])) then None
    else
      var cp :=
        if |bs| == 2 then (bs[0] as int - 0xC0) * 64 + (bs[1] as int - 0x80)
        else if |bs| == 3 then (bs[0] as int - 0xE0) * 4096 + (bs[1] as int - 0x80) * 64 + (bs[2] as int - 0x80)
        else (bs[0] as int - 0xF0) * 262144 + (bs[1] as int - 0x80) * 4096 + (bs[2] as int - 0x80) * 64 + (bs[3] as int - 0x80);
      var least: int := if |bs| == 2 then 0x80 else if |bs| == 3 then 0x800 else 0x10000;
      if least <= cp < 0x110000 && !(0xD800 <= cp < 0xE000) then Some(cp as char) else None
  }

  function Cons(c: char, rest: Option<string>): Option<string> {
    match rest
    case None => None
    case Some(t) => Some([c] + t)
  }

  /** `decodeURIComponent`: `None` stands for the `URIError` it throws. */
  function Decode(s: string): Option<string>
    decreases |s|
  {
    if s == [] then Some([])
    else if s[0] != '%' then Cons(s[0], Decode(s[1..]))
    else match EscapedByte(s, 0)
      case None => None
      case Some(b) =>
        var n := LeadingOnes(b);
        if n == 0 then Cons(b as char, Decode(s[3..]))
        else if n == 1 || n > 4 then None
        else match EscapedBytes(s, n)
          case None => None
          case Some(bs) =>
            match DecodeScalar(bs)
            case None => None
            case Some(c) => Cons(c, Decode(s[3 * n..]))
  }

  // -------------------------------------------------------------- properties

  /** Every character of an encoded string is unreserved or part of a `%XY` triple. */
  predicate IsEncodedForm(t: string)
    decreases |t|
  {
    || t == []
    || (IsUnreserved(t[0]) && IsEncodedForm(t[1..]))
    || (|t| >= 3 && t[0] == '%' && IsUpperHexDigit(t[1]) && IsUpperHexDigit(t[2])
        && IsEncodedForm(t[3..]))
  }

  lemma {:induction false} EncodedFormAppend(a: string, b: string)
    requires IsEncodedForm(a) && IsEncodedForm(b)
    ensures IsEncodedForm(a + b)
  {
    if a != [] {
      if IsUnreserved(a[0]) && IsEncodedForm(a[1..]) {
        assert (a + b)[1..] == a[1..] + b;
        EncodedFormAppend(a[1..], b);
      } else {
        assert (a + b)[3..] == a[3..] + b;
        EncodedFormAppend(a[3..], b);
      }
    } else {
      assert a + b == b;
    }
  }

  lemma {:induction false} EscapeAllIsEncodedForm(bs: seq<Byte>)
    ensures IsEncodedForm(EscapeAll(bs))
  {
    if bs != [] {
      EscapeAllIsEncodedForm(bs[1..]);
      var t := EscapeAll(bs);
      assert t[3..] == EscapeAll(bs[1..]);
    }
  }

  /** The output of `encodeURIComponent` consists of unreserved characters and `%XY` triples only. */
  lemma {:induction false} EncodeIsEncodedForm(s: string)
    ensures IsEncodedForm(Encode(s))
  {
    if s != [] {
      EncodeIsEncodedForm(s[1..]);
      if IsUnreserved(s[0]) {
        assert IsEncodedForm([s[0]]) by { assert [s[0]][1..] == []; }
      } else {
        EscapeAllIsEncodedForm(Utf8Encode(s[0]));
      }
      EncodedFormAppend(EncodeChar(s[0]), Encode(s[1..]));
    }
  }

  /** An encoded string holds neither of the query delimiters `&` and `=`. */
  lemma {:induction false} EncodedFormHasNoDelimiters(t: string)
    requires IsEncodedForm(t)
    ensures '&' !in t && '=' !in t
    decreases |t|
  {
    if t != [] {
      if IsUnreserved(t[0]) && IsEncodedForm(t[1..]) {
        EncodedFormHasNoDelimiters(t[1..]);
        assert t == [t[0]] + t[1..];
      } else {
        EncodedFormHasNoDelimiters(t[3..]);
        assert t == t[..3] + t[3..];
      }
    }
  }

  lemma EncodeHasNoDelimiters(s: string)
    ensures '&' !in Encode(s) && '=' !in Encode(s)
  {
    EncodeIsEncodedForm(s);
    EncodedFormHasNoDelimiters(Encode(s));
  }

  /** A string made only of unreserved characters is encoded as itself. */
  lemma {:induction false} EncodeKeepsUnreserved(s: string)
    requires forall i :: 0 <= i < |s| ==> IsUnreserved(s[i])
    ensures Encode(s) == s
  {
    if s != [] {
      EncodeKeepsUnreserved(s[1..]);
      assert [s[0]] + s[1..] == s;
    }
  }

  /** Encoding distributes over concatenation. */
  lemma {:induction false} EncodeAppend(a: string, b: string)
    ensures Encode(a + b) == Encode(a) + Encode(b)
  {
    if a == [] {
      assert a + b == b;
    } else {
      assert (a + b)[1..] == a[1..] + b;
      EncodeAppend(a[1..], b);
    }
  }

  // ------------------------------------------------------------- round trip

  lemma EscapedByteOfEscape(b: Byte, rest: string)
    ensures EscapedByte(Escape(b) + rest, 0) == Some(b)
    ensures (Escape(b) + rest)[3..] == rest
  {
    HexRoundTrip(b / 16);
    HexRoundTrip(b % 16);
  }

  lemma {:induction false} EscapedBytesOfEscapeAll(bs: seq<Byte>, rest: string)
    ensures EscapedBytes(EscapeAll(bs) + rest, |bs|) == Some(bs)
  {
    if bs != [] {
      var s := EscapeAll(bs) + rest;
      assert s == Escape(bs[0]) + (EscapeAll(bs[1..]) + rest);
      EscapedByteOfEscape(bs[0], EscapeAll(bs[1..]) + rest);
      EscapedBytesOfEscapeAll(bs[1..], rest);
      assert [bs[0]] + bs[1..] == bs;
    }
  }

  lemma Utf8RoundTrip2(c: char)
    requires 0x80 <= c as int < 0x800
    ensures var bs := Utf8Encode(c);
      |bs| == 2 && LeadingOnes(bs[0]) == 2 && DecodeScalar(bs) == Some(c)
  {
    var cp := c as int;
    var q, r := cp / 64, cp % 64;
    assert cp == 64 * q + r && 2 <= q < 32;
    var bs := Utf8Encode(c);
    assert bs == [0xC0 + q, 0x80 + r];
  }

  lemma Utf8RoundTrip3(c: char)
    requires 0x800 <= c as int < 0x10000
    ensures var bs := Utf8Encode(c);
      |bs| == 3 && LeadingOnes(bs[0]) == 3 && DecodeScalar(bs) == Some(c)
  {
    var cp := c as int;
    var q, r := cp / 64, cp % 64;
    var q2, r2 := q / 64, q % 64;
    assert cp == 64 * q + r && q == 64 * q2 + r2;
    assert q2 == cp / 4096 && q2 < 16;
    var bs := Utf8Encode(c);
    assert bs == [0xE0 + q2, 0x80 + r2, 0x80 + r];
    assert q2 * 4096 + r2 * 64 + r == cp;
  }

  lemma Utf8RoundTrip4(c: char)
    requires 0x10000 <= c as int
    ensures var bs := Utf8Encode(c);
      |bs| == 4 && LeadingOnes(bs[0]) == 4 && DecodeScalar(bs) == Some(c)
  {
    var cp := c as int;
    assert cp < 0x110000;
    var q, r := cp / 64, cp % 64;
    var q2, r2 := q / 64, q % 64;
    var q3, r3 := q2 / 64, q2 % 64;
    assert cp == 64 * q + r && q == 64 * q2 + r2 && q2 == 64 * q3 + r3;
    assert q2 == cp / 4096 && q3 == cp / 262144 && q3 < 5;
    var bs := Utf8Encode(c);
    assert bs == [0xF0 + q3, 0x80 + r3, 0x80 + r2, 0x80 + r];
    assert q3 * 262144 + r3 * 4096 + r2 * 64 + r == cp;
  }

  /** Decoding the UTF-8 octets of a multi-octet scalar value gives it back. */
  lemma Utf8RoundTrip(c: char)
    requires c as int >= 0x80
    ensures var bs := Utf8Encode(c);
      2 <= |bs| <= 4 && LeadingOnes(bs[0]) == |bs| && DecodeScalar(bs) == Some(c)
  {
    if c as int < 0x800 {
      Utf8RoundTrip2(c);
    } else if c as int < 0x10000 {
      Utf8RoundTrip3(c);
    } else {
      Utf8RoundTrip4(c);
    }
  }

  lemma DecodeEncodeChar(c: char, rest: string)
    ensures Decode(EncodeChar(c) + rest) == Cons(c, Decode(rest))
  {
    if IsUnreserved(c) {
      var s := EncodeChar(c) + rest;
      assert s[1..] == rest;
    } else {
      DecodeEscapedChar(c, rest);
    }
  }

  /** The escaped UTF-8 octets of a character decode to that character, whatever follows. */
  lemma DecodeEscapedChar(c: char, rest: string)
    requires !IsUnreserved(c)
    ensures Decode(EscapeAll(Utf8Encode(c)) + rest) == Cons(c, Decode(rest))
  {
    var bs := Utf8Encode(c);
    var s := EscapeAll(bs) + rest;
    assert s == Escape(bs[0]) + (EscapeAll(bs[1..]) + rest);
    EscapedByteOfEscape(bs[0], EscapeAll(bs[1..]) + rest);
    if |bs| == 1 {
      assert s[3..] == rest;
      assert (bs[0] as char) == c;
    } else {
      Utf8RoundTrip(c);
      EscapedBytesOfEscapeAll(bs, rest);
      assert s[3 * |bs|..] == rest;
    }
  }

  /** `decodeURIComponent(encodeURIComponent(s)) == s` for every string of scalar values. */
  lemma {:induction false} DecodeEncode(s: string)
    ensures Decode(Encode(s)) == Some(s)
  {
    if s != [] {
      DecodeEncodeChar(s[0], Encode(s[1..]));
      DecodeEncode(s[1..]);
      assert [s[0]] + s[1..] == s;
    }
  }
}
