/** `encodeURIComponent`: percent-encoding as in section 2.1 of RFC 3986,
    applied to the UTF-8 bytes (RFC 3629) of every character outside the
    unreserved set `A-Z a-z 0-9 - _ . ! ~ * ' ( )`, with upper-case hex
    digits.

    A Dafny `char` is a Unicode scalar value, so the lone surrogates for
    which JavaScript throws a URIError cannot occur here.  A decoder is
    defined alongside as the encoder's partner: decoding an encoding gives
    the original text back, which makes the encoding injective. */
module UriComponent {
  import opened Text
  import opened Wrappers
  import opened Decimal

  type Byte = b: int | 0 <= b < 256

  /** The characters `encodeURIComponent` leaves as they are. */
  predicate IsUnreserved(c: char) {
    || IsUpper(c) || IsLower(c) || IsDigit(c)
    || c == '-' || c == '_' || c == '.' || c == '!' || c == '~' || c == '*'
    || c == '\'' || c == '(' || c == ')'
  }

  /** A character that can appear in an encoded component. */
  predicate IsEncodedChar(c: char) {
    IsUnreserved(c) || c == '%'
  }

  /** The UTF-8 encoding of one scalar value. */
  function Utf8(c: char): (bs: seq<Byte>)
    ensures 1 <= |bs| <= 4
    ensures |bs| == 1 <==> c as int < 0x80
  {
    var cp := c as int;
    if cp < 0x80 then [cp]
    else if cp < 0x800 then [0xC0 + cp / 0x40, 0x80 + cp % 0x40]
    else if cp < 0x1_0000 then
      [0xE0 + cp / 0x1000, 0x80 + cp / 0x40 % 0x40, 0x80 + cp % 0x40]
    else
      [0xF0 + cp / 0x4_0000, 0x80 + cp / 0x1000 % 0x40, 0x80 + cp / 0x40 % 0x40, 0x80 + cp % 0x40]
  }

  const HexDigits: string := "0123456789ABCDEF"

  /** `%` followed by the two upper-case hex digits of `b`. */
  function PercentByte(b: Byte): (r: string)
    ensures |r| == 3 && r[0] == '%'
    ensures IsUnreserved(r[1]) && IsUnreserved(r[2])
  {
    ['%', HexDigits[b / 16], HexDigits[b % 16]]
  }

  function PercentBytes(bs: seq<Byte>): (r: string)
    ensures |r| == 3 * |bs|
    ensures forall i :: 0 <= i < |r| ==> IsEncodedChar(r[i])
  {
    if bs == [] then [] else PercentByte(bs[0]) + PercentBytes(bs[1..])
  }

  /** The encoding of a single character. */
  function EncodeChar(c: char): (r: string)
    ensures IsUnreserved(c) ==> r == [c]
    ensures !IsUnreserved(c) ==> |r| == 3 * |Utf8(c)| && r[0] == '%'
    ensures forall i :: 0 <= i < |r| ==> IsEncodedChar(r[i])
  {
    if IsUnreserved(c) then [c] else PercentBytes(Utf8(c))
  }

  /** `encodeURIComponent(s)`.  The result never contains `&` or `=`, so it
      can sit between the separators of a query string. */
  function Encode(s: string): (r: string)
    ensures forall i :: 0 <= i < |r| ==> IsEncodedChar(r[i])
    ensures forall i :: 0 <= i < |r| ==> r[i] != '&' && r[i] != '='
    ensures |s| <= |r|
  {
    if s == [] then [] else EncodeChar(s[0]) + Encode(s[1..])
  }

  // ---------------------------------------------------------------------
  // Decoding, the partner of the encoder.

  /** Reads one `%XY` triple from the front of `e`. */
  function ParseByte(e: string): (r: Option<(Byte, string)>)
    ensures r.Some? ==> |r.value.1| == |e| - 3
  {
    if |e| >= 3 && e[0] == '%' && HexDigitValue(e[1]).Some? && HexDigitValue(e[2]).Some?
       && HexDigitValue(e[1]).value < 16 && HexDigitValue(e[2]).value < 16
    then Some((HexDigitValue(e[1]).value * 16 + HexDigitValue(e[2]).value, e[3..]))
    else None
  }

  /** Reads `n` percent triples from the front of `e`. */
  function ParseBytes(e: string, n: nat): (r: Option<(seq<Byte>, string)>)
    ensures r.Some? ==> |r.value.0| == n && |r.value.1| == |e| - 3 * n
  {
    if n == 0 then Some(([], e))
    else
      match ParseByte(e)
      case None => None
      case Some((b, rest)) =>
        match ParseBytes(rest, n - 1)
        case None => None
        case Some((bs, rest')) => Some(([b] + bs, rest'))
  }

  /** How many bytes the UTF-8 sequence led by `lead` has. */
  function SequenceLength(lead: Byte): (n: nat)
    ensures 1 <= n <= 4
  {
    if lead < 0x80 then 1 else if lead < 0xE0 then 2 else if lead < 0xF0 then 3 else 4
  }

  /** The scalar value a UTF-8 sequence denotes, if it denotes one. */
  function Utf8Decode(bs: seq<Byte>): Option<char>
    requires 1 <= |bs| <= 4
  {
    var cp: int :=
      if |bs| == 1 then bs[0]
      else if |bs| == 2 then (bs[0] as int - 0xC0) * 0x40 + (bs[1] as int - 0x80)
      else if |bs| == 3 then (bs[0] as int - 0xE0) * 0x1000 + (bs[1] as int - 0x80) * 0x40 + (bs[2] as int - 0x80)
      else (bs[0] as int - 0xF0) * 0x4_0000 + (bs[1] as int - 0x80) * 0x1000 + (bs[2] as int - 0x80) * 0x40 + (bs[3] as int - 0x80);
    if 0 <= cp < 0xD800 || 0xE000 <= cp < 0x11_0000 then Some(cp as char) else None
  }

  /** Reads one encoded character from the front of a non-empty `e`. */
  function DecodeChar(e: string): (r: Option<(char, string)>)
    requires e != []
    ensures r.Some? ==> |r.value.1| < |e|
  {
    if e[0] != '%' then Some((e[0], e[1..]))
    else
      match ParseByte(e)
      case None => None
      case Some((lead, _)) =>
        match ParseBytes(e, SequenceLength(lead))
        case None => None
        case Some((bs, rest)) =>
          match Utf8Decode(bs)
          case None => None
          case Some(c) => Some((c, rest))
  }

  /** `decodeURIComponent`, leniently: it does not reject over-long forms. */
  function Decode(e: string): Option<string>
    decreases |e|
  {
    if e == [] then Some([])
    else
      match DecodeChar(e)
      case None => None
      case Some((c, rest)) =>
        match Decode(rest)
        case None => None
        case Some(s) => Some([c] + s)
  }

  // ---------------------------------------------------------------------
  // The round trip.

  lemma ParsePercentByte(b: Byte, rest: string)
    ensures ParseByte(PercentByte(b) + rest) == Some((b, rest))
  {
    var e := PercentByte(b) + rest;
    assert e[3..] == rest;
    assert HexDigitValue(HexDigits[b / 16]) == Some(b / 16);
    assert HexDigitValue(HexDigits[b % 16]) == Some(b % 16);
  }

  lemma {:induction false} ParsePercentBytes(bs: seq<Byte>, rest: string)
    ensures ParseBytes(PercentBytes(bs) + rest, |bs|) == Some((bs, rest))
  {
    if bs != [] {
      ParsePercentBytes(bs[1..], rest);
      ParsePercentBytesStep(bs, rest);
    } else {
      assert PercentBytes(bs) + rest == rest;
    }
  }

  lemma ParsePercentBytesStep(bs: seq<Byte>, rest: string)
    requires bs != []
    requires ParseBytes(PercentBytes(bs[1..]) + rest, |bs| - 1) == Some((bs[1..], rest))
    ensures ParseBytes(PercentBytes(bs) + rest, |bs|) == Some((bs, rest))
  {
    var tail := PercentBytes(bs[1..]) + rest;
    PercentBytesCons(bs, rest);
    ParsePercentByte(bs[0], tail);
    ParseBytesCons(PercentBytes(bs) + rest, |bs|, bs[0], tail, bs[1..], rest);
    SplitHead(bs);
  }

  lemma PercentBytesCons(bs: seq<Byte>, rest: string)
    requires bs != []
    ensures PercentBytes(bs) + rest == PercentByte(bs[0]) + (PercentBytes(bs[1..]) + rest)
  {
  }

  lemma SplitHead(bs: seq<Byte>)
    requires bs != []
    ensures [bs[0]] + bs[1..] == bs
  {
  }

  lemma ParseBytesCons(e: string, n: nat, b: Byte, tail: string, bs: seq<Byte>, rest: string)
    requires n > 0 && ParseByte(e) == Some((b, tail)) && ParseBytes(tail, n - 1) == Some((bs, rest))
    ensures ParseBytes(e, n) == Some(([b] + bs, rest))
  {
  }

  lemma Utf8LeadGivesLength(c: char)
    ensures SequenceLength(Utf8(c)[0]) == |Utf8(c)|
  {
  }

  lemma Utf8RoundTrip(c: char)
    ensures Utf8Decode(Utf8(c)) == Some(c)
  {
    var cp := c as int;
    if cp < 0x80 {
    } else if cp < 0x800 {
      Utf8RoundTripTwo(c);
    } else if cp < 0x1_0000 {
      Utf8RoundTripThree(c);
    } else {
      Utf8RoundTripFour(c);
    }
  }

  lemma Utf8RoundTripTwo(c: char)
    requires 0x80 <= c as int < 0x800
    ensures Utf8Decode(Utf8(c)) == Some(c)
  {
    var cp := c as int;
    assert Utf8(c) == [0xC0 + cp / 0x40, 0x80 + cp % 0x40];
  }

  lemma Utf8RoundTripThree(c: char)
    requires 0x800 <= c as int < 0x1_0000
    ensures Utf8Decode(Utf8(c)) == Some(c)
  {
    var cp := c as int;
    assert Utf8(c) == [0xE0 + cp / 0x1000, 0x80 + cp / 0x40 % 0x40, 0x80 + cp % 0x40];
    SixBitGroups(cp);
  }

  lemma Utf8RoundTripFour(c: char)
    requires 0x1_0000 <= c as int
    ensures Utf8Decode(Utf8(c)) == Some(c)
  {
    var cp := c as int;
    assert Utf8(c) == [0xF0 + cp / 0x4_0000, 0x80 + cp / 0x1000 % 0x40, 0x80 + cp / 0x40 % 0x40, 0x80 + cp % 0x40];
    SixBitGroups(cp);
  }

  /** A code point is its 6-bit groups put back together. */
  lemma SixBitGroups(cp: nat)
    ensures cp / 0x1000 * 0x1000 + cp / 0x40 % 0x40 * 0x40 + cp % 0x40 == cp
    ensures cp / 0x4_0000 * 0x4_0000 + cp / 0x1000 % 0x40 * 0x1000 + cp / 0x40 % 0x40 * 0x40 + cp % 0x40 == cp
  {
    var q1 := cp / 0x40;
    var q2 := q1 / 0x40;
    var q3 := q2 / 0x40;
    assert cp == q1 * 0x40 + cp % 0x40;
    assert q1 == q2 * 0x40 + q1 % 0x40;
    assert q2 == q3 * 0x40 + q2 % 0x40;
    assert cp / 0x1000 == q2;
    assert cp / 0x4_0000 == q3;
  }

  lemma DecodeEncodedChar(c: char, rest: string)
    ensures DecodeChar(EncodeChar(c) + rest) == Some((c, rest))
  {
    if IsUnreserved(c) {
      var e := EncodeChar(c) + rest;
      assert e[1..] == rest;
    } else {
      DecodeEscapedChar(c, rest);
    }
  }

  lemma DecodeEscapedChar(c: char, rest: string)
    requires !IsUnreserved(c)
    ensures DecodeChar(PercentBytes(Utf8(c)) + rest) == Some((c, rest))
  {
    var bs := Utf8(c);
    var e := PercentBytes(bs) + rest;
    assert e == PercentByte(bs[0]) + (PercentBytes(bs[1..]) + rest);
    ParsePercentByte(bs[0], PercentBytes(bs[1..]) + rest);
    Utf8LeadGivesLength(c);
    ParsePercentBytes(bs, rest);
    Utf8RoundTrip(c);
  }

  /** `decodeURIComponent(encodeURIComponent(s)) == s`. */
  lemma {:induction false} DecodeEncode(s: string)
    ensures Decode(Encode(s)) == Some(s)
  {
    if s != [] {
      DecodeEncodedChar(s[0], Encode(s[1..]));
      DecodeEncode(s[1..]);
      assert [s[0]] + s[1..] == s;
    }
  }

  /** Distinct values have distinct encodings. */
  lemma EncodeInjective(s: string, t: string)
    requires Encode(s) == Encode(t)
    ensures s == t
  {
    DecodeEncode(s);
    DecodeEncode(t);
  }

  /** Text made only of unreserved characters is left unchanged. */
  lemma {:induction false} EncodeUnreserved(s: string)
    requires forall i :: 0 <= i < |s| ==> IsUnreserved(s[i])
    ensures Encode(s) == s
  {
    if s != [] {
      EncodeUnreserved(s[1..]);
      assert [s[0]] + s[1..] == s;
    }
  }

  /** Encoding works character by character. */
  lemma {:induction false} EncodeAppend(s: string, t: string)
    ensures Encode(s + t) == Encode(s) + Encode(t)
  {
    if s != [] {
      assert (s + t)[0] == s[0];
      assert (s + t)[1..] == s[1..] + t;
      EncodeAppend(s[1..], t);
    } else {
      assert s + t == t;
    }
  }

  /** The `@` of an e-mail address becomes `%40`; the rest is unreserved. */
  lemma EncodeExampleEmail(v: string)
    requires v == "a@b.com"
    ensures Encode(v) == "a%40b.com"
  {
    var a, at, rest := v[..1], v[1..2], v[2..];
    assert v == a + (at + rest);
    ExampleEmailPieces(v, a, at, rest);
    EncodeAppend(a, at + rest);
    EncodeAppend(at, rest);
  }

  lemma ExampleEmailPieces(v: string, a: string, at: string, rest: string)
    requires v == "a@b.com" && a == v[..1] && at == v[1..2] && rest == v[2..]
    ensures Encode(a) == "a" && Encode(at) == "%40" && Encode(rest) == "b.com"
  {
    EncodeUnreserved(a);
    EncodeUnreserved(rest);
    EncodeAtSign(at);
  }

  lemma EncodeAtSign(at: string)
    requires at == "@"
    ensures Encode(at) == "%40"
  {
    assert Utf8('@') == [0x40];
  }
}
