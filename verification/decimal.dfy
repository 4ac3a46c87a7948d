/** Numerals: the value a run of decimal or hexadecimal digits denotes,
    the shortest digit string of a natural number (JavaScript's `String(n)`
    for a non-negative integer), and JavaScript's `parseInt` without a
    radix. */
module Decimal {
  import opened Text
  import opened Wrappers

  function DigitValue(c: char): (d: nat)
    requires IsDigit(c)
    ensures d < 10
  {
    c as int - '0' as int
  }

  function DigitChar(d: nat): (c: char)
    requires d < 10
    ensures IsDigit(c) && DigitValue(c) == d
  {
    ('0' as int + d) as char
  }

  predicate AllDigits(s: string) {
    forall i :: 0 <= i < |s| ==> IsDigit(s[i])
  }

  /** The value of a digit string read most-significant first. */
  function ValueOf(s: string): nat
    requires AllDigits(s)
  {
    if s == [] then 0 else ValueOf(s[..|s| - 1]) * 10 + DigitValue(s[|s| - 1])
  }

  /** The value of a hexadecimal digit of either case. */
  function HexDigitValue(c: char): (r: Option<nat>)
    ensures r.Some? ==> r.value < 16
    ensures r.Some? <==> IsDigit(c) || 'A' <= c <= 'F' || 'a' <= c <= 'f'
  {
    if '0' <= c <= '9' then Some(c as int - '0' as int)
    else if 'A' <= c <= 'F' then Some(c as int - 'A' as int + 10)
    else if 'a' <= c <= 'f' then Some(c as int - 'a' as int + 10)
    else None
  }

  /** The decimal rendering of `n`, without leading zeros. */
  function NatToString(n: nat): (s: string)
    ensures AllDigits(s) && |s| > 0
    ensures |s| > 1 ==> s[0] != '0'
  {
    if n < 10 then [DigitChar(n)] else NatToString(n / 10) + [DigitChar(n % 10)]
  }

  /** Reading back the rendering of `n` yields `n`. */
  lemma {:induction false} ValueOfNatToString(n: nat)
    ensures ValueOf(NatToString(n)) == n
  {
    var s := NatToString(n);
    if n >= 10 {
      ValueOfNatToString(n / 10);
      assert s[..|s| - 1] == NatToString(n / 10);
    }
  }

  /** Distinct numbers render as distinct strings. */
  lemma NatToStringInjective(m: nat, n: nat)
    requires NatToString(m) == NatToString(n)
    ensures m == n
  {
    ValueOfNatToString(m);
    ValueOfNatToString(n);
  }

  predicate IsNonzeroDigit(c: char) {
    '1' <= c <= '9'
  }

  predicate HasNonzeroDigit(s: string) {
    exists i :: 0 <= i < |s| && IsNonzeroDigit(s[i])
  }

  /** A digit string denotes a positive number exactly when one of its
      digits is not zero. */
  lemma {:induction false} ValuePositiveIff(s: string)
    requires AllDigits(s)
    ensures ValueOf(s) > 0 <==> HasNonzeroDigit(s)
  {
    if s != [] {
      var init := s[..|s| - 1];
      ValuePositiveIff(init);
      if HasNonzeroDigit(init) {
        var i :| 0 <= i < |init| && IsNonzeroDigit(init[i]);
        assert s[i] == init[i];
      }
      if HasNonzeroDigit(s) {
        var i :| 0 <= i < |s| && IsNonzeroDigit(s[i]);
        if i < |s| - 1 {
          assert init[i] == s[i];
        }
      }
    }
  }

  predicate IsHexDigit(c: char) {
    HexDigitValue(c).Some?
  }

  predicate AllHexDigits(s: string) {
    forall i :: 0 <= i < |s| ==> IsHexDigit(s[i])
  }

  function HexValueOf(s: string): nat
    requires AllHexDigits(s)
  {
    if s == [] then 0 else HexValueOf(s[..|s| - 1]) * 16 + HexDigitValue(s[|s| - 1]).value
  }

  /** The longest run of decimal digits at the front of `s`. */
  function DigitPrefix(s: string): (r: string)
    ensures AllDigits(r) && StartsWith(s, r)
    ensures |r| < |s| ==> !IsDigit(s[|r|])
  {
    if s != [] && IsDigit(s[0]) then [s[0]] + DigitPrefix(s[1..]) else []
  }

  /** The longest run of hexadecimal digits at the front of `s`. */
  function HexPrefix(s: string): (r: string)
    ensures AllHexDigits(r) && StartsWith(s, r)
    ensures |r| < |s| ==> !IsHexDigit(s[|r|])
  {
    if s != [] && IsHexDigit(s[0]) then [s[0]] + HexPrefix(s[1..]) else []
  }

  /** `parseInt(s)`: after leading white space, an optional sign, then
      either "0x"/"0X" and hexadecimal digits or decimal digits, read up to
      the first character that is not one.  `None` stands for NaN, the
      result when no digit is found. */
  function ParseInt(s: string): Option<int> {
    ParseSigned(TrimStart(s))
  }

  function ParseSigned(t: string): Option<int> {
    var negative := t != [] && t[0] == '-';
    var magnitude := ParseMagnitude(if t != [] && (t[0] == '-' || t[0] == '+') then t[1..] else t);
    if magnitude.None? then None
    else
      var m: int := magnitude.value;
      Some(if negative then -m else m)
  }

  function ParseMagnitude(u: string): Option<nat> {
    if |u| >= 2 && u[0] == '0' && (u[1] == 'x' || u[1] == 'X') then
      var h := HexPrefix(u[2..]);
      if h == [] then None else Some(HexValueOf(h))
    else
      var d := DigitPrefix(u);
      if d == [] then None else Some(ValueOf(d))
  }

  lemma DigitPrefixOfDigits(d: string, rest: string)
    requires AllDigits(d)
    requires rest == [] || !IsDigit(rest[0])
    ensures DigitPrefix(d + rest) == d
  {
    if d != [] {
      assert (d + rest)[1..] == d[1..] + rest;
      DigitPrefixOfDigits(d[1..], rest);
    } else {
      assert d + rest == rest;
    }
  }

  /** `parseInt` reads back the rendering of any integer, also with white
      space in front and anything after it that does not start with a
      digit (nor, after a lone 0, with an x that would start a hexadecimal
      numeral). */
  lemma ParseIntReadsNumber(n: nat, negative: bool, ws: string, rest: string)
    requires forall i :: 0 <= i < |ws| ==> IsWhitespace(ws[i])
    requires rest == [] || (!IsDigit(rest[0]) && rest[0] != 'x' && rest[0] != 'X')
    requires n > 0 || !negative
    ensures var v: int := if negative then -(n as int) else n;
      ParseInt(ws + ((if negative then "-" else "") + NatToString(n) + rest)) == Some(v)
  {
    var u := NatToString(n) + rest;
    var body := (if negative then "-" else "") + NatToString(n) + rest;
    var v: int := if negative then -(n as int) else n;
    assert body[0] == '-' || body[0] == NatToString(n)[0];
    ParseIntSkipsSpace(ws, body);
    SignedText(negative, NatToString(n), rest);
    if negative {
      NegativeReadsBack(n, rest);
      ParseIntOfSameText(body, "-" + u, Some(v));
    } else {
      NonNegativeReadsBack(n, rest);
      ParseIntOfSameText(body, u, Some(v));
    }
  }

  lemma SignedText(negative: bool, digits: string, rest: string)
    ensures (if negative then "-" else "") + digits + rest
      == if negative then "-" + (digits + rest) else digits + rest
  {
  }

  lemma ParseIntSkipsSpace(ws: string, body: string)
    requires forall i :: 0 <= i < |ws| ==> IsWhitespace(ws[i])
    requires body == [] || !IsWhitespace(body[0])
    ensures ParseInt(ws + body) == ParseInt(body)
  {
    TrimStartSkips(ws, body);
    assert TrimStart(body) == body;
  }

  lemma ParseMagnitudeReadsNumber(n: nat, rest: string)
    requires rest == [] || (!IsDigit(rest[0]) && rest[0] != 'x' && rest[0] != 'X')
    ensures ParseMagnitude(NatToString(n) + rest) == Some(n)
  {
    var digits := NatToString(n);
    var u := digits + rest;
    ValueOfNatToString(n);
    DigitPrefixOfDigits(digits, rest);
    if |u| >= 2 && u[0] == '0' {
      assert |digits| == 1;
      assert u[1] == rest[0];
    }
  }

  lemma {:induction false} TrimStartSkips(ws: string, body: string)
    requires forall i :: 0 <= i < |ws| ==> IsWhitespace(ws[i])
    requires body == [] || !IsWhitespace(body[0])
    ensures TrimStart(ws + body) == body
  {
    if ws == [] {
      assert ws + body == body;
    } else {
      assert (ws + body)[0] == ws[0];
      assert (ws + body)[1..] == ws[1..] + body;
      TrimStartSkips(ws[1..], body);
    }
  }

  /** `String(v)` for an integer `v`: a minus sign exactly for negative
      values, then the digits of the magnitude. */
  function IntToString(v: int): (s: string)
    ensures |s| > 0
    ensures s[0] == '-' <==> v < 0
    ensures v < 0 ==> |s| > 1 && AllDigits(s[1..])
    ensures v >= 0 ==> AllDigits(s)
  {
    if v < 0 then "-" + NatToString(-v) else NatToString(v)
  }

  /** `parseInt` reads back the rendering of any integer followed by text
      that does not continue the numeral. */
  lemma ParseIntOfIntToString(v: int, rest: string)
    requires rest == [] || (!IsDigit(rest[0]) && rest[0] != 'x' && rest[0] != 'X')
    ensures ParseInt(IntToString(v) + rest) == Some(v)
  {
    if v < 0 {
      NegativeIntToString(v, rest);
    } else {
      NonNegativeReadsBack(v, rest);
    }
  }

  /** `parseInt` reads back the decimal rendering of a natural number. */
  lemma ParseIntOfNatToString(n: nat)
    ensures ParseInt(NatToString(n)) == Some(n)
  {
    NonNegativeReadsBack(n, "");
    ParseIntOfSameText(NatToString(n), NatToString(n) + "", Some(n));
  }

  lemma NegativeIntToString(v: int, rest: string)
    requires v < 0
    requires rest == [] || (!IsDigit(rest[0]) && rest[0] != 'x' && rest[0] != 'X')
    ensures ParseInt(IntToString(v) + rest) == Some(v)
  {
    var n: nat := -v;
    NegativeReadsBack(n, rest);
    NegativeText(v, n, rest);
    ParseIntOfSameText(IntToString(v) + rest, "-" + (NatToString(n) + rest), Some(-(n as int)));
  }

  lemma NegativeText(v: int, n: nat, rest: string)
    requires v < 0 && n == -v
    ensures IntToString(v) + rest == "-" + (NatToString(n) + rest)
  {
  }

  /** Stated as a lemma so that callers need not unfold `parseInt` to
      rewrite its argument. */
  lemma ParseIntOfSameText(a: string, b: string, r: Option<int>)
    requires a == b && ParseInt(b) == r
    ensures ParseInt(a) == r
  {
  }

  lemma NonNegativeReadsBack(n: nat, rest: string)
    requires rest == [] || (!IsDigit(rest[0]) && rest[0] != 'x' && rest[0] != 'X')
    ensures ParseInt(NatToString(n) + rest) == Some(n)
  {
    var u := NatToString(n) + rest;
    ParseMagnitudeReadsNumber(n, rest);
    assert u[0] == NatToString(n)[0];
    ParseIntUnsigned(u, n);
  }

  lemma NegativeReadsBack(n: nat, rest: string)
    requires rest == [] || (!IsDigit(rest[0]) && rest[0] != 'x' && rest[0] != 'X')
    ensures ParseInt("-" + (NatToString(n) + rest)) == Some(-(n as int))
  {
    var u := NatToString(n) + rest;
    ParseMagnitudeReadsNumber(n, rest);
    assert u[0] == NatToString(n)[0];
    ParseIntNegated(u, n);
  }

  /** A numeral opening with a digit is read as its magnitude. */
  lemma ParseIntUnsigned(u: string, m: nat)
    requires u != [] && IsDigit(u[0]) && ParseMagnitude(u) == Some(m)
    ensures ParseInt(u) == Some(m)
  {
    TrimStartOfDigitLead(u);
    ParseSignedOfDigitLead(u, m);
  }

  /** A minus sign in front of such a numeral negates it. */
  lemma ParseIntNegated(u: string, m: nat)
    requires u != [] && IsDigit(u[0]) && ParseMagnitude(u) == Some(m)
    ensures ParseInt("-" + u) == Some(-(m as int))
  {
    TrimStartOfMinusLead(u);
    ParseSignedOfMinusLead(u, m);
  }

  lemma TrimStartOfDigitLead(u: string)
    requires u != [] && IsDigit(u[0])
    ensures TrimStart(u) == u
  {
    assert !IsWhitespace(u[0]);
  }

  lemma TrimStartOfMinusLead(u: string)
    ensures TrimStart("-" + u) == "-" + u
  {
  }

  lemma ParseSignedOfDigitLead(u: string, m: nat)
    requires u != [] && IsDigit(u[0]) && ParseMagnitude(u) == Some(m)
    ensures ParseSigned(u) == Some(m)
  {
  }

  lemma ParseSignedOfMinusLead(u: string, m: nat)
    requires u != [] && IsDigit(u[0]) && ParseMagnitude(u) == Some(m)
    ensures ParseSigned("-" + u) == Some(-(m as int))
  {
    assert ("-" + u)[1..] == u;
  }

  /** On a string of digits alone `parseInt` gives the value of all of
      them, and NaN on the empty string. */
  lemma ParseIntOfDigits(d: string)
    requires AllDigits(d)
    ensures ParseInt(d) == (if d == [] then None else Some(ValueOf(d)))
  {
    if d == [] {
      ParseIntOfEmpty();
    } else {
      ParseMagnitudeOfDigits(d);
      ParseIntUnsigned(d, ValueOf(d));
    }
  }

  lemma ParseIntOfEmpty()
    ensures ParseInt([]) == None
  {
    var t := TrimStart([]);
    assert t == [];
    assert ParseMagnitude(t) == None;
  }

  lemma ParseMagnitudeOfDigits(d: string)
    requires AllDigits(d) && d != []
    ensures ParseMagnitude(d) == Some(ValueOf(d))
  {
    DigitPrefixOfDigits(d, []);
    assert d + [] == d;
    if |d| >= 2 {
      assert IsDigit(d[1]);
    }
  }
}
