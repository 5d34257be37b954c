/**
 * The JavaScript string primitives the form builder and the API handlers rely on:
 * String.prototype.trim, Number.prototype.toString on integers, and the global
 * parseInt called without a radix (section 19.2.5 of ECMA-262).
 */
module JsString {
  import opened Wrappers

  /** WhiteSpace and LineTerminator code points (sections 12.2 and 12.3 of ECMA-262). */
  predicate IsWhitespace(c: char) {
    || c == '\t' || c == '\U{000B}' || c == '\U{000C}' || c == ' '
    || c == '\U{00A0}' || c == '\U{FEFF}' || c == '\U{1680}'
    || ('\U{2000}' <= c <= '\U{200A}')
    || c == '\U{202F}' || c == '\U{205F}' || c == '\U{3000}'
    || c == '\n' || c == '\r' || c == '\U{2028}' || c == '\U{2029}'
  }

  predicate AllWhitespace(s: string) {
    forall i | 0 <= i < |s| :: IsWhitespace(s[i])
  }

  /** The number of white space characters `s` starts with. */
  function LeadingBlanks(s: string): (k: nat)
    ensures k <= |s|
    ensures forall i | 0 <= i < k :: IsWhitespace(s[i])
    ensures k == |s| || !IsWhitespace(s[k])
  {
    if s == [] || !IsWhitespace(s[0]) then 0 else 1 + LeadingBlanks(s[1..])
  }

  /** The number of white space characters `s` ends with. */
  function TrailingBlanks(s: string): (k: nat)
    ensures k <= |s|
    ensures forall i | |s| - k <= i < |s| :: IsWhitespace(s[i])
    ensures k == |s| || !IsWhitespace(s[|s| - k - 1])
  {
    if s == [] || !IsWhitespace(s[|s| - 1]) then 0 else 1 + TrailingBlanks(s[..|s| - 1])
  }

  /** The part of `s` after its leading white space. */
  function TrimStart(s: string): string {
    s[LeadingBlanks(s)..]
  }

  /** `s` is `r` with white space (possibly none) on both sides. */
  ghost predicate IsBlankFramed(r: string, s: string) {
    exists i :: FramedAt(r, s, i)
  }

  /** `s` is white space, then `r` from index `i`, then white space. */
  ghost predicate FramedAt(r: string, s: string, i: int) {
    && 0 <= i <= |s| - |r|
    && s[i..i + |r|] == r
    && (forall k | 0 <= k < i :: IsWhitespace(s[k]))
    && (forall k | i + |r| <= k < |s| :: IsWhitespace(s[k]))
  }

  /** String.prototype.trim: drops the white space at both ends. */
  function Trim(s: string): (r: string)
    ensures IsBlankFramed(r, s)
    ensures r == [] || (!IsWhitespace(r[0]) && !IsWhitespace(r[|r| - 1]))
    ensures r == [] <==> AllWhitespace(s)
  {
    var a := LeadingBlanks(s);
    if a == |s| then
      assert FramedAt([], s, a);
      []
    else
      var b := |s| - TrailingBlanks(s);
      assert a < b;
      var r := s[a..b];
      assert s[a..a + |r|] == r;
      assert FramedAt(r, s, a);
      r
  }

  /** Trimming twice is trimming once: a title sent already trimmed is unchanged by trimming it again. */
  lemma TrimIdempotent(s: string)
    ensures Trim(Trim(s)) == Trim(s)
  {
    var r := Trim(s);
    if r != [] {
      assert LeadingBlanks(r) == 0 && TrailingBlanks(r) == 0;
      assert r[0..|r|] == r;
    }
  }

  predicate IsDecimalDigit(c: char) { '0' <= c <= '9' }

  predicate IsDigitIn(c: char, radix: nat) {
    || IsDecimalDigit(c)
    || (radix == 16 && ('a' <= c <= 'f' || 'A' <= c <= 'F'))
  }

  function DigitValue(c: char): (d: nat)
    requires IsDigitIn(c, 16)
    ensures d < 16 && (IsDecimalDigit(c) <==> d < 10)
  {
    if IsDecimalDigit(c) then c as int - '0' as int
    else if 'a' <= c <= 'f' then c as int - 'a' as int + 10
    else c as int - 'A' as int + 10
  }

  predicate AllDigits(s: string, radix: nat) {
    forall i | 0 <= i < |s| :: IsDigitIn(s[i], radix)
  }

  /** The longest prefix of `s` made of digits of `radix`. */
  function DigitPrefix(s: string, radix: nat): (r: string)
    ensures |r| <= |s| && r == s[..|r|]
    ensures AllDigits(r, radix)
    ensures |r| == |s| || !IsDigitIn(s[|r|], radix)
  {
    if s == [] || !IsDigitIn(s[0], radix) then [] else [s[0]] + DigitPrefix(s[1..], radix)
  }

  /** The mathematical value of a digit string, most significant digit first. */
  function DigitsValue(d: string, radix: nat): nat
    requires radix == 10 || radix == 16
    requires AllDigits(d, radix)
  {
    if d == [] then 0 else DigitsValue(d[..|d| - 1], radix) * radix + DigitValue(d[|d| - 1])
  }

  /** The value of the longest digit prefix of `s`, or `None` when `s` does not start with a digit. */
  function LeadingNumber(s: string, radix: nat): (r: Option<int>)
    requires radix == 10 || radix == 16
    ensures r.Some? ==> s != [] && IsDigitIn(s[0], radix) && r.value >= 0
    ensures r.None? <==> s == [] || !IsDigitIn(s[0], radix)
  {
    var z := DigitPrefix(s, radix);
    if z == [] then None else Some(DigitsValue(z, radix))
  }

  predicate HasHexPrefix(u: string) {
    |u| >= 2 && u[0] == '0' && (u[1] == 'x' || u[1] == 'X')
  }

  /**
   * `u` starts with a number parseInt can read: a decimal digit, and when that digit opens
   * a "0x"/"0X" prefix, a hexadecimal digit right after the prefix.
   */
  predicate StartsNumber(u: string) {
    && u != [] && IsDecimalDigit(u[0])
    && (HasHexPrefix(u) ==> |u| > 2 && IsDigitIn(u[2], 16))
  }

  /** An optional sign: empty, "-" or "+". */
  predicate IsSign(sign: string) {
    sign == [] || (|sign| == 1 && (sign[0] == '-' || sign[0] == '+'))
  }

  /** `m` under the optional sign `sign`. */
  function Signed(sign: string, m: nat): int {
    if sign != [] && sign[0] == '-' then -(m as int) else m
  }

  /** The unsigned part of parseInt: a "0x"/"0X" prefix selects hexadecimal, anything else decimal. */
  function ParseMagnitude(u: string): (r: Option<int>)
    ensures r.Some? ==> u != [] && IsDecimalDigit(u[0]) && r.value >= 0
  {
    if HasHexPrefix(u) then LeadingNumber(u[2..], 16) else LeadingNumber(u, 10)
  }

  /** What follows an optional leading '-' or '+'. */
  function Unsigned(t: string): (u: string)
    ensures |u| <= |t| && u == t[|t| - |u|..]
  {
    if t != [] && (t[0] == '-' || t[0] == '+') then t[1..] else t
  }

  /** parseInt after the leading white space is gone: an optional sign, then the magnitude. */
  function ParseSigned(t: string): (r: Option<int>)
    ensures r.Some? ==> exists i | 0 <= i < |t| :: IsDecimalDigit(t[i])
  {
    if t != [] && (t[0] == '-' || t[0] == '+') then
      match ParseMagnitude(t[1..])
      case None => None
      case Some(m) =>
        assert t[1..][0] == t[1];
        Some(if t[0] == '-' then -m else m)
    else
      ParseMagnitude(t)
  }

  /**
   * parseInt(s) with no radix: skip leading white space, take an optional sign,
   * read a "0x"/"0X" prefix as hexadecimal, then the longest digit prefix.
   * `None` is NaN (no digits at all); -0 is read as 0.
   */
  function ParseInt(s: string): (r: Option<int>)
    ensures (forall i | 0 <= i < |s| :: !IsDecimalDigit(s[i])) ==> r == None
  {
    var t := TrimStart(s);
    var r := ParseSigned(t);
    assert forall i | 0 <= i < |t| :: t[i] == s[LeadingBlanks(s) + i];
    r
  }

  function DigitChar(d: nat): (c: char)
    requires d < 10
    ensures IsDecimalDigit(c) && DigitValue(c) == d
  {
    ('0' as int + d) as char
  }

  /** Decimal rendering of a natural number, without leading zeros. */
  function NatToDecimal(n: nat): (r: string)
    ensures |r| >= 1 && AllDigits(r, 10)
    ensures r[0] == '0' <==> n == 0
    ensures n == 0 ==> r == "0"
  {
    if n < 10 then [DigitChar(n)] else NatToDecimal(n / 10) + [DigitChar(n % 10)]
  }

  /** Number.prototype.toString (and template-literal interpolation) for an integral number. */
  function IntToString(n: int): (r: string)
    ensures |r| >= 1 && (IsDecimalDigit(r[0]) || r[0] == '-')
    ensures r[0] == '-' <==> n < 0
    ensures var digits := if n < 0 then r[1..] else r;
            AllDigits(digits, 10) && DigitsValue(digits, 10) == (if n < 0 then -n else n)
  {
    if n < 0 then
      DecimalValue(-n);
      assert ("-" + NatToDecimal(-n))[1..] == NatToDecimal(-n);
      "-" + NatToDecimal(-n)
    else
      DecimalValue(n);
      NatToDecimal(n)
  }

  lemma {:induction false} DecimalValue(n: nat)
    ensures DigitsValue(NatToDecimal(n), 10) == n
  {
    if n >= 10 {
      var d := NatToDecimal(n);
      assert d[..|d| - 1] == NatToDecimal(n / 10);
      DecimalValue(n / 10);
    }
  }

  lemma {:induction false} DigitPrefixOfDigits(d: string, rest: string, radix: nat)
    requires AllDigits(d, radix)
    requires rest == [] || !IsDigitIn(rest[0], radix)
    ensures DigitPrefix(d + rest, radix) == d
  {
    if d == [] {
      assert d + rest == rest;
    } else {
      assert (d + rest)[0] == d[0];
      assert (d + rest)[1..] == d[1..] + rest;
      DigitPrefixOfDigits(d[1..], rest, radix);
      assert d == [d[0]] + d[1..];
    }
  }

  lemma MagnitudeOfDecimal(m: nat, rest: string)
    requires rest == [] || !IsDecimalDigit(rest[0])
    requires m == 0 && rest != [] ==> rest[0] != 'x' && rest[0] != 'X'
    ensures ParseMagnitude(NatToDecimal(m) + rest) == Some(m)
  {
    var d := NatToDecimal(m);
    var u := d + rest;
    assert u[0] == d[0];
    assert !HasHexPrefix(u) by {
      if |u| >= 2 && u[0] == '0' {
        assert d == "0";
        assert u[1] == rest[0];
      }
    }
    DigitPrefixOfDigits(d, rest, 10);
    DecimalValue(m);
  }

  /**
   * Rendering an integer and reading it back with parseInt gives it back, even with
   * trailing text, as long as that text does not continue the number: it must not start
   * with a digit, nor turn a leading "0" into a "0x" prefix.
   */
  lemma ParseIntReadsDecimalPrefix(n: int, rest: string)
    requires rest == [] || !IsDecimalDigit(rest[0])
    requires n == 0 && rest != [] ==> rest[0] != 'x' && rest[0] != 'X'
    ensures ParseInt(IntToString(n) + rest) == Some(n)
    ensures n >= 0 ==> ParseInt("+" + IntToString(n) + rest) == Some(n)
  {
    var m: nat := if n < 0 then -n else n;
    var sign := if n < 0 then "-" else "";
    MagnitudeOfDecimal(m, rest);
    SignAndDigits(n);
    SignedThenMagnitude(sign, NatToDecimal(m), rest);
    if n >= 0 {
      SignedThenMagnitude("+", NatToDecimal(m), rest);
    }
  }

  /**
   * A "0x" or "0X" prefix after the optional sign makes parseInt read the longest run of
   * hexadecimal digits that follows; the text after that run is ignored.
   */
  lemma ParseIntHex(sign: string, x: char, d: string, rest: string)
    requires IsSign(sign)
    requires x == 'x' || x == 'X'
    requires d != [] && AllDigits(d, 16)
    requires rest == [] || !IsDigitIn(rest[0], 16)
    ensures ParseInt(sign + ['0', x] + d + rest)
            == Some(Signed(sign, DigitsValue(d, 16)))
  {
    var u := ['0', x] + (d + rest);
    assert sign + ['0', x] + d + rest == sign + u by {
      ConcatAssoc(sign + ['0', x], d, rest);
      ConcatAssoc(sign, ['0', x], d + rest);
    }
    HexMagnitude(x, d, rest);
    SignedMagnitude(sign, u, DigitsValue(d, 16));
  }

  lemma HexMagnitude(x: char, d: string, rest: string)
    requires x == 'x' || x == 'X'
    requires d != [] && AllDigits(d, 16)
    requires rest == [] || !IsDigitIn(rest[0], 16)
    ensures ParseMagnitude(['0', x] + (d + rest)) == Some(DigitsValue(d, 16))
  {
    var u := ['0', x] + (d + rest);
    assert HasHexPrefix(u);
    assert u[2..] == d + rest;
    DigitPrefixOfDigits(d, rest, 16);
  }

  /** A "0x" or "0X" prefix with no hexadecimal digit after it reads as NaN. */
  lemma ParseIntHexWithoutDigits(sign: string, x: char, rest: string)
    requires IsSign(sign)
    requires x == 'x' || x == 'X'
    requires rest == [] || !IsDigitIn(rest[0], 16)
    ensures ParseInt(sign + ['0', x] + rest) == None
  {
    var u := ['0', x] + rest;
    assert HasHexPrefix(u) && u[2..] == rest;
    SignedNaN(sign, u);
    ConcatAssoc(sign, ['0', x], rest);
  }

  /** parseInt of an optional sign followed by a digit that starts no magnitude is NaN. */
  lemma SignedNaN(sign: string, u: string)
    requires IsSign(sign)
    requires u != [] && IsDecimalDigit(u[0])
    requires ParseMagnitude(u) == None
    ensures ParseInt(sign + u) == None
  {
    var s := sign + u;
    if sign == [] {
      assert s == u;
    } else {
      assert s[0] == sign[0] && s[1..] == u;
    }
    NotWhitespace(s[0]);
    assert TrimStart(s) == s;
  }

  lemma ConcatAssoc(a: string, b: string, c: string)
    ensures (a + b) + c == a + (b + c)
  {
  }

  lemma SignAndDigits(n: int)
    ensures IntToString(n) == (if n < 0 then "-" else "") + NatToDecimal(if n < 0 then -n else n)
  {
  }

  /**
   * The longest run of decimal digits is read, leading zeros included ("007" is 7), after an
   * optional sign, as long as the digits do not open a "0x"/"0X" prefix.
   */
  lemma ParseIntDigits(sign: string, d: string, rest: string)
    requires IsSign(sign)
    requires d != [] && AllDigits(d, 10)
    requires rest == [] || !IsDecimalDigit(rest[0])
    requires !HasHexPrefix(d + rest)
    ensures ParseInt(sign + d + rest)
            == Some(Signed(sign, DigitsValue(d, 10)))
  {
    DecimalMagnitude(d, rest);
    SignedThenMagnitude(sign, d, rest);
  }

  lemma SignedThenMagnitude(sign: string, d: string, rest: string)
    requires IsSign(sign)
    requires ParseMagnitude(d + rest).Some?
    ensures ParseInt(sign + d + rest) == Some(Signed(sign, ParseMagnitude(d + rest).value))
  {
    SignedMagnitude(sign, d + rest, ParseMagnitude(d + rest).value);
    ConcatAssoc(sign, d, rest);
  }

  lemma DecimalMagnitude(d: string, rest: string)
    requires d != [] && AllDigits(d, 10)
    requires rest == [] || !IsDecimalDigit(rest[0])
    requires !HasHexPrefix(d + rest)
    ensures ParseMagnitude(d + rest) == Some(DigitsValue(d, 10))
  {
    DigitPrefixOfDigits(d, rest, 10);
  }

  /**
   * parseInt is NaN when, after the white space and an optional sign, there is no decimal
   * digit to start from ("abc12", "- 5", "+-5").
   */
  lemma ParseIntNoLeadingDigit(s: string)
    requires var u := Unsigned(TrimStart(s)); u == [] || !IsDecimalDigit(u[0])
    ensures ParseInt(s) == None
  {
    ParseIntNaN(s);
  }

  /**
   * Exactly when parseInt is NaN: after the white space and an optional sign there is no
   * number to read, either no decimal digit or a "0x"/"0X" prefix without a hexadecimal digit.
   */
  lemma ParseIntNaN(s: string)
    ensures ParseInt(s).None? <==> !StartsNumber(Unsigned(TrimStart(s)))
  {
    var t := TrimStart(s);
    MagnitudeDefined(Unsigned(t));
    assert ParseInt(s).None? <==> ParseMagnitude(Unsigned(t)).None?;
  }

  lemma MagnitudeDefined(u: string)
    ensures ParseMagnitude(u).Some? <==> StartsNumber(u)
  {
    if HasHexPrefix(u) {
      assert LeadingNumber(u[2..], 16).Some? <==> |u| > 2 && IsDigitIn(u[2], 16);
    }
  }

  /** parseInt of an optional sign followed by a magnitude. */
  lemma SignedMagnitude(sign: string, u: string, m: nat)
    requires IsSign(sign)
    requires ParseMagnitude(u) == Some(m)
    ensures ParseInt(sign + u) == Some(Signed(sign, m))
  {
    var s := sign + u;
    if sign == [] {
      assert s == u;
    } else {
      assert s[0] == sign[0] && s[1..] == u;
    }
    NotWhitespace(s[0]);
    assert TrimStart(s) == s;
  }

  lemma NotWhitespace(c: char)
    requires IsDecimalDigit(c) || c == '-' || c == '+'
    ensures !IsWhitespace(c)
  {
  }

  lemma ParseIntOfDecimal(n: int)
    ensures ParseInt(IntToString(n)) == Some(n)
  {
    ParseIntReadsDecimalPrefix(n, []);
    assert IntToString(n) + [] == IntToString(n);
  }

  lemma {:induction false} LeadingBlanksOfPrefix(w: string, s: string)
    requires AllWhitespace(w)
    ensures LeadingBlanks(w + s) == |w| + LeadingBlanks(s)
  {
    if w != [] {
      assert (w + s)[0] == w[0];
      assert (w + s)[1..] == w[1..] + s;
      LeadingBlanksOfPrefix(w[1..], s);
    } else {
      assert w + s == s;
    }
  }

  /** Leading white space never changes what parseInt reads. */
  lemma ParseIntSkipsWhitespace(w: string, s: string)
    requires AllWhitespace(w)
    ensures ParseInt(w + s) == ParseInt(s)
  {
    LeadingBlanksOfPrefix(w, s);
    assert TrimStart(w + s) == TrimStart(s);
  }
}
