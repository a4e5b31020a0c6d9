/**
  The integer part of JavaScript's number handling that the system relies on: `parseInt(s)` without a
  radix argument, `Number.prototype.toString()` on integers, `Math.round` of a quotient and `Math.ceil`
  of a quotient. Numbers are unbounded integers here; see the README for what that leaves out.
*/
module JsNumber {
  import opened Wrappers

  predicate IsDecimalDigit(c: char) {
    '0' <= c <= '9'
  }

  predicate IsHexLetter(c: char) {
    ('a' <= c <= 'f') || ('A' <= c <= 'F')
  }

  /** Whether `c` is a digit in base 10 or base 16. */
  predicate IsDigitIn(c: char, radix: nat) {
    IsDecimalDigit(c) || (radix == 16 && IsHexLetter(c))
  }

  function DigitValue(c: char, radix: nat): (d: nat)
    requires IsDigitIn(c, radix)
    ensures d < radix || (radix < 10 && IsDecimalDigit(c))
    ensures radix == 10 ==> d < 10
  {
    if IsDecimalDigit(c) then (c as int) - ('0' as int)
    else if 'a' <= c <= 'f' then (c as int) - ('a' as int) + 10
    else (c as int) - ('A' as int) + 10
  }

  predicate AllDigitsIn(s: string, radix: nat) {
    forall i :: 0 <= i < |s| ==> IsDigitIn(s[i], radix)
  }

  /** The value of a digit string, most significant digit first. */
  function DigitsValue(s: string, radix: nat): nat
    requires AllDigitsIn(s, radix)
  {
    if s == [] then 0 else radix * DigitsValue(s[..|s| - 1], radix) + DigitValue(s[|s| - 1], radix)
  }

  /** Length of the longest prefix of `s` made of digits of the radix. */
  function DigitRun(s: string, radix: nat): (n: nat)
    ensures n <= |s|
    ensures AllDigitsIn(s[..n], radix)
    ensures n < |s| ==> !IsDigitIn(s[n], radix)
  {
    if s == [] || !IsDigitIn(s[0], radix) then 0
    else
      var rest := DigitRun(s[1..], radix);
      assert s[..rest + 1] == [s[0]] + s[1..][..rest];
      rest + 1
  }

  function DigitChar(d: nat): (c: char)
    requires d < 10
    ensures IsDecimalDigit(c) && DigitValue(c, 10) == d
  {
    (('0' as int) + d) as char
  }

  /** Decimal rendering of a natural number, without leading zeros. */
  function NatToString(n: nat): (s: string)
    ensures |s| > 0 && AllDigitsIn(s, 10)
    ensures DigitsValue(s, 10) == n
    ensures s[0] == '0' ==> n == 0
    decreases n
  {
    if n < 10 then [DigitChar(n)]
    else
      var prefix := NatToString(n / 10);
      var s := prefix + [DigitChar(n % 10)];
      assert s[..|s| - 1] == prefix;
      s
  }

  /** `n.toString()` for an integral number. */
  function IntToString(n: int): (s: string)
    ensures n >= 0 ==> s == NatToString(n)
    ensures n < 0 ==> s == "-" + NatToString(-n)
  {
    if n < 0 then "-" + NatToString(-n) else NatToString(n)
  }

  /** The characters JavaScript's `parseInt` skips before the number (WhiteSpace and LineTerminator). */
  predicate IsJsWhitespace(c: char) {
    || c == '\t' || c == '\n' || c == '\r' || c == ' '
    || c == '\U{000B}' || c == '\U{000C}' || c == '\U{00A0}' || c == '\U{1680}'
    || ('\U{2000}' <= c <= '\U{200A}')
    || c == '\U{2028}' || c == '\U{2029}' || c == '\U{202F}' || c == '\U{205F}'
    || c == '\U{3000}' || c == '\U{FEFF}'
  }

  function TrimStart(s: string): (t: string)
    ensures |t| <= |s| && t == s[|s| - |t|..]
    ensures t == [] || !IsJsWhitespace(t[0])
    ensures forall i :: 0 <= i < |s| - |t| ==> IsJsWhitespace(s[i])
  {
    if s != [] && IsJsWhitespace(s[0]) then TrimStart(s[1..]) else s
  }

  predicate HasHexPrefix(s: string) {
    |s| >= 2 && s[0] == '0' && (s[1] == 'x' || s[1] == 'X')
  }

  /** The digits after the sign: base 16 after a `0x`/`0X` prefix, base 10 otherwise. */
  function ParseUnsigned(u: string): (r: Option<nat>)
    ensures r.None? <==> DigitRun(if HasHexPrefix(u) then u[2..] else u, if HasHexPrefix(u) then 16 else 10) == 0
  {
    var radix := if HasHexPrefix(u) then 16 else 10;
    var body := if radix == 16 then u[2..] else u;
    var run := DigitRun(body, radix);
    if run == 0 then None else Some(DigitsValue(body[..run], radix))
  }

  /**
    `parseInt(s)` with no radix: skip leading whitespace, read an optional sign, then the longest run of
    digits. `None` stands for `NaN` (no digit read).
  */
  function ParseInt(s: string): (r: Option<int>)
    ensures r.Some? && r.value < 0 ==> TrimStart(s) != [] && TrimStart(s)[0] == '-'
    ensures r.Some? ==> exists k :: 0 <= k < |s| && IsDecimalDigit(s[k])
  {
    var t := TrimStart(s);
    if t != [] && t[0] == '-' then
      match ParseUnsigned(t[1..])
      case None => None
      case Some(m) => Some(-(m as int))
    else if t != [] && t[0] == '+' then
      match ParseUnsigned(t[1..])
      case None => None
      case Some(m) => Some(m)
    else
      match ParseUnsigned(t)
      case None => None
      case Some(m) => Some(m)
  }

  lemma {:induction false} DigitRunPrefix(digits: string, rest: string, radix: nat)
    requires AllDigitsIn(digits, radix)
    requires rest == [] || !IsDigitIn(rest[0], radix)
    ensures DigitRun(digits + rest, radix) == |digits|
    decreases |digits|
  {
    var s := digits + rest;
    if digits == [] {
      assert s == rest;
    } else {
      assert s[0] == digits[0] && IsDigitIn(s[0], radix);
      assert s[1..] == digits[1..] + rest;
      assert AllDigitsIn(digits[1..], radix) by {
        forall i | 0 <= i < |digits[1..]| ensures IsDigitIn(digits[1..][i], radix) {
          assert digits[1..][i] == digits[i + 1];
        }
      }
      DigitRunPrefix(digits[1..], rest, radix);
    }
  }

  /** A run of decimal digits, not starting with a hex prefix, reads as its value whatever follows it. */
  lemma ParseUnsignedOfDigits(digits: string, rest: string)
    requires digits != [] && AllDigitsIn(digits, 10)
    requires !HasHexPrefix(digits + rest)
    requires rest == [] || !IsDecimalDigit(rest[0])
    ensures ParseUnsigned(digits + rest) == Some(DigitsValue(digits, 10))
  {
    var s := digits + rest;
    DigitRunPrefix(digits, rest, 10);
    assert s[..|digits|] == digits;
  }

  lemma TrimStartOfNonBlank(s: string)
    requires s != [] && !IsJsWhitespace(s[0])
    ensures TrimStart(s) == s
  {
  }

  /** A string without a decimal digit reads as `NaN`: even a hex number needs the `0` of its `0x`. */
  lemma ParseIntWithoutDigits(s: string)
    requires forall k :: 0 <= k < |s| ==> !IsDecimalDigit(s[k])
    ensures ParseInt(s).None?
  {
  }

  /**
    `parseInt` stops at the first character that cannot continue the number: an integer's decimal string
    followed by anything that is neither a digit nor an `x` reads as that integer.
  */
  lemma ParseIntIgnoresSuffix(n: int, rest: string)
    requires rest == [] || (!IsDecimalDigit(rest[0]) && rest[0] != 'x' && rest[0] != 'X')
    ensures ParseInt(IntToString(n) + rest) == Some(n)
  {
    var m: nat := if n < 0 then -n else n;
    var digits := NatToString(m);
    var u := digits + rest;
    DigitsThenSuffix(digits, rest);
    ParseUnsignedOfDigits(digits, rest);
    assert ParseUnsigned(u) == Some(m);
    ParseIntOfUnsigned(u);
    if n < 0 {
      MinusAssoc(digits, rest);
    }
  }

  lemma MinusAssoc(a: string, b: string)
    ensures ("-" + a) + b == "-" + (a + b)
  {
  }

  /** `parseInt` of a string opening with a digit, with or without a leading minus, is its unsigned reading, signed. */
  lemma ParseIntOfUnsigned(u: string)
    requires u != [] && IsDecimalDigit(u[0]) && ParseUnsigned(u).Some?
    ensures ParseInt(u) == Some(ParseUnsigned(u).value as int)
    ensures ParseInt("-" + u) == Some(-(ParseUnsigned(u).value as int))
  {
    TrimStartOfNonBlank(u);
    var s := "-" + u;
    TrimStartOfNonBlank(s);
    assert s[1..] == u;
  }

  /** The unsigned part of such a string opens with a decimal digit and no hex prefix. */
  lemma DigitsThenSuffix(digits: string, rest: string)
    requires digits != [] && AllDigitsIn(digits, 10)
    requires rest == [] || (!IsDecimalDigit(rest[0]) && rest[0] != 'x' && rest[0] != 'X')
    ensures (digits + rest)[0] == digits[0] && IsDecimalDigit(digits[0]) && !IsJsWhitespace(digits[0])
    ensures digits[0] != '-' && digits[0] != '+'
    ensures !HasHexPrefix(digits + rest)
  {
    assert IsDigitIn(digits[0], 10);
    if |digits| >= 2 {
      assert (digits + rest)[1] == digits[1];
      assert IsDigitIn(digits[1], 10);
    } else if |digits + rest| >= 2 {
      assert (digits + rest)[1] == rest[0];
    }
  }

  /** Reading back what `toString` wrote gives the same integer. */
  lemma ParseIntOfIntToString(n: int)
    ensures ParseInt(IntToString(n)) == Some(n)
  {
    var digits := NatToString(if n < 0 then -n else n);
    assert !HasHexPrefix(digits) by {
      if |digits| >= 2 {
        assert IsDecimalDigit(digits[1]);
      }
    }
    assert digits + [] == digits;
    ParseUnsignedOfDigits(digits, []);
    assert IsDecimalDigit(digits[0]);
    if n < 0 {
      var s := "-" + digits;
      assert IntToString(n) == s;
      TrimStartOfNonBlank(s);
      assert s[1..] == digits;
    } else {
      assert IntToString(n) == digits;
      TrimStartOfNonBlank(digits);
    }
  }

  /** `Math.round(num / den)` for a positive denominator: the nearest integer, halves rounded up. */
  function RoundDiv(num: int, den: int): (r: int)
    requires den > 0
    ensures 2 * den * r - den <= 2 * num < 2 * den * r + den
  {
    (2 * num + den) / (2 * den)
  }

  /** `Math.ceil(num / den)` for a positive denominator. */
  function CeilDiv(num: int, den: int): (r: int)
    requires den > 0
    ensures den * (r - 1) < num <= den * r
  {
    (num + den - 1) / den
  }

  lemma PositiveFactor(den: int, x: int)
    requires den > 0 && den * x < den
    ensures x <= 0
  {
  }

  /** The rounded quotient stays within bounds that bracket the exact quotient. */
  lemma RoundDivBounds(num: int, den: int, lo: int, hi: int)
    requires den > 0 && lo * den <= num <= hi * den
    ensures lo <= RoundDiv(num, den) <= hi
  {
    var r := RoundDiv(num, den);
    assert 2 * den * lo < 2 * den * r + den;
    assert den * (2 * lo - 2 * r) < den;
    PositiveFactor(den, 2 * lo - 2 * r);
    assert 2 * den * r - den <= 2 * den * hi;
    assert den * (2 * r - 2 * hi) <= den;
    assert den * (2 * r - 2 * hi - 1) < den;
    PositiveFactor(den, 2 * r - 2 * hi - 1);
  }
}
