/**
 * Measurement values. Every value in the input has exactly one fractional
 * digit, so the model keeps values as integer tenths: `-12.3` is -123.
 * `ParseTenths` stands for `Double.valueOf` on such text and `FormatTenths`
 * for `String.format("%.1f", ...)` of such a value.
 */
module Values {
  import opened Basics

  const MINUS: byte := 45
  const DOT: byte := 46
  const ZERO: byte := 48

  predicate IsDigit(b: byte) { ZERO <= b <= ZERO + 9 }

  predicate AllDigits(s: seq<byte>) { forall i :: 0 <= i < |s| ==> IsDigit(s[i]) }

  function DigitByte(d: int): byte
    requires 0 <= d < 10
  {
    (ZERO as int + d) as byte
  }

  /** The number written by the decimal digits `s`. */
  function DigitsValue(s: seq<byte>): (n: nat)
    requires AllDigits(s)
  {
    if s == [] then 0 else DigitsValue(DropLast(s)) * 10 + (Last(s) - ZERO) as int
  }

  /** Decimal digits of `n`, without leading zeros (`0` is written `0`). */
  function Digits(n: nat): (s: seq<byte>)
    ensures |s| >= 1 && AllDigits(s)
    ensures DigitsValue(s) == n
    ensures s[0] == ZERO <==> n == 0
  {
    if n < 10 then [DigitByte(n)]
    else
      var s := Digits(n / 10) + [DigitByte(n % 10)];
      assert DropLast(s) == Digits(n / 10);
      s
  }

  /** `digits.d` as a number of tenths, or None. */
  function ParseUnsigned(s: seq<byte>): (r: Option<nat>)
  {
    if |s| < 3 || s[|s| - 2] != DOT || !IsDigit(Last(s)) || !AllDigits(s[..|s| - 2]) then None
    else Some(DigitsValue(s[..|s| - 2]) * 10 + (Last(s) - ZERO) as int)
  }

  /** `[-]digits.d` as tenths; None for any text outside that format. */
  function ParseTenths(s: seq<byte>): (r: Option<int>)
    ensures r.Some? ==> DOT in s && |s| >= 3
  {
    if |s| > 0 && s[0] == MINUS then
      match ParseUnsigned(s[1..])
      case Some(v) => Some(-(v as int))
      case None => None
    else
      match ParseUnsigned(s)
      case Some(v) => Some(v as int)
      case None => None
  }

  /** The one-decimal rendering of `t` tenths: an optional `-`, the integer part, `.`, the tenths digit. */
  function FormatTenths(t: int): (s: seq<byte>)
  {
    var a := if t < 0 then -t else t;
    (if t < 0 then [MINUS] else []) + Digits(a / 10) + [DOT, DigitByte(a % 10)]
  }

  /** The digits of a number written without leading zeros are the digits
      `Digits` writes for it. */
  lemma {:induction false} DigitsOfValue(d: seq<byte>)
    requires |d| >= 1 && AllDigits(d) && (d[0] == ZERO ==> |d| == 1)
    ensures Digits(DigitsValue(d)) == d
    ensures d[0] != ZERO ==> DigitsValue(d) >= 1
    decreases |d|
  {
    if |d| > 1 {
      var init := DropLast(d);
      assert init[0] == d[0];
      DigitsOfValue(init);
      assert d == init + [Last(d)];
    }
  }

  /** Text as `%.1f` writes it: `[-]digits.d`, with no leading zero in the
      integer part and no negative zero. */
  predicate Canonical(s: seq<byte>)
  {
    var neg := |s| > 0 && s[0] == MINUS;
    var u := if neg then s[1..] else s;
    && |u| >= 3
    && (u[0] == ZERO ==> |u| == 3)
    && (neg ==> u != [ZERO, DOT, ZERO])
  }

  /** `FormatTenths` writes canonical text. */
  lemma FormatCanonical(t: int)
    ensures Canonical(FormatTenths(t))
  {
    var a := if t < 0 then -t else t;
    var u := Digits(a / 10) + [DOT, DigitByte(a % 10)];
    assert u[0] == Digits(a / 10)[0] && Last(u) == DigitByte(a % 10);
    if t < 0 {
      assert a / 10 != 0 || a % 10 != 0;
      assert FormatTenths(t)[1..] == u;
    } else {
      assert FormatTenths(t) == u;
    }
  }

  /** Unsigned text without a leading zero is what formatting its value writes. */
  lemma UnsignedFormats(u: seq<byte>)
    requires ParseUnsigned(u).Some? && (u[0] == ZERO ==> |u| == 3)
    ensures var v := ParseUnsigned(u).value; Digits(v / 10) + [DOT, DigitByte(v % 10)] == u
  {
    var d := u[..|u| - 2];
    assert d[0] == u[0];
    DigitsOfValue(d);
    var v := ParseUnsigned(u).value;
    var l := (Last(u) - ZERO) as int;
    assert v == DigitsValue(d) * 10 + l && 0 <= l < 10;
    assert v / 10 == DigitsValue(d) && v % 10 == l;
    assert DigitByte(l) == Last(u);
    assert u == d + [DOT, Last(u)];
  }

  /** Parsing canonical text and formatting the value gives the text back:
      with `FormatParses`, the two are inverse on canonical text. */
  lemma ParseFormats(s: seq<byte>)
    requires Canonical(s) && ParseTenths(s).Some?
    ensures FormatTenths(ParseTenths(s).value) == s
  {
    if s[0] == MINUS {
      NegativeFormats(s);
    } else {
      UnsignedFormats(s);
      var v := ParseUnsigned(s).value;
      assert ParseTenths(s) == Some(v as int);
    }
  }

  lemma NegativeFormats(s: seq<byte>)
    requires Canonical(s) && ParseTenths(s).Some? && s[0] == MINUS
    ensures FormatTenths(ParseTenths(s).value) == s
  {
    var u := s[1..];
    assert s == [MINUS] + u;
    NegatedFormats(u);
    assert ParseTenths(s) == Some(-(ParseUnsigned(u).value as int));
  }

  /** Unsigned canonical text other than `0.0`, negated, is written as `-`
      and that text. */
  lemma NegatedFormats(u: seq<byte>)
    requires ParseUnsigned(u).Some? && (u[0] == ZERO ==> |u| == 3) && u != [ZERO, DOT, ZERO]
    ensures FormatTenths(-(ParseUnsigned(u).value as int)) == [MINUS] + u
  {
    UnsignedFormats(u);
    var v := ParseUnsigned(u).value;
    assert Digits(0) == [ZERO];
    assert v > 0;
    assert FormatTenths(-(v as int)) == [MINUS] + (Digits(v / 10) + [DOT, DigitByte(v % 10)]);
  }

  /** Formatting then parsing gives the value back. */
  lemma FormatParses(t: int)
    ensures ParseTenths(FormatTenths(t)) == Some(t)
  {
    var a := if t < 0 then -t else t;
    var u := Digits(a / 10) + [DOT, DigitByte(a % 10)];
    assert u[..|u| - 2] == Digits(a / 10);
    assert ParseUnsigned(u) == Some(a);
    if t < 0 {
      assert FormatTenths(t)[1..] == u;
    } else {
      assert FormatTenths(t) == u;
      assert u[0] != MINUS;
    }
  }
}
