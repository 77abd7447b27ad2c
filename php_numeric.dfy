/**
 * PHP 8 loose comparison `$status == '0'` between two strings. When both
 * sides are numeric strings PHP compares them as numbers, otherwise as
 * strings; "0" is numeric, so `$status == '0'` holds exactly when `$status`
 * is a numeric string whose value is zero ("0", "00", "-0", "0.0", ".0",
 * "0e7", " 0", ...).
 */
module PhpNumeric {
  import opened PhpStrings

  predicate IsDigit(c: char) {
    '0' <= c <= '9'
  }

  /** White space allowed around a numeric string: space, \t, \n, \r, \v, \f. */
  predicate IsNumericSpace(c: char) {
    c == ' ' || c == '\t' || c == '\n' || c == '\r' || c as int == 11 || c as int == 12
  }

  predicate IsExponentMark(c: char) {
    c == 'e' || c == 'E'
  }

  predicate IsNotExponentMark(c: char) {
    !IsExponentMark(c)
  }

  predicate IsNotDot(c: char) {
    c != '.'
  }

  predicate IsSign(c: char) {
    c == '+' || c == '-'
  }

  predicate AllDigits(s: string) {
    forall k :: 0 <= k < |s| ==> IsDigit(s[k])
  }

  /** The number without its surrounding white space and without its sign. */
  function Unsigned(s: string): string {
    var t := s[LeadingCount(s, IsNumericSpace)..];
    var u := t[..|t| - TrailingCount(t, IsNumericSpace)];
    if |u| > 0 && IsSign(u[0]) then u[1..] else u
  }

  /** The digits-and-point part of the number (LNUM or DNUM). */
  function Mantissa(s: string): string {
    var u := Unsigned(s);
    u[..LeadingCount(u, IsNotExponentMark)]
  }

  /** The exponent part of the number, starting at its `e` or `E`; empty when absent. */
  function Exponent(s: string): string {
    var u := Unsigned(s);
    u[LeadingCount(u, IsNotExponentMark)..]
  }

  /** Digits with at most one decimal point and at least one digit. */
  predicate IsMantissa(m: string) {
    var d := LeadingCount(m, IsNotDot);
    && AllDigits(m[..d])
    && (d < |m| ==> AllDigits(m[d + 1..]))
    && (if d < |m| then |m| >= 2 else |m| >= 1)
  }

  /** Empty, or `e`/`E`, an optional sign and at least one digit. */
  predicate IsExponent(x: string) {
    x == [] ||
    (|x| >= 2 && IsExponentMark(x[0]) &&
     var y := if IsSign(x[1]) then x[2..] else x[1..];
     |y| > 0 && AllDigits(y))
  }

  /** PHP 8 numeric string: optional white space, sign, number, exponent, white space. */
  predicate IsNumeric(s: string) {
    IsMantissa(Mantissa(s)) && IsExponent(Exponent(s))
  }

  /** PHP 8 `$s == '0'`: a numeric string all of whose mantissa digits are zero. */
  predicate LooselyEqualsZero(s: string) {
    IsNumeric(s) && forall k :: 0 <= k < |Mantissa(s)| ==> Mantissa(s)[k] in "0."
  }

  /** Every string loosely equal to "0" contains the digit 0. */
  lemma LooseZeroHasZeroDigit(s: string)
    requires LooselyEqualsZero(s)
    ensures '0' in s
  {
    var a := LeadingCount(s, IsNumericSpace);
    var t := s[a..];
    var v := t[..|t| - TrailingCount(t, IsNumericSpace)];
    var sign := if |v| > 0 && IsSign(v[0]) then 1 else 0;
    var u := Unsigned(s);
    assert u == v[sign..];
    var m := Mantissa(s);
    assert m == u[..LeadingCount(u, IsNotExponentMark)];
    var d := LeadingCount(m, IsNotDot);
    var j := if d == 0 then 1 else 0;
    assert IsDigit(m[j]);
    assert m[j] == '0';
    assert m[j] == s[a + sign + j];
  }

  /** The only string that PHP calls both `empty()` and `== '0'` is "0" itself. */
  lemma EmptyAndLooseZero(s: string)
    ensures IsEmpty(s) && LooselyEqualsZero(s) <==> s == "0"
  {
    if s == "0" {
      ZerosAreLooseZero(1);
      assert Zeros(1) == "0";
    } else if IsEmpty(s) && LooselyEqualsZero(s) {
      LooseZeroHasZeroDigit(s);
    }
  }

  /** Exactly one-character-"1" is never loosely zero, so the two status paths never overlap. */
  lemma OneIsNotLooseZero()
    ensures !LooselyEqualsZero("1")
  {
    if LooselyEqualsZero("1") {
      LooseZeroHasZeroDigit("1");
    }
  }

  function Zeros(n: nat): (z: string)
    ensures |z| == n
    ensures forall k :: 0 <= k < n ==> z[k] == '0'
  {
    seq(n, _ => '0')
  }

  /** A run of one or more zero digits is loosely equal to "0". */
  lemma ZerosAreLooseZero(n: nat)
    requires n >= 1
    ensures LooselyEqualsZero(Zeros(n))
  {
    var z := Zeros(n);
    var a := LeadingCount(z, IsNumericSpace);
    assert a == 0 by { assert !IsNumericSpace(z[0]); }
    var t := z[a..];
    assert t == z;
    var b := TrailingCount(t, IsNumericSpace);
    assert b == 0 by { assert !IsNumericSpace(t[|t| - 1]); }
    assert t[..|t| - b] == z;
    assert Unsigned(z) == z;
    var e := LeadingCount(z, IsNotExponentMark);
    assert Mantissa(z) == z;
    assert Exponent(z) == [];
    var d := LeadingCount(z, IsNotDot);
    assert z[..d] == z;
  }

  /** The two-character "00" is not `empty()` but is loosely equal to "0". */
  lemma DoubleZeroIsLooseZero()
    ensures !IsEmpty("00") && LooselyEqualsZero("00")
  {
    ZerosAreLooseZero(2);
    assert Zeros(2) == "00";
  }
}
