/**
 * Strict numeric reading of a stored value, for the integer instantiations of
 * Configuration::get_numeric_value<T>: std::from_chars in base 10 (ISO/IEC
 * 14882:2017, section 23.2.9, [utility.from.chars]) followed by the check that
 * it succeeded and consumed the whole string.
 */
module Numeric {
  import opened Wrappers

  /** An integer type T, given by its range of values. */
  datatype IntType = IntType(lo: int, hi: int) {
    /** from_chars accepts a leading '-' only for signed types. */
    predicate Signed() { lo < 0 }
    predicate Contains(n: int) { lo <= n <= hi }
  }

  const Int8: IntType := IntType(-0x80, 0x7f)
  const Int16: IntType := IntType(-0x8000, 0x7fff)
  const Int32: IntType := IntType(-0x8000_0000, 0x7fff_ffff)
  const Int64: IntType := IntType(-0x8000_0000_0000_0000, 0x7fff_ffff_ffff_ffff)
  const UInt8: IntType := IntType(0, 0xff)
  const UInt16: IntType := IntType(0, 0xffff)
  const UInt32: IntType := IntType(0, 0xffff_ffff)
  const UInt64: IntType := IntType(0, 0xffff_ffff_ffff_ffff)

  /** The error codes from_chars reports; Ok is the value-initialised std::errc{}. */
  datatype Errc = Ok | InvalidArgument | ResultOutOfRange

  /** The `ptr` and `ec` of std::from_chars_result, with the output variable's final value. */
  datatype FromCharsResult = FromCharsResult(ptr: nat, ec: Errc, value: int)

  predicate IsDigit(c: char) { '0' <= c <= '9' }

  predicate AllDigits(s: string) { forall i :: 0 <= i < |s| ==> IsDigit(s[i]) }

  function DigitValue(c: char): (d: nat)
    requires IsDigit(c)
    ensures d < 10
  {
    c as int - '0' as int
  }

  function DigitChar(d: nat): (c: char)
    requires d < 10
    ensures IsDigit(c) && DigitValue(c) == d
  {
    ('0' as int + d) as char
  }

  /** The number of consecutive digits in `s` starting at `from`. */
  function DigitRun(s: string, from: nat): (n: nat)
    requires from <= |s|
    ensures from + n <= |s|
    ensures forall i :: from <= i < from + n ==> IsDigit(s[i])
    ensures from + n < |s| ==> !IsDigit(s[from + n])
    decreases |s| - from
  {
    if from < |s| && IsDigit(s[from]) then 1 + DigitRun(s, from + 1) else 0
  }

  /** The value of a string of decimal digits, most significant digit first. */
  function DecimalValue(ds: string): nat
    requires AllDigits(ds)
  {
    if ds == [] then 0 else 10 * DecimalValue(ds[..|ds| - 1]) + DigitValue(ds[|ds| - 1])
  }

  /** The length of the sign from_chars accepts: a leading '-', for signed types only. */
  function SignLength(s: string, t: IntType): (n: nat)
    ensures n <= |s|
  {
    if t.Signed() && 0 < |s| && s[0] == '-' then 1 else 0
  }

  /**
   * std::from_chars(first, last, value) for an integer type in base 10: an
   * optional '-' (signed types only), then the longest run of digits. No
   * digits: invalid_argument and ptr == first. Otherwise ptr is past the
   * digits, and the code is ok with the signed value of the digits when that
   * value lies in T, result_out_of_range when it does not. In both error
   * cases the output variable keeps its prior value.
   */
  function FromChars(s: string, t: IntType, prior: int): (r: FromCharsResult)
    ensures var start := SignLength(s, t);
      r.ec == InvalidArgument <==> start == |s| || !IsDigit(s[start])
    ensures r.ec == InvalidArgument ==> r.ptr == 0 && r.value == prior
    ensures var start := SignLength(s, t);
      r.ec != InvalidArgument ==>
        && start < r.ptr <= |s|
        && AllDigits(s[start..r.ptr])
        && (r.ptr == |s| || !IsDigit(s[r.ptr]))
        && var magnitude: int := DecimalValue(s[start..r.ptr]);
           var v := if start == 1 then -magnitude else magnitude;
           (r.ec == Ok <==> t.Contains(v)) && (r.ec == Ok ==> r.value == v)
    ensures r.ec == ResultOutOfRange ==> r.value == prior
  {
    var start := SignLength(s, t);
    var n := DigitRun(s, start);
    if n == 0 then
      FromCharsResult(0, InvalidArgument, prior)
    else
      assert AllDigits(s[start..start + n]);
      var magnitude: int := DecimalValue(s[start..start + n]);
      var v := if start == 1 then -magnitude else magnitude;
      if t.Contains(v) then FromCharsResult(start + n, Ok, v)
      else FromCharsResult(start + n, ResultOutOfRange, prior)
  }

  /** A complete numeral of T: digits, with one leading '-' allowed for signed types. */
  predicate IsNumeral(s: string, t: IntType) {
    && 0 < |s|
    && (AllDigits(s) || (t.Signed() && s[0] == '-' && 1 < |s| && AllDigits(s[1..])))
  }

  function NumeralValue(s: string, t: IntType): int
    requires IsNumeral(s, t)
  {
    if s[0] == '-' then 0 - DecimalValue(s[1..]) else DecimalValue(s)
  }

  /**
   * The check get_numeric_value applies to the from_chars result: the value
   * only when the code is ok and the whole string was consumed.
   */
  function ParseWhole(s: string, t: IntType): (r: Option<int>)
    ensures r.Some? <==> IsNumeral(s, t) && t.Contains(NumeralValue(s, t))
    ensures r.Some? ==> r.value == NumeralValue(s, t)
  {
    FromCharsWhole(s, t, 0);
    var result := FromChars(s, t, 0);
    if result.ec != Ok || result.ptr != |s| then None else Some(result.value)
  }

  /** from_chars succeeds on the whole string exactly when the string is an in-range numeral. */
  lemma FromCharsWhole(s: string, t: IntType, prior: int)
    ensures var r := FromChars(s, t, prior);
      (r.ec == Ok && r.ptr == |s|) <==> IsNumeral(s, t) && t.Contains(NumeralValue(s, t))
    ensures var r := FromChars(s, t, prior);
      r.ec == Ok && r.ptr == |s| ==> r.value == NumeralValue(s, t)
  {
    if t.Signed() && 0 < |s| && s[0] == '-' {
      DigitRunWhole(s, 1);
      if 1 < |s| && AllDigits(s[1..]) {
        assert s[1..1 + (|s| - 1)] == s[1..];
      }
    } else {
      DigitRunWhole(s, 0);
      if AllDigits(s[0..]) {
        assert s[0..0 + |s|] == s;
      }
    }
  }

  /** The run of digits from `from` reaches the end exactly when the rest is all digits. */
  lemma DigitRunWhole(s: string, from: nat)
    requires from <= |s|
    ensures DigitRun(s, from) == |s| - from <==> AllDigits(s[from..])
  {
    var n := DigitRun(s, from);
    if from + n < |s| {
      assert s[from..][n] == s[from + n];
    }
  }

  /** The decimal digits of a natural number, without leading zeros. */
  function Digits(n: nat): (ds: string)
    ensures 0 < |ds|
  {
    if n < 10 then [DigitChar(n)] else Digits(n / 10) + [DigitChar(n % 10)]
  }

  /** The decimal rendering of an integer, as std::to_string writes it. */
  function ToDecimal(n: int): string {
    if n < 0 then "-" + Digits(-n) else Digits(n)
  }

  lemma {:induction false} DigitsValue(n: nat)
    ensures AllDigits(Digits(n)) && DecimalValue(Digits(n)) == n
  {
    var ds := Digits(n);
    if n >= 10 {
      DigitsValue(n / 10);
      assert ds[..|ds| - 1] == Digits(n / 10);
    }
  }

  /** Reading back a rendered in-range integer gives the integer. */
  lemma ParseWholeToDecimal(n: int, t: IntType)
    requires t.Contains(n)
    ensures ParseWhole(ToDecimal(n), t) == Some(n)
  {
    var s := ToDecimal(n);
    if n < 0 {
      DigitsValue(-n);
      assert s[1..] == Digits(-n);
      assert !AllDigits(s) by { assert !IsDigit(s[0]); }
    } else {
      DigitsValue(n);
    }
  }

  /** Plain decimal numerals read back as their value, with '-' for signed types. */
  lemma ParseWholeExamples()
    ensures ParseWhole("12", Int32) == Some(12)
    ensures ParseWhole("-7", Int32) == Some(-7)
  {
    assert DecimalValue("12") == 12 by { assert "12"[..1] == "1"; }
    assert "-7"[1..] == "7";
  }

  /** Whole-string strictness: trailing text, leading blanks, '+' and the empty string are refused. */
  lemma ParseWholeRejectsMalformed()
    ensures ParseWhole("12abc", Int32) == None
    ensures ParseWhole(" 12", Int32) == None
    ensures ParseWhole("+12", Int32) == None
    ensures ParseWhole("", Int64) == None
  {
    assert !IsDigit("12abc"[2]);
    assert !IsDigit(" 12"[0]);
    assert !IsDigit("+12"[0]);
  }

  /** Values outside the target type are refused, and so is '-' for unsigned types. */
  lemma ParseWholeRejectsOutOfRange()
    ensures ParseWhole("-7", UInt32) == None
    ensures ParseWhole("256", UInt8) == None
  {
    assert !IsDigit("-7"[0]);
    assert DecimalValue("256") == 256 by { assert "256"[..2] == "25"; assert "25"[..1] == "2"; }
  }
}
