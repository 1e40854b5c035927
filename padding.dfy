/**
 * `padWithZeros(num, length)` (src/lib/utils.js): `String(num).padStart(length, '0')`, the decimal
 * form of an integer, left-padded with '0' up to the given length and never cut.
 */
module Padding {

  predicate IsDigit(c: char) {
    '0' <= c <= '9'
  }

  predicate AllDigits(s: string) {
    forall i :: 0 <= i < |s| ==> IsDigit(s[i])
  }

  function DigitChar(d: nat): (c: char)
    requires d < 10
    ensures IsDigit(c)
  {
    "0123456789"[d]
  }

  function DigitValue(c: char): (d: nat)
    requires IsDigit(c)
    ensures d < 10
  {
    c as int - '0' as int
  }

  /** The decimal digits of n, most significant first, without leading zeros. */
  function Digits(n: nat): (s: string)
    ensures |s| >= 1 && AllDigits(s)
    ensures |s| > 1 ==> s[0] != '0'
  {
    if n < 10 then [DigitChar(n)] else Digits(n / 10) + [DigitChar(n % 10)]
  }

  /** `String(n)` for an integer n: its digits, after a '-' when n is negative. */
  function DecimalString(n: int): (s: string)
    ensures |s| >= 1
    ensures n >= 0 <==> AllDigits(s)
  {
    if n < 0 then
      var s := "-" + Digits(-n);
      assert !IsDigit(s[0]);
      s
    else Digits(n)
  }

  /** The number a string of digits denotes. */
  function DigitsValue(s: string): nat
    requires AllDigits(s)
  {
    if s == [] then 0 else DigitsValue(s[..|s| - 1]) * 10 + DigitValue(s[|s| - 1])
  }

  /** Reading back the digits of n gives n. */
  lemma {:induction false} DigitsRoundTrip(n: nat)
    ensures DigitsValue(Digits(n)) == n
  {
    if n >= 10 {
      DigitsRoundTrip(n / 10);
      var s := Digits(n);
      assert s[..|s| - 1] == Digits(n / 10);
    }
  }

  /** Distinct integers have distinct decimal forms. */
  lemma DecimalStringInjective(a: int, b: int)
    requires DecimalString(a) == DecimalString(b)
    ensures a == b
  {
    if a >= 0 && b >= 0 {
      assert Digits(a) == Digits(b);
      DigitsRoundTrip(a);
      DigitsRoundTrip(b);
    } else if a < 0 && b < 0 {
      var sa, sb := DecimalString(a), DecimalString(b);
      assert sa == "-" + Digits(-a) && sb == "-" + Digits(-b);
      assert Digits(-a) == sa[1..] && Digits(-b) == sb[1..];
      DigitsRoundTrip(-a);
      DigitsRoundTrip(-b);
    }
  }

  /** n copies of c. */
  function Repeat(c: char, n: nat): (r: string)
    ensures |r| == n && forall i :: 0 <= i < n ==> r[i] == c
  {
    seq(n, _ => c)
  }

  /**
   * `String.prototype.padStart` with a one-character fill: s itself when it is at least
   * `targetLength` long, otherwise enough fill characters in front of s to reach that length.
   */
  function PadStart(s: string, targetLength: int, fill: char): (r: string)
    ensures |r| == if targetLength > |s| then targetLength else |s|
    ensures r[|r| - |s|..] == s
    ensures forall i :: 0 <= i < |r| - |s| ==> r[i] == fill
    ensures targetLength <= |s| ==> r == s
  {
    if targetLength <= |s| then s else Repeat(fill, targetLength - |s|) + s
  }

  /**
   * `padWithZeros`: the decimal form of num, padded by `PadStart` with '0': never shorter than
   * `length` or than that form, exactly `length` long when it pads, ending with the form whole,
   * and zeros only in front.
   */
  function PadWithZeros(num: int, length: int): (r: string)
    ensures |r| >= length && |r| >= |DecimalString(num)|
    ensures |r| == length || r == DecimalString(num)
    ensures r[|r| - |DecimalString(num)|..] == DecimalString(num)
    ensures forall i :: 0 <= i < |r| - |DecimalString(num)| ==> r[i] == '0'
  {
    PadStart(DecimalString(num), length, '0')
  }

  /** A leading '0' does not change the value of a digit string. */
  lemma {:induction false} LeadingZeroValue(s: string)
    requires AllDigits(s)
    ensures AllDigits("0" + s) && DigitsValue("0" + s) == DigitsValue(s)
  {
    if s != [] {
      var front := s[..|s| - 1];
      LeadingZeroValue(front);
      assert ("0" + s)[..|s|] == "0" + front;
    }
  }

  lemma {:induction false} LeadingZerosValue(k: nat, s: string)
    requires AllDigits(s)
    ensures AllDigits(Repeat('0', k) + s) && DigitsValue(Repeat('0', k) + s) == DigitsValue(s)
  {
    if k == 0 {
      assert Repeat('0', k) + s == s;
    } else {
      LeadingZerosValue(k - 1, s);
      assert Repeat('0', k) + s == "0" + (Repeat('0', k - 1) + s);
      LeadingZeroValue(Repeat('0', k - 1) + s);
    }
  }

  /**
   * The padded string of a non-negative number is all digits and still denotes that number, so
   * padding loses nothing.
   */
  lemma PadWithZerosValue(num: nat, length: int)
    ensures AllDigits(PadWithZeros(num, length))
    ensures DigitsValue(PadWithZeros(num, length)) == num
  {
    DigitsRoundTrip(num);
    ZeroPaddedValue(Digits(num), length);
  }

  /** Padding a digit string with '0' keeps it a digit string of the same value. */
  lemma ZeroPaddedValue(s: string, length: int)
    requires AllDigits(s)
    ensures AllDigits(PadStart(s, length, '0'))
    ensures DigitsValue(PadStart(s, length, '0')) == DigitsValue(s)
  {
    if length > |s| {
      LeadingZerosValue(length - |s|, s);
    }
  }

  /** A short number gets leading zeros. */
  lemma PadWithZerosShort()
    ensures PadWithZeros(7, 3) == "007"
  {
    assert DecimalString(7) == "7";
    assert Repeat('0', 2) == "00";
  }

  /** A number already as long as the target is left alone. */
  lemma PadWithZerosLong()
    ensures PadWithZeros(2024, 3) == "2024"
  {
    assert Digits(20) == "20";
    assert Digits(202) == "202";
    assert DecimalString(2024) == "2024";
  }

  /** The zeros of a negative number go before its minus sign, as `padStart` puts them. */
  lemma PadWithZerosNegative()
    ensures PadWithZeros(-5, 4) == "00-5"
  {
    assert DecimalString(-5) == "-5";
    assert Repeat('0', 2) == "00";
  }
}
