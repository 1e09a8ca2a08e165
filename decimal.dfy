/**
 * Decimal text of non-negative integers, as JavaScript's `Number#toString()`
 * renders them below 10^21 (from there on it switches to exponent form; the
 * countdown's minutes stay far below, since a `Date` lies within 8.64e15 ms
 * of the epoch), and `String#padStart`, which the countdown label uses to
 * write seconds with two digits. `ValueOf` reads such text back.
 */
module Decimal {

  predicate IsDigit(c: char) {
    '0' <= c <= '9'
  }

  predicate AllDigits(s: string) {
    forall i :: 0 <= i < |s| ==> IsDigit(s[i])
  }

  function DigitValue(c: char): (d: nat)
    requires IsDigit(c)
    ensures d < 10
  {
    c as int - '0' as int
  }

  function DigitChar(d: nat): (c: char)
    requires d < 10
    ensures IsDigit(c) && DigitValue(c) == d
  {
    ('0' as int + d) as char
  }

  /** The shortest decimal text of `n`. */
  function ToDecimal(n: nat): (s: string)
    ensures |s| > 0
    decreases n
  {
    if n < 10 then [DigitChar(n)] else ToDecimal(n / 10) + [DigitChar(n % 10)]
  }

  /** The decimal text is digits only, with no leading zero. */
  lemma {:induction false} ToDecimalDigits(n: nat)
    ensures AllDigits(ToDecimal(n))
    ensures |ToDecimal(n)| > 1 || n > 0 ==> ToDecimal(n)[0] != '0'
    decreases n
  {
    if n >= 10 {
      ToDecimalDigits(n / 10);
      var s := ToDecimal(n);
      assert s == ToDecimal(n / 10) + [DigitChar(n % 10)];
      assert s[0] == ToDecimal(n / 10)[0];
    }
  }

  /** Shortest decimal text: digits only, and no leading zero unless it is "0" itself. */
  predicate IsDecimal(s: string) {
    |s| > 0 && AllDigits(s) && (|s| == 1 || s[0] != '0')
  }

  /** The number a string of decimal digits denotes (leading zeros allowed). */
  function ValueOf(s: string): nat
    requires AllDigits(s)
  {
    if s == [] then 0 else ValueOf(s[..|s| - 1]) * 10 + DigitValue(s[|s| - 1])
  }

  /** Reading the decimal text of `n` gives `n` back. */
  lemma {:induction false} ValueOfToDecimal(n: nat)
    ensures AllDigits(ToDecimal(n)) && ValueOf(ToDecimal(n)) == n
    decreases n
  {
    ToDecimalDigits(n);
    if n >= 10 {
      var s := ToDecimal(n);
      assert s[..|s| - 1] == ToDecimal(n / 10);
      ValueOfToDecimal(n / 10);
    }
  }

  /** Text with a non-zero first digit denotes a positive number. */
  lemma {:induction false} ValueOfPositive(s: string)
    requires IsDecimal(s) && s[0] != '0'
    ensures ValueOf(s) > 0
    decreases |s|
  {
    if |s| > 1 {
      var p := s[..|s| - 1];
      assert p[0] == s[0];
      ValueOfPositive(p);
    }
  }

  /** Shortest decimal text is the text of the number it denotes: `toString` undoes `ValueOf`. */
  lemma {:induction false} ToDecimalOfValue(s: string)
    requires IsDecimal(s)
    ensures ToDecimal(ValueOf(s)) == s
    decreases |s|
  {
    var c := s[|s| - 1];
    var p := s[..|s| - 1];
    assert DigitChar(DigitValue(c)) == c;
    if |s| == 1 {
      assert p == [];
      assert s == [c];
    } else {
      assert p[0] == s[0];
      ValueOfPositive(p);
      ToDecimalOfValue(p);
      var n := ValueOf(s);
      assert n == ValueOf(p) * 10 + DigitValue(c);
      assert n / 10 == ValueOf(p) && n % 10 == DigitValue(c);
      assert ToDecimal(n) == ToDecimal(n / 10) + [DigitChar(n % 10)];
      assert s == p + [c];
    }
  }

  /** Numbers below 100 take one digit below 10 and two digits otherwise. */
  lemma DecimalWidthBelow100(n: nat)
    requires n < 100
    ensures |ToDecimal(n)| == if n < 10 then 1 else 2
  {
    if n >= 10 {
      assert ToDecimal(n) == ToDecimal(n / 10) + [DigitChar(n % 10)];
    }
  }

  /** `s.padStart(width, fill)`: prefix `fill` until `s` is `width` long. */
  function PadStart(s: string, width: nat, fill: char): (r: string)
    ensures |r| == if |s| >= width then |s| else width
    ensures |s| >= width ==> r == s
    decreases width - |s|
  {
    if |s| >= width then s else PadStart([fill] + s, width, fill)
  }

  /** Short text gets `fill` repeated in front of it until it is `width` long. */
  lemma {:induction false} PadStartFillsFront(s: string, width: nat, fill: char)
    requires |s| < width
    ensures PadStart(s, width, fill) == seq(width - |s|, _ => fill) + s
    decreases width - |s|
  {
    var t := [fill] + s;
    if |t| < width {
      PadStartFillsFront(t, width, fill);
      assert seq(width - |t|, _ => fill) + t == seq(width - |s|, _ => fill) + s;
    } else {
      assert seq(width - |s|, _ => fill) == [fill];
    }
  }

  /** A leading zero does not change the value. */
  lemma {:induction false} ValueOfLeadingZero(s: string)
    requires AllDigits(s)
    ensures AllDigits(['0'] + s) && ValueOf(['0'] + s) == ValueOf(s)
    decreases |s|
  {
    var t := ['0'] + s;
    assert AllDigits(t) by {
      forall i | 0 <= i < |t| ensures IsDigit(t[i]) {
        if i > 0 { assert t[i] == s[i - 1]; }
      }
    }
    if s != [] {
      assert t[..|t| - 1] == ['0'] + s[..|s| - 1];
      ValueOfLeadingZero(s[..|s| - 1]);
    } else {
      assert t[..|t| - 1] == [];
    }
  }

  /** Zero padding keeps the text numeric and keeps its value. */
  lemma {:induction false} ValueOfZeroPadded(s: string, width: nat)
    requires AllDigits(s)
    ensures AllDigits(PadStart(s, width, '0'))
    ensures ValueOf(PadStart(s, width, '0')) == ValueOf(s)
    decreases width - |s|
  {
    if |s| < width {
      ValueOfLeadingZero(s);
      ValueOfZeroPadded(['0'] + s, width);
    }
  }
}
