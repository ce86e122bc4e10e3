/**
 * Decimal digit strings: the zero-padded fields of an ISO 8601 calendar date and
 * the text JavaScript's `Number.prototype.toString` gives for a natural number.
 */
module Decimal {

  predicate IsDigit(c: char) {
    '0' <= c <= '9'
  }

  predicate AllDigits(s: string) {
    forall i :: 0 <= i < |s| ==> IsDigit(s[i])
  }

  function DigitChar(d: nat): (c: char)
    requires d < 10
    ensures IsDigit(c)
  {
    ('0' as int + d) as char
  }

  function DigitValue(c: char): (d: nat)
    requires IsDigit(c)
    ensures d < 10
  {
    c as int - '0' as int
  }

  function Pow10(k: nat): (p: nat)
    ensures p >= 1
  {
    if k == 0 then 1 else 10 * Pow10(k - 1)
  }

  /**
   * The decimal numeral of `n`, padded on the left with zeros to at least
   * `width` characters. `Numeral(n, 1)` has no leading zeros, as in
   * `n.toString()`.
   */
  function Numeral(n: nat, width: nat): (s: string)
    ensures AllDigits(s)
    ensures 1 <= |s| && width <= |s|
    ensures 1 <= width && n < Pow10(width) ==> |s| == width
    ensures width <= 1 && n < 10 ==> |s| == 1
    ensures |s| > width && |s| > 1 ==> s[0] != '0'
    decreases n, width
  {
    if n < 10 && width <= 1 then [DigitChar(n)]
    else Numeral(n / 10, if width == 0 then 0 else width - 1) + [DigitChar(n % 10)]
  }

  /** The number a string of decimal digits denotes (leading zeros allowed). */
  function NumeralValue(s: string): (n: nat)
    requires AllDigits(s)
    ensures n < Pow10(|s|)
  {
    if |s| == 0 then 0
    else NumeralValue(s[..|s| - 1]) * 10 + DigitValue(s[|s| - 1])
  }

  /** Reading back a numeral gives the number it was written from. */
  lemma {:induction false} NumeralValueOfNumeral(n: nat, width: nat)
    ensures NumeralValue(Numeral(n, width)) == n
    decreases n, width
  {
    var s := Numeral(n, width);
    if n < 10 && width <= 1 {
      assert s[..0] == [];
    } else {
      var w' := if width == 0 then 0 else width - 1;
      NumeralValueOfNumeral(n / 10, w');
      assert s[..|s| - 1] == Numeral(n / 10, w');
    }
  }

  /** A digit string written back at its own width is the same string. */
  lemma {:induction false} NumeralOfNumeralValue(s: string)
    requires AllDigits(s) && 1 <= |s|
    ensures Numeral(NumeralValue(s), |s|) == s
    decreases |s|
  {
    var prefix := s[..|s| - 1];
    var n := NumeralValue(s);
    assert n / 10 == NumeralValue(prefix) && n % 10 == DigitValue(s[|s| - 1]);
    if |s| == 1 {
      assert NumeralValue(prefix) == 0;
    } else {
      NumeralOfNumeralValue(prefix);
      assert s == prefix + [s[|s| - 1]];
    }
  }

  /** Distinct numbers have distinct numerals. */
  lemma NumeralInjective(a: nat, b: nat, width: nat)
    requires Numeral(a, width) == Numeral(b, width)
    ensures a == b
  {
    NumeralValueOfNumeral(a, width);
    NumeralValueOfNumeral(b, width);
  }
}
