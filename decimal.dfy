/**
  `u64::to_string`, used for the `Content-Length` header value: the
  decimal digits of the number, most significant first, with no sign and no
  leading zero (zero itself is "0").
 */
module Decimal {

  predicate IsDigit(c: char) {
    '0' <= c <= '9'
  }

  /** A digit string as `to_string` prints it: non-empty, digits only, no leading zero. */
  predicate IsCanonical(s: string) {
    |s| >= 1 && (forall i :: 0 <= i < |s| ==> IsDigit(s[i])) && (|s| > 1 ==> s[0] != '0')
  }

  function DigitChar(d: nat): (c: char)
    requires d < 10
    ensures IsDigit(c) && (c as int) - ('0' as int) == d
  {
    ('0' as int + d) as char
  }

  function DigitValue(c: char): (d: nat)
    requires IsDigit(c)
    ensures d < 10 && DigitChar(d) == c
  {
    (c as int) - ('0' as int)
  }

  /** The decimal representation of `n`. */
  function DecimalString(n: nat): (s: string)
    ensures IsCanonical(s)
    ensures n < 10 <==> |s| == 1
  {
    if n < 10 then [DigitChar(n)]
    else DecimalString(n / 10) + [DigitChar(n % 10)]
  }

  /** The number a string of digits denotes (the reading direction of `DecimalString`). */
  function DecimalValue(s: string): nat
    requires forall i :: 0 <= i < |s| ==> IsDigit(s[i])
  {
    if s == [] then 0
    else DecimalValue(s[..|s| - 1]) * 10 + DigitValue(s[|s| - 1])
  }

  /** Reading back the printed digits gives the number. */
  lemma {:induction false} ValueOfDecimalString(n: nat)
    ensures DecimalValue(DecimalString(n)) == n
  {
    var s := DecimalString(n);
    if n >= 10 {
      assert s[..|s| - 1] == DecimalString(n / 10);
      ValueOfDecimalString(n / 10);
    }
  }

  /** A canonical digit string is exactly how its value is printed. */
  lemma {:induction false} DecimalStringOfValue(s: string)
    requires IsCanonical(s)
    ensures DecimalString(DecimalValue(s)) == s
  {
    var last := DigitValue(s[|s| - 1]);
    if |s| == 1 {
      assert DecimalValue(s) == last;
      assert DecimalValue(s[..0]) == 0;
    } else {
      var init := s[..|s| - 1];
      assert forall i :: 0 <= i < |init| ==> init[i] == s[i];
      assert init[0] == s[0];
      NonZeroLeadingDigit(init);
      DecimalStringOfValue(init);
      var v := DecimalValue(s);
      assert v == DecimalValue(init) * 10 + last;
      assert v / 10 == DecimalValue(init) && v % 10 == last;
      assert s == init + [s[|s| - 1]];
    }
  }

  /** A canonical string of two or more digits does not denote a one-digit number. */
  lemma {:induction false} NonZeroLeadingDigit(s: string)
    requires IsCanonical(s)
    ensures |s| > 1 ==> DecimalValue(s) >= 10
    ensures |s| == 1 ==> DecimalValue(s) < 10
    ensures DecimalValue(s) == 0 ==> s == "0"
  {
    if |s| == 1 {
      assert DecimalValue(s[..0]) == 0;
    } else {
      var init := s[..|s| - 1];
      assert forall i :: 0 <= i < |init| ==> init[i] == s[i];
      assert init[0] == s[0];
      if |init| > 1 {
        NonZeroLeadingDigit(init);
      } else {
        assert DecimalValue(init[..0]) == 0;
        assert DecimalValue(init) >= 1;
      }
    }
  }

  /** Printing is injective: two numbers get the same digits only when they are equal. */
  lemma DecimalStringInjective(m: nat, n: nat)
    requires DecimalString(m) == DecimalString(n)
    ensures m == n
  {
    ValueOfDecimalString(m);
    ValueOfDecimalString(n);
  }
}
