/** Decimal digit strings: the `{}` and `{:0w$}` renderings of unsigned integers that
    `format!` produces in the evaluator's messages and in chrono's `%Y`, `%m`, `%d`. */
module Decimal {

  predicate IsDigit(c: char)
  {
    '0' <= c <= '9'
  }

  predicate AllDigits(s: string)
  {
    forall i | 0 <= i < |s| :: IsDigit(s[i])
  }

  function Digit(d: nat): (c: char)
    requires d < 10
    ensures IsDigit(c) && c as int - '0' as int == d
  {
    ('0' as int + d) as char
  }

  function Pow10(n: nat): (p: nat)
    ensures p >= 1
  {
    if n == 0 then 1 else 10 * Pow10(n - 1)
  }

  /** The number a string of decimal digits denotes, most significant digit first. */
  function Value(s: string): (v: nat)
    requires AllDigits(s)
    ensures v < Pow10(|s|)
  {
    if s == [] then 0 else Value(s[..|s| - 1]) * 10 + (s[|s| - 1] as int - '0' as int)
  }

  /** The last `width` decimal digits of `n`, with leading zeros. */
  function FixedDigits(n: nat, width: nat): (s: string)
    ensures |s| == width && AllDigits(s)
    ensures n < Pow10(width) ==> Value(s) == n
  {
    if width == 0 then []
    else
      var s := FixedDigits(n / 10, width - 1) + [Digit(n % 10)];
      assert s[..|s| - 1] == FixedDigits(n / 10, width - 1);
      s
  }

  /** Number of digits in the shortest decimal rendering of `n`. */
  function DigitCount(n: nat): (w: nat)
    ensures 1 <= w && n < Pow10(w)
  {
    if n < 10 then 1 else 1 + DigitCount(n / 10)
  }

  lemma {:induction false} DigitCountMinimal(n: nat, width: nat)
    requires 1 <= width && n < Pow10(width)
    ensures DigitCount(n) <= width
  {
    if n >= 10 {
      assert width >= 2;
      DigitCountMinimal(n / 10, width - 1);
    }
  }

  lemma {:induction false} Pow10Monotone(a: nat, b: nat)
    requires a <= b
    ensures Pow10(a) <= Pow10(b)
  {
    if a < b { Pow10Monotone(a, b - 1); }
  }

  function Max(a: nat, b: nat): nat
  {
    if a < b then b else a
  }

  /** `format!("{:0width$}", n)`: the decimal digits of `n`, left-padded with zeros to `width`. */
  function ZeroPad(n: nat, width: nat): (s: string)
    ensures AllDigits(s) && Value(s) == n
    ensures |s| == Max(width, DigitCount(n))
    ensures 1 <= width && n < Pow10(width) ==> |s| == width
  {
    var w := Max(width, DigitCount(n));
    Pow10Monotone(DigitCount(n), w);
    var s := FixedDigits(n, w);
    assert 1 <= width && n < Pow10(width) ==> |s| == width by {
      if 1 <= width && n < Pow10(width) { DigitCountMinimal(n, width); }
    }
    s
  }

  /** `format!("{}", n)`: the shortest digit string denoting `n`, so never a leading zero
      except for `0` itself. */
  function ToString(n: nat): (s: string)
    ensures AllDigits(s) && Value(s) == n
    ensures |s| == DigitCount(n)
    ensures |s| == 1 || s[0] != '0'
  {
    var s := ZeroPad(n, 0);
    LeadingZeroValue(s);
    DigitCountLower(n);
    s
  }

  /** A leading zero adds nothing to the value. */
  lemma {:induction false} LeadingZeroValue(s: string)
    requires AllDigits(s)
    ensures 1 <= |s| && s[0] == '0' ==> Value(s) == Value(s[1..])
  {
    if 2 <= |s| && s[0] == '0' {
      var init := s[..|s| - 1];
      LeadingZeroValue(init);
      assert s[1..][..|s| - 2] == init[1..];
    }
  }

  /** A number needing `w` >= 2 digits is at least `10^(w-1)`. */
  lemma {:induction false} DigitCountLower(n: nat)
    ensures DigitCount(n) >= 2 ==> n >= Pow10(DigitCount(n) - 1)
  {
    if n >= 10 {
      DigitCountLower(n / 10);
    }
  }

  /** A digit string is the fixed-width rendering of the number it denotes: reading digits and
      writing them back at the same width gives the same string. */
  lemma {:induction false} FixedDigitsOfValue(s: string)
    requires AllDigits(s)
    ensures FixedDigits(Value(s), |s|) == s
  {
    if s != [] {
      var init := s[..|s| - 1];
      var v := Value(s);
      assert v / 10 == Value(init) && v % 10 == s[|s| - 1] as int - '0' as int;
      FixedDigitsOfValue(init);
      assert s == init + [s[|s| - 1]];
    }
  }

  /** Digit strings of one width are equal exactly when their values are. */
  lemma ValueInjective(s: string, t: string)
    requires AllDigits(s) && AllDigits(t) && |s| == |t|
    ensures Value(s) == Value(t) <==> s == t
  {
    if Value(s) == Value(t) {
      FixedDigitsOfValue(s);
      FixedDigitsOfValue(t);
    }
  }
}
