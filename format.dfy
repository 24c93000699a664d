/** Decimal rendering of integers as Go's `fmt` verbs `%d` (used for the year in
    the title) and `%2d` (used for the day numbers of the grid) produce it. */
module Format {

  predicate IsDigit(c: char)
  {
    '0' <= c <= '9'
  }

  predicate AllDigits(s: string)
  {
    forall i :: 0 <= i < |s| ==> IsDigit(s[i])
  }

  function DigitChar(d: int): (c: char)
    requires 0 <= d < 10
    ensures IsDigit(c)
  {
    ('0' as int + d) as char
  }

  function DigitValue(c: char): (d: int)
    requires IsDigit(c)
    ensures 0 <= d < 10
  {
    c as int - '0' as int
  }

  /** The decimal digits of `n`, most significant first, without leading zeros. */
  function FormatNat(n: nat): string
    decreases n
  {
    if n < 10 then [DigitChar(n)] else FormatNat(n / 10) + [DigitChar(n % 10)]
  }

  /** The rendering is a non-empty string of digits, a single one exactly below ten. */
  lemma {:induction false} FormatNatDigits(n: nat)
    ensures 1 <= |FormatNat(n)| && AllDigits(FormatNat(n))
    ensures |FormatNat(n)| == 1 <==> n < 10
    decreases n
  {
    if n >= 10 {
      FormatNatDigits(n / 10);
    }
  }

  /** The value of a string of decimal digits; the reading direction of `FormatNat`. */
  function DecimalValue(s: string): nat
    requires AllDigits(s)
  {
    if s == [] then 0 else 10 * DecimalValue(s[..|s| - 1]) + DigitValue(s[|s| - 1])
  }

  /** Reading back a rendered number gives the number. */
  lemma {:induction false} DecimalValueOfFormatNat(n: nat)
    ensures AllDigits(FormatNat(n)) && DecimalValue(FormatNat(n)) == n
    decreases n
  {
    FormatNatDigits(n);
    var s := FormatNat(n);
    if n >= 10 {
      DecimalValueOfFormatNat(n / 10);
      assert s[..|s| - 1] == FormatNat(n / 10);
    }
    assert DigitValue(DigitChar(n % 10)) == n % 10;
  }

  lemma FormatNatInjective(a: nat, b: nat)
    requires FormatNat(a) == FormatNat(b)
    ensures a == b
  {
    DecimalValueOfFormatNat(a);
    DecimalValueOfFormatNat(b);
  }

  /** `%d`: a minus sign before the digits of a negative number. */
  function FormatInt(i: int): string
  {
    if i < 0 then "-" + FormatNat(-i) else FormatNat(i)
  }

  /** The rendering starts with a minus sign exactly for negative numbers. */
  lemma FormatIntSign(i: int)
    ensures 1 <= |FormatInt(i)| && (FormatInt(i)[0] == '-' <==> i < 0)
  {
    FormatNatDigits(if i < 0 then -i else i);
  }

  /** Distinct integers are rendered differently. */
  lemma FormatIntInjective(a: int, b: int)
    requires FormatInt(a) == FormatInt(b)
    ensures a == b
  {
    FormatIntSign(a);
    FormatIntSign(b);
    if a < 0 {
      assert FormatNat(-a) == FormatInt(a)[1..];
      assert FormatNat(-b) == FormatInt(b)[1..];
      FormatNatInjective(-a, -b);
    } else {
      FormatNatInjective(a, b);
    }
  }

  /** Right-justify `s` in a field of `width` characters, padding with spaces. */
  function PadLeft(s: string, width: nat): string
  {
    if |s| < width then seq(width - |s|, _ => ' ') + s else s
  }

  /** `%2d` of a non-negative number: its decimal rendering right-justified in two
      columns, so only the renderings of 0 to 9 get a space in front. */
  function Width2(n: nat): string
  {
    if n < 10 then " " + FormatNat(n) else FormatNat(n)
  }

  /** `Width2` is the general padding rule applied to the `%d` rendering. */
  lemma Width2IsPadded(n: nat)
    ensures Width2(n) == PadLeft(FormatInt(n), 2)
  {
    FormatNatDigits(n);
    if n < 10 {
      assert seq(1, _ => ' ') == [' '];
    }
  }

  /** `%2d` of a number below 100: a space and a digit, or two digits. */
  lemma Width2OfSmall(d: nat)
    requires d < 100
    ensures Width2(d) == if d < 10 then [' ', DigitChar(d)] else [DigitChar(d / 10), DigitChar(d % 10)]
  {
    if d >= 10 {
      assert FormatNat(d) == FormatNat(d / 10) + [DigitChar(d % 10)];
    }
  }

  /** `%2d` of a non-negative number ends with a digit, so it is never blank. */
  lemma Width2EndsWithDigit(d: nat)
    ensures |Width2(d)| >= 2 && IsDigit(Width2(d)[|Width2(d)| - 1])
  {
    Width2Shape(d);
    FormatNatDigits(d);
  }

  /** A one-digit rendering gets one space in front; a longer one is unchanged. */
  lemma Width2Shape(d: nat)
    ensures |FormatNat(d)| == 1 ==> Width2(d) == [' '] + FormatNat(d)
    ensures |FormatNat(d)| > 1 ==> Width2(d) == FormatNat(d)
    ensures (Width2(d)[0] == ' ') <==> d < 10
  {
    FormatNatDigits(d);
    var s := FormatNat(d);
    if |s| == 1 {
      assert seq(1, _ => ' ') == [' '];
    }
  }

  /** Distinct non-negative numbers have distinct `%2d` renderings. */
  lemma Width2Injective(a: nat, b: nat)
    requires Width2(a) == Width2(b)
    ensures a == b
  {
    var s, t := FormatNat(a), FormatNat(b);
    var r := Width2(a);
    Width2Shape(a);
    Width2Shape(b);
    if a < 10 {
      assert r[1..] == s && r[1..] == t;
    }
    FormatNatInjective(a, b);
  }
}
