/**
 * Decimal numerals: Python's `int(t)` on a string of digits, `str(n)`, and the
 * zero-padded `f"{n:0<width>d}"` formatting used by date_utils.py.
 */
module Numerals {
  import opened Chars

  function DigitValue(c: char): nat
    requires IsDigit(c)
  {
    c as int - '0' as int
  }

  function DigitChar(n: nat): (c: char)
    requires n < 10
    ensures IsDigit(c) && DigitValue(c) == n
  {
    ('0' as int + n) as char
  }

  /** `int(t)` for a string of ASCII digits (leading zeros allowed). */
  function Value(t: string): nat
    requires AllDigits(t)
  {
    if t == [] then 0 else Value(t[..|t| - 1]) * 10 + DigitValue(t[|t| - 1])
  }

  function Pow10(k: nat): (p: nat)
    ensures p >= 1
  {
    if k == 0 then 1 else 10 * Pow10(k - 1)
  }

  /** `str(n)`: the canonical decimal numeral, without leading zeros. */
  function Decimal(n: nat): (r: string)
    ensures AllDigits(r) && |r| >= 1
    ensures r[0] == '0' ==> r == "0"
    ensures Value(r) == n
  {
    if n < 10 then [DigitChar(n)]
    else
      var r := Decimal(n / 10) + [DigitChar(n % 10)];
      assert r[..|r| - 1] == Decimal(n / 10);
      r
  }

  /** `t` preceded by as many zeros as bring it to `width` characters. */
  function PadZeros(t: string, width: nat): string
  {
    if |t| >= width then t else Zeros(width - |t|) + t
  }

  function Zeros(n: nat): (z: string)
    ensures |z| == n && forall k :: 0 <= k < n ==> z[k] == '0'
  {
    if n == 0 then [] else ['0'] + Zeros(n - 1)
  }

  /** `f"{n:0<width>d}"`: zero padding after the sign, never truncating. */
  function FormatInt(n: int, width: nat): string
  {
    if n < 0 then "-" + PadZeros(Decimal(-n), if width > 0 then width - 1 else 0)
    else PadZeros(Decimal(n), width)
  }

  /** The padding makes the field at least `width` characters long. */
  lemma FormatIntWidth(n: int, width: nat)
    ensures |FormatInt(n, width)| >= width
  {
  }

  /** A digit string is worth less than ten to the power of its length. */
  lemma {:induction false} ValueBound(t: string)
    requires AllDigits(t)
    ensures Value(t) < Pow10(|t|)
  {
    if t != [] {
      ValueBound(t[..|t| - 1]);
    }
  }

  /** Leading zeros do not change the value of a digit string. */
  lemma {:induction false} LeadingZeros(z: string, t: string)
    requires AllDigits(t) && forall k :: 0 <= k < |z| ==> z[k] == '0'
    ensures AllDigits(z + t) && Value(z + t) == Value(t)
    decreases |t|, |z|
  {
    if t == [] {
      if z != [] {
        assert z == z[..|z| - 1] + [z[|z| - 1]];
        LeadingZeros(z[..|z| - 1], []);
        assert (z + t)[..|z + t| - 1] == z[..|z| - 1] + [];
      }
    } else {
      LeadingZeros(z, t[..|t| - 1]);
      assert (z + t)[..|z + t| - 1] == z + t[..|t| - 1];
    }
  }

  /** Two digit strings of the same length and value are the same string. */
  lemma {:induction false} ValueInjective(a: string, b: string)
    requires AllDigits(a) && AllDigits(b) && |a| == |b| && Value(a) == Value(b)
    ensures a == b
  {
    if a != [] {
      var a', b' := a[..|a| - 1], b[..|b| - 1];
      ValueBound(a'); ValueBound(b');
      assert DigitValue(a[|a| - 1]) == Value(a) % 10;
      assert DigitValue(b[|b| - 1]) == Value(b) % 10;
      assert Value(a') == Value(a) / 10 == Value(b');
      ValueInjective(a', b');
      assert a == a' + [a[|a| - 1]] && b == b' + [b[|b| - 1]];
    }
  }

  /** A canonical numeral of a number below ten to the `k` has at most `k` digits. */
  lemma {:induction false} DecimalLength(n: nat, k: nat)
    requires 1 <= k && n < Pow10(k)
    ensures |Decimal(n)| <= k
  {
    if n >= 10 {
      DecimalLength(n / 10, k - 1);
    }
  }

  /** Formatting a number that fits the width gives exactly `width` digits of that value. */
  lemma FormatFits(n: nat, width: nat)
    requires 1 <= width && n < Pow10(width)
    ensures AllDigits(FormatInt(n, width)) && |FormatInt(n, width)| == width
    ensures Value(FormatInt(n, width)) == n
  {
    DecimalLength(n, width);
    var d := Decimal(n);
    if |d| < width {
      LeadingZeros(Zeros(width - |d|), d);
    }
  }

  /** Re-formatting a digit string at its own width gives it back unchanged. */
  lemma FormatValueRoundTrip(t: string)
    requires AllDigits(t) && |t| >= 1
    ensures FormatInt(Value(t), |t|) == t
  {
    ValueBound(t);
    FormatFits(Value(t), |t|);
    ValueInjective(FormatInt(Value(t), |t|), t);
  }
}
