/**
  Exact decimal numbers as .NET's `decimal` keeps them: an integer mantissa
  and a decimal scale, so that `1.50` and `1.5` compare equal (`SameValue`,
  .NET's `==`) but format differently. Dafny's `==` on `Dec` is the stronger
  equality of representation: equal mantissa and equal scale. Parsing follows `decimal.TryParse` with
  `NumberStyles.AllowDecimalPoint`: ASCII digits with at most one occurrence
  of the locale's decimal separator and nothing else.
*/
module Decimals {
  import opened Wrappers

  /** The value mantissa / 10^scale. */
  datatype Dec = Dec(mantissa: int, scale: nat)

  const Zero := Dec(0, 0)

  predicate IsZero(d: Dec) { d.mantissa == 0 }

  /** .NET's `==` on decimals: the two denote the same number, whatever their scales. */
  predicate SameValue(a: Dec, b: Dec) { a.mantissa * Pow10(b.scale) == b.mantissa * Pow10(a.scale) }

  /** A comparison with 0, as in `Years != 0`, looks at the mantissa only. */
  lemma ZeroIsSameValue(d: Dec)
    ensures IsZero(d) <==> SameValue(d, Zero)
  {
  }

  /** `1.50` and `1.5` compare equal, yet they are distinct representations and write different text. */
  lemma ScaleKeptButEqual()
    ensures SameValue(Dec(150, 2), Dec(15, 1))
    ensures Dec(150, 2) != Dec(15, 1)
    ensures FormatDec(Dec(150, 2), '.') == "1.50" && FormatDec(Dec(15, 1), '.') == "1.5"
  {
    assert Pow10(1) == 10 && Pow10(2) == 100;
    assert NatDigits(150) == "150" && NatDigits(15) == "15";
    assert "150"[..1] + ['.'] + "150"[1..] == "1.50";
    assert "15"[..1] + ['.'] + "15"[1..] == "1.5";
  }

  function Negate(d: Dec): Dec {
    Dec(-d.mantissa, d.scale)
  }

  function Abs(d: Dec): (r: Dec)
    ensures r.mantissa >= 0 && r.scale == d.scale
    ensures d.mantissa >= 0 ==> r == d
    ensures d.mantissa <= 0 ==> Negate(r) == d
  {
    Dec(if d.mantissa < 0 then -d.mantissa else d.mantissa, d.scale)
  }

  /**
    Negation is its own inverse, flips the sign, keeps zero at zero and
    leaves the magnitude alone, so a negative duration's fields are the
    positive ones it was read from.
  */
  lemma NegateInvolution(d: Dec)
    ensures Negate(Negate(d)) == d
    ensures d.mantissa > 0 <==> Negate(d).mantissa < 0
    ensures IsZero(Negate(d)) <==> IsZero(d)
    ensures Abs(Negate(d)) == Abs(d)
  {
  }

  predicate IsDigit(c: char) { '0' <= c <= '9' }

  predicate AllDigits(s: string) { forall i :: 0 <= i < |s| ==> IsDigit(s[i]) }

  function DigitValue(c: char): nat
    requires IsDigit(c)
  {
    c as int - '0' as int
  }

  function DigitChar(n: nat): (c: char)
    requires n < 10
    ensures IsDigit(c) && DigitValue(c) == n
  {
    ('0' as int + n) as char
  }

  /** The number a run of digits denotes, most significant digit first. */
  function DigitsValue(s: string): nat
    requires AllDigits(s)
  {
    if s == [] then 0 else DigitsValue(s[..|s| - 1]) * 10 + DigitValue(s[|s| - 1])
  }

  /** Shortest decimal digits of n ("0" for zero). */
  function NatDigits(n: nat): (s: string)
    ensures |s| > 0 && AllDigits(s)
  {
    if n < 10 then [DigitChar(n)] else NatDigits(n / 10) + [DigitChar(n % 10)]
  }

  function Zeros(k: nat): (s: string)
    ensures |s| == k && AllDigits(s)
    ensures forall i :: 0 <= i < k ==> s[i] == '0'
  {
    if k == 0 then [] else Zeros(k - 1) + ['0']
  }

  /** Index of the first occurrence of c in s. */
  function IndexOfChar(s: string, c: char): (r: Option<nat>)
    ensures r.None? <==> c !in s
    ensures r.Some? ==> r.value < |s| && s[r.value] == c && c !in s[..r.value]
  {
    if s == [] then None
    else if s[0] == c then Some(0)
    else match IndexOfChar(s[1..], c)
      case None => None
      case Some(i) => Some(i + 1)
  }

  /**
    `decimal.TryParse(t, NumberStyles.AllowDecimalPoint, provider)` where the
    provider's decimal separator is sep: an optional run of digits, an
    optional separator and an optional run of digits, with at least one digit
    in all. The scale is the number of digits after the separator.
  */
  function DecimalTryParse(t: string, sep: char): Option<Dec>
  {
    if AllDigits(t) then
      if t == [] then None else Some(Dec(DigitsValue(t), 0))
    else match IndexOfChar(t, sep)
      case None => None
      case Some(i) =>
        var whole, frac := t[..i], t[i + 1..];
        if AllDigits(whole) && AllDigits(frac) && |whole| + |frac| > 0
        then Some(Dec(DigitsValue(whole + frac), |frac|))
        else None
  }

  /**
    `decimal.ToString(provider)` for a non-negative value: the mantissa's
    digits, padded with leading zeros so that at least one digit precedes the
    separator, with the separator inserted before the last `scale` digits.
  */
  function FormatDec(d: Dec, sep: char): string
    requires d.mantissa >= 0
  {
    var digits := NatDigits(d.mantissa);
    if d.scale == 0 then digits
    else
      var padded := Padded(digits, d.scale + 1);
      padded[..|padded| - d.scale] + [sep] + padded[|padded| - d.scale..]
  }

  function Padded(digits: string, width: nat): (r: string)
    requires AllDigits(digits)
    ensures AllDigits(r) && |r| >= width && |r| >= |digits|
  {
    if |digits| >= width then digits else Zeros(width - |digits|) + digits
  }

  // ---- Lemmas ------------------------------------------------------------

  lemma AllDigitsAppend(a: string, b: string)
    requires AllDigits(a) && AllDigits(b)
    ensures AllDigits(a + b)
  {
    forall i | 0 <= i < |a + b| ensures IsDigit((a + b)[i]) {
      if i < |a| { assert (a + b)[i] == a[i]; } else { assert (a + b)[i] == b[i - |a|]; }
    }
  }

  lemma Distribute(x: int, p: int, y: int, d: int)
    ensures (x * p + y) * 10 + d == x * (10 * p) + (y * 10 + d)
  {}

  lemma {:induction false} DigitsValueAppend(a: string, b: string)
    requires AllDigits(a) && AllDigits(b)
    ensures AllDigits(a + b)
    ensures DigitsValue(a + b) == DigitsValue(a) * Pow10(|b|) + DigitsValue(b)
    decreases |b|
  {
    if b == [] {
      assert a + b == a;
    } else {
      var b' := b[..|b| - 1];
      var ab := a + b;
      assert ab[..|ab| - 1] == a + b';
      DigitsValueAppend(a, b');
      AllDigitsAppend(a, b);
      Distribute(DigitsValue(a), Pow10(|b'|), DigitsValue(b'), DigitValue(b[|b| - 1]));
    }
  }

  function Pow10(k: nat): (r: nat)
    ensures r >= 1
  {
    if k == 0 then 1 else 10 * Pow10(k - 1)
  }

  lemma {:induction false} ZerosValue(k: nat)
    ensures DigitsValue(Zeros(k)) == 0
  {
    if k > 0 {
      assert Zeros(k)[..k - 1] == Zeros(k - 1);
      ZerosValue(k - 1);
    }
  }

  /** The digits of n denote n. */
  lemma {:induction false} NatDigitsValue(n: nat)
    ensures DigitsValue(NatDigits(n)) == n
  {
    if n >= 10 {
      var s := NatDigits(n);
      assert s[..|s| - 1] == NatDigits(n / 10);
      NatDigitsValue(n / 10);
    }
  }

  /** Leading zeros do not change the value. */
  lemma {:induction false} PaddedValue(digits: string, width: nat)
    requires AllDigits(digits)
    ensures DigitsValue(Padded(digits, width)) == DigitsValue(digits)
  {
    if |digits| < width {
      DigitsValueAppend(Zeros(width - |digits|), digits);
      ZerosValue(width - |digits|);
    }
  }

  /** Digits, one separator, digits: the parse reads both runs as one mantissa. */
  lemma {:induction false} ParseWithSeparator(whole: string, frac: string, sep: char)
    requires AllDigits(whole) && AllDigits(frac) && |whole| > 0 && !IsDigit(sep)
    ensures AllDigits(whole + frac)
    ensures DecimalTryParse(whole + [sep] + frac, sep) == Some(Dec(DigitsValue(whole + frac), |frac|))
  {
    AllDigitsAppend(whole, frac);
    var k := |whole|;
    var t := whole + [sep] + frac;
    assert t[k] == sep;
    assert t[..k] == whole;
    assert t[k + 1..] == frac;
    assert IndexOfChar(t, sep) == Some(k);
  }

  /** Formatting a non-negative decimal and parsing it back under the same separator gives it back. */
  lemma {:induction false} FormatDecRoundTrip(d: Dec, sep: char)
    requires d.mantissa >= 0 && !IsDigit(sep)
    ensures DecimalTryParse(FormatDec(d, sep), sep) == Some(d)
  {
    if d.scale > 0 {
      FormatFractionRoundTrip(d, sep);
    } else {
      var digits := NatDigits(d.mantissa);
      NatDigitsValue(d.mantissa);
      assert FormatDec(d, sep) == digits;
      assert DecimalTryParse(digits, sep) == Some(Dec(DigitsValue(digits), 0));
    }
  }

  lemma FormatFractionRoundTrip(d: Dec, sep: char)
    requires d.mantissa >= 0 && !IsDigit(sep) && d.scale > 0
    ensures DecimalTryParse(FormatDec(d, sep), sep) == Some(d)
  {
    var whole, frac := FormatFractionShape(d, sep);
    ParseWithSeparator(whole, frac, sep);
  }

  /** A formatted decimal with a positive scale: digits, the separator, then exactly `scale` digits. */
  lemma FormatFractionShape(d: Dec, sep: char) returns (whole: string, frac: string)
    requires d.mantissa >= 0 && d.scale > 0
    ensures AllDigits(whole) && AllDigits(frac) && |whole| > 0 && |frac| == d.scale
    ensures FormatDec(d, sep) == whole + [sep] + frac
    ensures AllDigits(whole + frac) && DigitsValue(whole + frac) == d.mantissa
  {
    var padded := PaddedMantissa(d);
    var k := |padded| - d.scale;
    whole, frac := padded[..k], padded[k..];
    assert whole + frac == padded;
  }

  /** The mantissa's digits padded to more than `scale` digits still denote the mantissa. */
  lemma PaddedMantissa(d: Dec) returns (padded: string)
    requires d.mantissa >= 0
    ensures padded == Padded(NatDigits(d.mantissa), d.scale + 1)
    ensures AllDigits(padded) && |padded| > d.scale && DigitsValue(padded) == d.mantissa
  {
    var digits := NatDigits(d.mantissa);
    NatDigitsValue(d.mantissa);
    padded := Padded(digits, d.scale + 1);
    PaddedValue(digits, d.scale + 1);
  }

  /** A formatted decimal contains the separator exactly when its scale is positive. */
  lemma FormatDecSeparator(d: Dec, sep: char)
    requires d.mantissa >= 0 && !IsDigit(sep)
    ensures var t := FormatDec(d, sep);
      && (sep in t <==> d.scale > 0)
      && (forall i :: 0 <= i < |t| ==> IsDigit(t[i]) || t[i] == sep)
  {
    var t := FormatDec(d, sep);
    if d.scale > 0 {
      var padded := Padded(NatDigits(d.mantissa), d.scale + 1);
      var k := |padded| - d.scale;
      assert t == padded[..k] + [sep] + padded[k..];
      assert t[k] == sep;
      forall i | 0 <= i < |t| ensures IsDigit(t[i]) || t[i] == sep {
        if i < k { assert t[i] == padded[i]; }
        else if i > k { assert t[i] == padded[i - 1]; }
      }
    } else {
      assert sep !in t by { assert AllDigits(t); }
    }
  }

  /** A parsed decimal is never negative and its scale counts the digits after the separator. */
  lemma DecimalTryParseNonNegative(t: string, sep: char)
    requires DecimalTryParse(t, sep).Some?
    ensures DecimalTryParse(t, sep).value.mantissa >= 0
    ensures DecimalTryParse(t, sep).value.scale > 0 ==> sep in t
    ensures |t| > 0
  {
  }
}
