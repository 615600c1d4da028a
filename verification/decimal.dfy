/** Decimal text of non-negative integers, as Java's `Integer.toString`, `Long.toString`
    and the `%0Nd` format produce it, together with the value such text denotes. */
module Decimal {

  /** A decimal digit character. */
  predicate IsDigit(c: char) {
    '0' <= c <= '9'
  }

  /** Text made of decimal digits only. */
  predicate IsDigits(s: string) {
    forall i :: 0 <= i < |s| ==> IsDigit(s[i])
  }

  /** The character of a digit value. */
  function DigitChar(d: nat): (c: char)
    requires d < 10
    ensures IsDigit(c) && DigitValue(c) == d
  {
    '0' + d as char
  }

  /** The value of a digit character. */
  function DigitValue(c: char): (d: nat)
    requires IsDigit(c)
    ensures d < 10
  {
    (c - '0') as nat
  }

  /** The decimal text of `n`, most significant digit first, with no leading zero. */
  function DecimalText(n: nat): (s: string)
    ensures |s| >= 1 && IsDigits(s)
    ensures s[0] == '0' ==> n == 0
    decreases n
  {
    if n < 10 then [DigitChar(n)] else DecimalText(n / 10) + [DigitChar(n % 10)]
  }

  /** The number a digit text denotes; the empty text denotes 0. */
  function DecimalValue(s: string): nat
    requires IsDigits(s)
  {
    if |s| == 0 then 0 else DecimalValue(s[..|s| - 1]) * 10 + DigitValue(s[|s| - 1])
  }

  /** `n` zeros. */
  function Zeros(n: nat): (s: string)
    ensures |s| == n && IsDigits(s)
  {
    if n == 0 then "" else Zeros(n - 1) + "0"
  }

  /** `String.format("%0" + width + "d", n)`: the decimal text of `n`, left-padded with
      zeros to `width` characters when it is shorter. */
  function ZeroPadded(n: nat, width: nat): (s: string)
    ensures IsDigits(s)
  {
    var digits := DecimalText(n);
    (if |digits| < width then Zeros(width - |digits|) else "") + digits
  }

  // ---------------------------------------------------------------------------
  // Lemmas

  /** Reading the decimal text of `n` gives `n` back. */
  lemma {:induction false} DecimalRoundTrip(n: nat)
    ensures DecimalValue(DecimalText(n)) == n
    decreases n
  {
    if n >= 10 {
      var s := DecimalText(n);
      DecimalRoundTrip(n / 10);
      assert s[..|s| - 1] == DecimalText(n / 10);
    }
  }

  /** Leading zeros do not change the value of a digit text. */
  lemma {:induction false} LeadingZeros(k: nat, s: string)
    requires IsDigits(s)
    ensures IsDigits(Zeros(k) + s) && DecimalValue(Zeros(k) + s) == DecimalValue(s)
    decreases |s|
  {
    var t := Zeros(k) + s;
    if |s| == 0 {
      assert t == Zeros(k);
      ZerosValue(k);
    } else {
      assert t[..|t| - 1] == Zeros(k) + s[..|s| - 1];
      LeadingZeros(k, s[..|s| - 1]);
    }
  }

  /** Zeros denote 0. */
  lemma {:induction false} ZerosValue(k: nat)
    ensures DecimalValue(Zeros(k)) == 0
  {
    if k > 0 {
      ZerosValue(k - 1);
      var z := Zeros(k);
      assert z == Zeros(k - 1) + ['0'];
      assert z[..k - 1] == Zeros(k - 1);
      assert DigitValue(z[k - 1]) == 0;
      assert DecimalValue(z) == DecimalValue(Zeros(k - 1)) * 10 + 0;
    }
  }

  /** Zero-padded text still denotes `n`, and is exactly `width` characters long when
      `n` has at most `width` digits. */
  lemma ZeroPaddedRoundTrip(n: nat, width: nat)
    ensures DecimalValue(ZeroPadded(n, width)) == n
    ensures |DecimalText(n)| <= width ==> |ZeroPadded(n, width)| == width
    ensures |ZeroPadded(n, width)| >= width
  {
    var digits := DecimalText(n);
    DecimalRoundTrip(n);
    if |digits| < width {
      LeadingZeros(width - |digits|, digits);
    } else {
      assert ZeroPadded(n, width) == digits;
    }
  }

  /** Numbers below 100 have at most two digits, so `%02d` gives exactly two. */
  lemma TwoDigits(n: nat)
    requires n < 100
    ensures |ZeroPadded(n, 2)| == 2
  {
    if n >= 10 {
      assert |DecimalText(n / 10)| == 1;
    }
    ZeroPaddedRoundTrip(n, 2);
  }
}
