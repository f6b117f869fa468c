/** The numeric conversions the encoder applies to text operands: `int(s)` on
    a decimal digit string, and `int(float(s) * 10)` on a decimal fraction,
    which yields tenths truncated toward zero. Only unsigned decimal text is
    accepted; the sign, whitespace and underscore forms Python also takes are
    not part of this model. */
module Numerals {
  import opened Wrappers
  import PyText

  predicate IsDigit(c: char) {
    '0' <= c <= '9'
  }

  predicate AllDigits(s: string) {
    forall i :: 0 <= i < |s| ==> IsDigit(s[i])
  }

  function DigitValue(c: char): (d: nat)
    requires IsDigit(c)
    ensures d < 10
  {
    (c - '0') as nat
  }

  function DigitChar(d: nat): (c: char)
    requires d < 10
    ensures IsDigit(c) && DigitValue(c) == d
  {
    ('0' as int + d) as char
  }

  /** The number a string of decimal digits denotes, most significant first;
      the empty string denotes 0. */
  function DecimalValue(s: string): nat
    requires AllDigits(s)
  {
    if |s| == 0 then 0
    else DecimalValue(s[..|s| - 1]) * 10 + DigitValue(s[|s| - 1])
  }

  /** `str(n)`: the shortest decimal text of `n`. */
  function DecimalText(n: nat): (s: string)
    ensures |s| >= 1 && AllDigits(s)
  {
    if n < 10 then [DigitChar(n)]
    else DecimalText(n / 10) + [DigitChar(n % 10)]
  }

  /** Python's `int(s)` restricted to unsigned decimal text: `None` is the
      ValueError it raises on anything else, the empty string included. */
  function ParseInt(s: string): (r: Option<nat>)
    ensures r.Some? <==> |s| > 0 && AllDigits(s)
  {
    if |s| > 0 && AllDigits(s) then Some(DecimalValue(s)) else None
  }

  lemma {:induction false} DecimalRoundTrip(n: nat)
    ensures DecimalValue(DecimalText(n)) == n
  {
    if n >= 10 {
      var s := DecimalText(n);
      assert s[..|s| - 1] == DecimalText(n / 10);
      DecimalRoundTrip(n / 10);
    }
  }

  /** `int(str(n)) == n`: the decimal parser reads back what `str` prints. */
  lemma ParseIntOfText(n: nat)
    ensures ParseInt(DecimalText(n)) == Some(n)
  {
    DecimalRoundTrip(n);
  }

  /** The value of the digits after a decimal point, as an exact fraction. */
  function FractionValue(s: string): real
    requires AllDigits(s)
  {
    if |s| == 0 then 0.0
    else (DigitValue(s[0]) as real + FractionValue(s[1..])) / 10.0
  }

  lemma {:induction false} FractionBounds(s: string)
    requires AllDigits(s)
    ensures 0.0 <= FractionValue(s) < 1.0
  {
    if |s| > 0 {
      FractionBounds(s[1..]);
    }
  }

  /** Decimal text with at most one point and digits on at least one side of
      it: "12", "12.5", "12.", ".5". */
  predicate IsDecimal(s: string) {
    var i := PyText.Find(s, '.');
    AllDigits(s[..i]) && (i == |s| || AllDigits(s[i + 1..])) &&
    (i == |s| ==> |s| > 0) && (i < |s| ==> |s| > 1)
  }

  /** The exact rational value of decimal text. */
  function DecimalReal(s: string): real
    requires IsDecimal(s)
  {
    var i := PyText.Find(s, '.');
    DecimalValue(s[..i]) as real + (if i == |s| then 0.0 else FractionValue(s[i + 1..]))
  }

  /** `int(float(s) * 10)` on decimal text: the integer part scaled by ten
      plus the first fractional digit, everything after it dropped. */
  function ParseTenths(s: string): (r: Option<nat>)
    ensures r.Some? <==> IsDecimal(s)
  {
    if !IsDecimal(s) then None
    else
      var i := PyText.Find(s, '.');
      var whole := DecimalValue(s[..i]) * 10;
      if i + 1 < |s| then Some(whole + DigitValue(s[i + 1])) else Some(whole)
  }

  /** The tenths are the exact value times ten, truncated: t <= 10x < t + 1. */
  lemma TenthsTruncate(s: string)
    requires IsDecimal(s)
    ensures ParseTenths(s).Some?
    ensures var t := ParseTenths(s).value as real;
            t <= 10.0 * DecimalReal(s) < t + 1.0
  {
    var i := PyText.Find(s, '.');
    if i < |s| {
      var f := s[i + 1..];
      if |f| > 0 {
        FractionBounds(f[1..]);
        assert s[i + 1] == f[0];
      }
    }
  }

  /** Integer text reads as that many tens of tenths. */
  lemma TenthsOfInteger(s: string)
    requires |s| > 0 && AllDigits(s)
    ensures ParseTenths(s) == Some(10 * ParseInt(s).value)
  {
    assert forall k :: 0 <= k < |s| ==> s[k] != '.';
    assert s[..|s|] == s;
  }

  /** Digit text holds no separator. */
  lemma DigitsExclude(s: string, c: char)
    requires AllDigits(s) && !IsDigit(c)
    ensures c !in s
  {
  }

  /** Decimal text of a few numbers. */
  lemma TextExamples()
    ensures DecimalText(5) == "5" && DecimalText(18) == "18" && DecimalText(25) == "25"
    ensures DecimalText(300) == "300"
  {
  }
}
