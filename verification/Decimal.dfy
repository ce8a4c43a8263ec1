/** Decimal rendering of integers as Python's `format(n, "d")` produces it
    (an optional minus sign, then the digits with no leading zero), together
    with a reader that inverts it. */
module Decimal {
  import opened Wrappers

  predicate IsDigit(c: char) {
    '0' <= c <= '9'
  }

  predicate AllDigits(s: string) {
    forall i :: 0 <= i < |s| ==> IsDigit(s[i])
  }

  function DigitChar(d: nat): (c: char)
    requires d < 10
    ensures IsDigit(c)
  {
    ('0' as int + d) as char
  }

  function DigitValue(c: char): (d: nat)
    requires IsDigit(c)
    ensures d < 10 && DigitChar(d) == c
  {
    c as int - '0' as int
  }

  /** Value of a string of digits, most significant first. */
  function DigitsValue(s: string): nat
    requires AllDigits(s)
  {
    if s == [] then 0 else 10 * DigitsValue(s[..|s| - 1]) + DigitValue(s[|s| - 1])
  }

  /** Canonical decimal digits: non-empty, and no leading zero unless the number is zero. */
  predicate IsCanonical(s: string) {
    |s| >= 1 && AllDigits(s) && (s[0] == '0' ==> |s| == 1)
  }

  /** The digits of a natural number, as `str(n)` gives them. */
  function NatToDecimal(n: nat): (r: string)
    ensures IsCanonical(r)
    ensures (r[0] == '0') == (n == 0)
    decreases n
  {
    if n < 10 then [DigitChar(n)] else NatToDecimal(n / 10) + [DigitChar(n % 10)]
  }

  /** An integer with a leading '-' when negative, as `f"{n:01d}"` gives it. */
  function IntToDecimal(n: int): (r: string)
    ensures |r| >= 1
    ensures (r[0] == '-') == (n < 0)
    ensures forall i :: 0 <= i < |r| ==> IsDigit(r[i]) || (i == 0 && r[i] == '-')
  {
    if n < 0 then "-" + NatToDecimal(-n) else NatToDecimal(n)
  }

  /** Reads canonical digits; anything else is rejected. */
  function ParseNat(s: string): (r: Option<nat>)
    ensures r.Some? <==> IsCanonical(s)
  {
    if IsCanonical(s) then Some(DigitsValue(s)) else None
  }

  /** Reads what IntToDecimal writes: an optional '-' before canonical digits
      of a non-zero number, or canonical digits alone. */
  function ParseInt(s: string): Option<int> {
    if |s| > 0 && s[0] == '-' then
      match ParseNat(s[1..])
      case Some(v) => if v > 0 then Some(-(v as int)) else None
      case None => None
    else
      match ParseNat(s)
      case Some(v) => var value: int := v; Some(value)
      case None => None
  }

  lemma {:induction false} NatToDecimalRoundTrip(n: nat)
    ensures DigitsValue(NatToDecimal(n)) == n
    decreases n
  {
    if n >= 10 {
      NatToDecimalRoundTrip(n / 10);
      var s := NatToDecimal(n);
      assert s[..|s| - 1] == NatToDecimal(n / 10);
    }
  }

  lemma {:induction false} LeadingNonZeroIsPositive(s: string)
    requires IsCanonical(s) && s[0] != '0'
    ensures DigitsValue(s) > 0
    decreases |s|
  {
    if |s| > 1 {
      var p := s[..|s| - 1];
      assert p[0] == s[0];
      LeadingNonZeroIsPositive(p);
    }
  }

  lemma {:induction false} DecimalOfDigitsValue(s: string)
    requires IsCanonical(s)
    ensures NatToDecimal(DigitsValue(s)) == s
    decreases |s|
  {
    if |s| > 1 {
      var p := s[..|s| - 1];
      assert p[0] == s[0];
      LeadingNonZeroIsPositive(p);
      DecimalOfDigitsValue(p);
      var n := DigitsValue(s);
      assert n / 10 == DigitsValue(p) && n % 10 == DigitValue(s[|s| - 1]);
      assert s == p + [s[|s| - 1]];
    }
  }

  /** Reading back what IntToDecimal wrote yields the same integer. */
  lemma IntToDecimalRoundTrip(n: int)
    ensures ParseInt(IntToDecimal(n)) == Some(n)
  {
    var r := IntToDecimal(n);
    if n < 0 {
      NatToDecimalRoundTrip(-n);
      assert r[1..] == NatToDecimal(-n);
    } else {
      NatToDecimalRoundTrip(n);
    }
  }

  /** Conversely, every string ParseInt accepts is exactly IntToDecimal's
      rendering of the value read, so the rendering is one-to-one. */
  lemma ParseIntIsCanonical(s: string, n: int)
    requires ParseInt(s) == Some(n)
    ensures IntToDecimal(n) == s
  {
    if |s| > 0 && s[0] == '-' {
      DecimalOfDigitsValue(s[1..]);
      assert s == "-" + s[1..];
    } else {
      DecimalOfDigitsValue(s);
    }
  }

  lemma IntToDecimalInjective(m: int, n: int)
    requires IntToDecimal(m) == IntToDecimal(n)
    ensures m == n
  {
    IntToDecimalRoundTrip(m);
    IntToDecimalRoundTrip(n);
  }

}
