/**
 * The part of Python's `float()` grammar the numbers in financial reports
 * use: an optional minus sign, one or more digits, and optionally a point
 * followed by one or more digits. Values are exact reals.
 */
module Decimal {

  import opened Options
  import opened Text

  predicate IsDigit(c: char)
  {
    '0' <= c <= '9'
  }

  predicate AllDigits(s: string)
  {
    forall i :: 0 <= i < |s| ==> IsDigit(s[i])
  }

  function DigitValue(c: char): nat
    requires IsDigit(c)
  {
    (c as int) - ('0' as int)
  }

  /** The value of a run of decimal digits, most significant first. */
  function DigitsValue(s: string): nat
    requires AllDigits(s)
    decreases |s|
  {
    if s == [] then 0 else DigitsValue(s[..|s| - 1]) * 10 + DigitValue(s[|s| - 1])
  }

  function Pow10(n: nat): (r: nat)
    ensures r > 0
  {
    if n == 0 then 1 else 10 * Pow10(n - 1)
  }

  /** `n` digits are worth less than `10^n`. */
  lemma {:induction false} DigitsValueBound(s: string)
    requires AllDigits(s)
    ensures DigitsValue(s) < Pow10(|s|)
    decreases |s|
  {
    if s != [] {
      var prefix := s[..|s| - 1];
      DigitsValueBound(prefix);
      assert DigitsValue(prefix) + 1 <= Pow10(|prefix|);
      assert (DigitsValue(prefix) + 1) * 10 <= Pow10(|prefix|) * 10;
    }
  }

  /** The digits after the point add a part in `[0, 1)`. */
  lemma FractionBound(fraction: string)
    requires AllDigits(fraction)
    ensures 0.0 <= DigitsValue(fraction) as real / Pow10(|fraction|) as real < 1.0
  {
    DigitsValueBound(fraction);
    RatioBelowOne(DigitsValue(fraction) as real, Pow10(|fraction|) as real);
  }

  lemma RatioBelowOne(x: real, y: real)
    requires 0.0 <= x < y
    ensures 0.0 <= x / y < 1.0
  {
    var q := x / y;
    assert q * y == x;
  }

  /** The value of `whole.fraction`: the fraction's digits are scaled down by their count. */
  function PointValue(whole: string, fraction: string): (r: real)
    requires AllDigits(whole) && AllDigits(fraction)
    ensures DigitsValue(whole) as real <= r < DigitsValue(whole) as real + 1.0
  {
    FractionBound(fraction);
    DigitsValue(whole) as real + DigitsValue(fraction) as real / Pow10(|fraction|) as real
  }

  /** `digits` or `digits.digits`, both parts non-empty. */
  function ParseUnsigned(s: string): (r: Option<real>)
    ensures r.Some? ==> r.value >= 0.0
  {
    match FirstIndex(s, '.')
    case None =>
      if s != [] && AllDigits(s) then Some(DigitsValue(s) as real) else None
    case Some(p) =>
      var whole, fraction := s[..p], s[p + 1..];
      if whole != [] && fraction != [] && AllDigits(whole) && AllDigits(fraction) then
        Some(PointValue(whole, fraction))
      else None
  }

  /** An accepted unsigned decimal starts with a digit, so never with a sign. */
  lemma ParseUnsignedStartsWithDigit(s: string)
    requires ParseUnsigned(s).Some?
    ensures s != [] && IsDigit(s[0])
  {
    match FirstIndex(s, '.')
    case None =>
    case Some(p) =>
      assert s[..p][0] == s[0];
  }

  /** Python's `float(s)` on the subset `[-]digits[.digits]`; anything else is a `ValueError` (None). */
  function ParseDecimal(s: string): Option<real>
  {
    if |s| > 0 && s[0] == '-' then
      match ParseUnsigned(s[1..])
      case Some(v) => Some(-v)
      case None => None
    else ParseUnsigned(s)
  }

  /** A run of digits holds no decimal point. */
  lemma DigitsHaveNoPoint(s: string)
    requires AllDigits(s)
    ensures '.' !in s
  {
    assert forall k :: 0 <= k < |s| ==> s[k] != '.';
  }

  /** In `whole.fraction` the first point is the one after `whole`. */
  lemma PointSplit(whole: string, fraction: string)
    requires AllDigits(whole)
    ensures FirstIndex(whole + "." + fraction, '.') == Some(|whole|)
    ensures (whole + "." + fraction)[..|whole|] == whole
    ensures (whole + "." + fraction)[|whole| + 1..] == fraction
  {
    var s := whole + "." + fraction;
    DigitsHaveNoPoint(whole);
    assert s[..|whole|] == whole;
    FirstIndexAt(s, '.', |whole|);
    assert s[|whole| + 1..] == fraction;
  }

  /** `whole.fraction` is read as the whole part plus the fraction scaled by its length. */
  lemma ParseUnsignedParts(whole: string, fraction: string)
    requires whole != [] && fraction != [] && AllDigits(whole) && AllDigits(fraction)
    ensures ParseUnsigned(whole + "." + fraction)
         == Some(PointValue(whole, fraction))
  {
    var s := whole + "." + fraction;
    PointSplit(whole, fraction);
    ParseUnsignedAt(s, |whole|);
  }

  /** With its first point at `p`, a decimal is read from the digits either side of `p`. */
  lemma ParseUnsignedAt(s: string, p: nat)
    requires FirstIndex(s, '.') == Some(p)
    requires s[..p] != [] && s[p + 1..] != [] && AllDigits(s[..p]) && AllDigits(s[p + 1..])
    ensures ParseUnsigned(s)
         == Some(PointValue(s[..p], s[p + 1..]))
  {
  }

  /** An unsigned decimal reads the same through `float()`, and its negation with a leading minus. */
  lemma ParseDecimalSigns(d: string, v: real)
    requires ParseUnsigned(d) == Some(v)
    ensures ParseDecimal(d) == Some(v)
    ensures ParseDecimal("-" + d) == Some(-v)
  {
    ParseUnsignedStartsWithDigit(d);
    var minus := "-" + d;
    assert minus[1..] == d;
  }

  /** The decimal digits of a natural number, most significant first. */
  function ShowNat(n: nat): (r: string)
    ensures r != [] && AllDigits(r)
    decreases n
  {
    var last := ['0' + ((n % 10) as char)];
    if n < 10 then last else ShowNat(n / 10) + last
  }

  /** Reading back the digits of `n` gives `n`. */
  lemma {:induction false} DigitsValueShowNat(n: nat)
    ensures DigitsValue(ShowNat(n)) == n
    decreases n
  {
    var s := ShowNat(n);
    if n >= 10 {
      DigitsValueShowNat(n / 10);
      assert s[..|s| - 1] == ShowNat(n / 10);
    }
  }

  /** `float(str(n))` is `n` for every natural number, and `float('-' + str(n))` is `-n`. */
  lemma ParseDecimalShowNat(n: nat)
    ensures ParseDecimal(ShowNat(n)) == Some(n as real)
    ensures ParseDecimal("-" + ShowNat(n)) == Some(-(n as real))
  {
    var s := ShowNat(n);
    DigitsValueShowNat(n);
    assert '.' !in s;
    assert ("-" + s)[1..] == s;
  }

}
