/** The canonical spelling itself: which characters, in which order, for which number. */
module DecimalText {
  import opened Decimals
  import opened Json
  import JsonText

  // ----- what rounding to a precision does to the value

  lemma {:induction false} ScaleUp(e: int, n: nat)
    ensures Scale(e + n) == Scale(e) * Pow10(n) as real
    decreases n
  {
    if n > 0 {
      ScaleUp(e, n - 1);
      ScaleStep(e + (n - 1));
      TimesTen(Scale(e), Pow10(n - 1) as real);
      assert Pow10(n) as real == 10.0 * Pow10(n - 1) as real;
    }
  }

  lemma TimesTen(scale: real, power: real)
    ensures scale * power * 10.0 == scale * (10.0 * power)
  {
  }

  lemma HalfScaled(x: real, c: real, unit: real, scale: real)
    requires scale > 0.0 && -unit <= 2.0 * (x - c) <= unit
    ensures -(unit * scale) <= 2.0 * (x * scale - c * scale) <= unit * scale
  {
    assert 2.0 * (x * scale - c * scale) == 2.0 * (x - c) * scale;
    assert (unit - 2.0 * (x - c)) * scale >= 0.0 && (unit + 2.0 * (x - c)) * scale >= 0.0;
  }

  lemma Grouped(k: real, unit: real, scale: real)
    ensures k * (scale * unit) == k * unit * scale && scale * unit == unit * scale
  {
  }

  /** `x` is within half a unit of `y`. */
  predicate Near(x: real, y: real, unit: real) {
    -unit <= 2.0 * (x - y) <= unit
  }

  lemma NearScaled(k: real, x: real, c: real, power: real, scale: real, unit: real, left: real, right: real)
    requires x == k * power && -power <= 2.0 * (x - c) <= power
    requires scale > 0.0 && unit == scale * power && left == k * unit && right == c * scale
    ensures Near(left, right, unit)
  {
    HalfScaled(x, c, power, scale);
    Grouped(k, power, scale);
  }

  lemma MagnitudeOf(negative: bool, c: nat, exponent: int, scale: real) returns (magnitude: real)
    requires scale == Scale(exponent)
    ensures magnitude == c as real * scale && Value(Finite(negative, c, exponent)) == Signed(negative, magnitude)
  {
    magnitude := c as real * scale;
  }

  lemma Units(exponent: int, drop: nat) returns (scale: real, unit: real)
    ensures scale == Scale(exponent) && unit == Scale(exponent + drop) && unit == scale * Pow10(drop) as real && scale > 0.0
  {
    ScaleUp(exponent, drop);
    ScalePositive(exponent);
    scale, unit := Scale(exponent), Scale(exponent + drop);
  }

  lemma NearBothWays(negative: bool, left: real, right: real, unit: real)
    requires Near(left, right, unit)
    ensures Near(Signed(negative, left), Signed(negative, right), unit)
  {
  }

  lemma ProductInReals(k: nat, power: nat, x: nat, c: nat)
    requires x == k * power && 2 * (x - c) <= power && 2 * (c - x) <= power
    ensures x as real == k as real * power as real
    ensures -(power as real) <= 2.0 * (x as real - c as real) <= power as real
  {
  }

  lemma MagnitudesNear(k: nat, x: nat, c: nat, power: nat, scale: real, unit: real, left: real, right: real)
    requires x == k * power && 2 * (x - c) <= power && 2 * (c - x) <= power
    requires scale > 0.0 && unit == scale * power as real && left == k as real * unit && right == c as real * scale
    ensures Near(left, right, unit)
  {
    ProductInReals(k, power, x, c);
    NearScaled(k as real, x as real, c as real, power as real, scale, unit, left, right);
  }

  lemma MultipleIsNear(negative: bool, k: nat, x: nat, c: nat, power: nat, exponent: int, coarser: int, scale: real, unit: real)
    requires x == k * power && 2 * (x - c) <= power && 2 * (c - x) <= power
    requires scale == Scale(exponent) && unit == Scale(coarser) && scale > 0.0 && unit == scale * power as real
    ensures Near(Value(Finite(negative, k, coarser)), Value(Finite(negative, c, exponent)), unit)
  {
    var left := MagnitudeOf(negative, k, coarser, unit);
    var right := MagnitudeOf(negative, c, exponent, scale);
    MagnitudesNear(k, x, c, power, scale, unit, left, right);
    NearBothWays(negative, left, right, unit);
  }

  lemma RoundedIsFinite(precision: nat, d: Decimal)
    requires d.Finite? && |Digits(d.coefficient)| > precision
    ensures var drop := |Digits(d.coefficient)| - precision;
      ToPrecision(precision, d) == Finite(d.negative, RoundedOff(d.coefficient, drop), d.exponent + drop)
  {
  }

  lemma NearestMultiple(c: nat, drop: nat) returns (k: nat, x: nat, power: nat)
    ensures k == RoundedOff(c, drop) && power == Pow10(drop) && x == k * power
    ensures 2 * (x - c) <= power && 2 * (c - x) <= power
  {
    RoundsToNearestEven(c, drop);
    k, power := RoundedOff(c, drop), Pow10(drop);
    x := k * power;
  }

  lemma NearOfMultiple(negative: bool, k: nat, x: nat, c: nat, power: nat, exponent: int, drop: nat)
    requires power == Pow10(drop) && x == k * power && 2 * (x - c) <= power && 2 * (c - x) <= power
    ensures Near(Value(Finite(negative, k, exponent + drop)), Value(Finite(negative, c, exponent)), Scale(exponent + drop))
  {
    var scale, unit := Units(exponent, drop);
    MultipleIsNear(negative, k, x, c, power, exponent, exponent + drop, scale, unit);
  }

  lemma DroppingIsNear(negative: bool, c: nat, exponent: int, drop: nat)
    ensures Near(Value(Finite(negative, RoundedOff(c, drop), exponent + drop)), Value(Finite(negative, c, exponent)), Scale(exponent + drop))
  {
    var k, x, power := NearestMultiple(c, drop);
    NearOfMultiple(negative, k, x, c, power, exponent, drop);
  }

  /** `c` lies exactly between two multiples of the power of ten dropped. */
  predicate IsTie(c: nat, drop: nat) {
    2 * Distance(RoundedOff(c, drop) * Pow10(drop), c) == Pow10(drop)
  }

  lemma TieIsEven(c: nat, drop: nat)
    ensures IsTie(c, drop) ==> RoundedOff(c, drop) % 2 == 0
  {
    RoundsToNearestEven(c, drop);
  }

  /** Rounding to a precision keeps what has no more digits than that. Of anything longer it drops
      the digits past it: the value that is left is a multiple of the unit of the last digit kept,
      of the same sign, half a unit away at most, and even if it is that far. */
  lemma RoundsToPrecision(precision: nat, d: Decimal)
    requires d.Finite?
    ensures |Digits(d.coefficient)| <= precision ==> ToPrecision(precision, d) == d
    ensures |Digits(d.coefficient)| > precision ==>
              var drop := |Digits(d.coefficient)| - precision;
              var r := ToPrecision(precision, d);
              && r == Finite(d.negative, r.coefficient, d.exponent + drop)
              && Near(Value(r), Value(d), Scale(d.exponent + drop))
              && (IsTie(d.coefficient, drop) ==> r.coefficient % 2 == 0)
  {
    if |Digits(d.coefficient)| > precision {
      var drop := |Digits(d.coefficient)| - precision;
      RoundedIsFinite(precision, d);
      DroppingIsNear(d.negative, d.coefficient, d.exponent, drop);
      TieIsEven(d.coefficient, drop);
      assert d == Finite(d.negative, d.coefficient, d.exponent);
    }
  }

  function Distance(x: int, y: int): nat {
    if x < y then y - x else x - y
  }

  // ----- the characters

  predicate AllDigits(s: string) {
    forall i :: 0 <= i < |s| ==> '0' <= s[i] <= '9'
  }

  /** A whole part with no zero in front of other digits, and a fraction with none behind them. */
  predicate WellSpelt(whole: string, fraction: string) {
    && AllDigits(whole) && AllDigits(fraction)
    && whole != "" && (|whole| > 1 ==> whole[0] != '0')
    && (fraction != "" ==> fraction[|fraction| - 1] != '0')
  }

  function Spelt(negative: bool, whole: string, fraction: string): string {
    (if negative then "-" else "") + (whole + if fraction == "" then "" else "." + fraction)
  }

  /** The number that digits before and after a point come to. */
  function Spelling(negative: bool, whole: string, fraction: string): real {
    Value(Finite(negative, Number(whole + fraction), -|fraction|))
  }

  lemma {:induction false} LastDigit(c: nat)
    ensures Digits(c)[|Digits(c)| - 1] == Digit(c % 10)
  {
  }

  lemma WholeIsSpelt(c: nat, n: nat)
    requires c > 0
    ensures WellSpelt(Digits(c) + Zeros(n), "")
  {
    JsonText.FirstIsNotZero(c);
  }

  lemma PowerIsScale(n: nat)
    ensures Scale(n) == Pow10(n) as real && Scale(0) == 1.0
  {
    ScaleUp(0, n);
  }

  lemma WholeValue(negative: bool, c: nat, n: nat, whole: nat)
    requires whole == c * Pow10(n)
    ensures Value(Finite(negative, c, n)) == Value(Finite(negative, whole, 0))
  {
    PowerIsScale(n);
    assert whole as real == c as real * Pow10(n) as real;
  }

  lemma WholeIsValue(negative: bool, c: nat, n: nat)
    requires c > 0
    ensures var whole := Digits(c) + Zeros(n);
      Number(whole + "") > 0 && Spelling(negative, whole, "") == Value(Finite(negative, c, n))
  {
    var whole := Digits(c) + Zeros(n);
    assert whole + "" == whole;
    ReadWhole(c, n);
    Pow10Positive(n);
    PositiveNats(c, Pow10(n));
    WholeValue(negative, c, n, Number(whole));
  }

  lemma SpellsWhole(d: Decimal) returns (whole: string)
    requires Normal(d) && d.coefficient > 0 && d.exponent >= 0
    ensures WellSpelt(whole, "") && Fixed(d) == Spelt(d.negative, whole, "") && Spelling(d.negative, whole, "") == Value(d)
    ensures Number(whole + "") > 0
  {
    whole := Digits(d.coefficient) + Zeros(d.exponent);
    WholeIsSpelt(d.coefficient, d.exponent);
    WholeIsValue(d.negative, d.coefficient, d.exponent);
    assert whole + "" == whole && "" + whole == whole;
  }

  lemma FractionIsSpelt(c: nat, places: nat)
    requires c > 0 && c % 10 != 0 && places > 0
    ensures var digits := Padded(c, places);
      var cut := |digits| - places;
      WellSpelt(digits[..cut], digits[cut..])
  {
    var digits := Padded(c, places);
    var cut := |digits| - places;
    PaddedIsDigits(c, places);
    LastDigit(c);
    JsonText.FirstIsNotZero(c);
    var whole, fraction := digits[..cut], digits[cut..];
    assert fraction[places - 1] == digits[|digits| - 1] == Digits(c)[|Digits(c)| - 1];
    if |Digits(c)| > places {
      assert whole[0] == Digits(c)[0];
    } else {
      assert |whole| == 1;
    }
    assert AllDigits(digits) ==> AllDigits(whole) && AllDigits(fraction);
  }

  lemma FractionIsValue(negative: bool, c: nat, places: nat)
    ensures var digits := Padded(c, places);
      var cut := |digits| - places;
      && Number(digits[..cut] + digits[cut..]) == c
      && Spelling(negative, digits[..cut], digits[cut..]) == Value(Finite(negative, c, 0 - places))
  {
    var digits := Padded(c, places);
    NumberOfPadded(c, places);
    var cut := |digits| - places;
    assert digits[..cut] + digits[cut..] == digits;
    assert |digits[cut..]| == places;
    assert Number(digits[..cut] + digits[cut..]) == c;
  }

  lemma JoinSign(negative: bool, whole: string, fraction: string)
    requires fraction != ""
    ensures Spelt(negative, whole, fraction) == if negative then "-" + (whole + "." + fraction) else whole + "." + fraction
  {
    assert whole + "." + fraction == whole + ("." + fraction);
    assert "" + (whole + ("." + fraction)) == whole + ("." + fraction);
  }

  lemma FractionIsText(negative: bool, c: nat, places: nat)
    requires places > 0
    ensures var digits := Padded(c, places);
      var cut := |digits| - places;
      Fixed(Finite(negative, c, 0 - places)) == Spelt(negative, digits[..cut], digits[cut..])
  {
    var digits := Padded(c, places);
    var cut := |digits| - places;
    JoinSign(negative, digits[..cut], digits[cut..]);
  }

  lemma SpellsFraction(negative: bool, c: nat, places: nat) returns (whole: string, fraction: string)
    requires c > 0 && c % 10 != 0 && places > 0
    ensures WellSpelt(whole, fraction) && Number(whole + fraction) > 0
    ensures Fixed(Finite(negative, c, 0 - places)) == Spelt(negative, whole, fraction)
    ensures Spelling(negative, whole, fraction) == Value(Finite(negative, c, 0 - places))
  {
    FractionIsSpelt(c, places);
    FractionIsValue(negative, c, places);
    FractionIsText(negative, c, places);
    var digits := Padded(c, places);
    var cut := |digits| - places;
    whole, fraction := digits[..cut], digits[cut..];
  }

  /** The canonical text of a number is its sign, its whole part and, if it is not whole, a point and
      its fraction, with no digit more than it takes; a zero has no sign. The number it spells is
      the decimal rounded to the precision. */
  lemma CanonicalIsSpelt(precision: nat, d: Decimal)
    requires d.Finite?
    ensures exists negative, whole, fraction ::
              && Canonical(precision, d) == Spelt(negative, whole, fraction)
              && WellSpelt(whole, fraction)
              && Spelling(negative, whole, fraction) == Value(ToPrecision(precision, d))
              && (negative ==> Number(whole + fraction) > 0)
  {
    var n := Stripped(ToPrecision(precision, d));
    StrippedIsNormal(ToPrecision(precision, d));
    if n.coefficient == 0 {
      ZeroIsSpelt(n);
      assert Canonical(precision, d) == Spelt(false, "0", "");
    } else if n.exponent >= 0 {
      var whole := SpellsWhole(n);
      assert whole + "" == whole;
      assert Canonical(precision, d) == Spelt(n.negative, whole, "");
    } else {
      var whole, fraction := SpellsFraction(n.negative, n.coefficient, 0 - n.exponent);
      assert n == Finite(n.negative, n.coefficient, n.exponent);
      assert Canonical(precision, d) == Spelt(n.negative, whole, fraction);
    }
  }

  lemma ZeroIsSpelt(n: Decimal)
    requires n.Finite? && n.coefficient == 0
    ensures WellSpelt("0", "") && Spelt(false, "0", "") == "0" && Spelling(false, "0", "") == Value(n)
  {
    assert "0"[..0] == "" && "0" + "" == "0";
    assert Number("0") == 0;
    assert 0.0 * Scale(n.exponent) == 0.0 && 0.0 * Scale(0) == 0.0;
  }
}
