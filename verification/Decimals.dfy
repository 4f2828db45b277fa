/** Finite decimals as sign, coefficient and exponent, and the one spelling of their value that a
    genome is identified by. */
module Decimals {
  import opened Json

  datatype Decimal = Finite(negative: bool, coefficient: nat, exponent: int) | NaN | Infinite(negative: bool)

  /** Significant digits of the context the platform installs at start. A context belongs to a
      thread, and one that has not been set up keeps the library's own precision, so every
      operation below takes the precision it runs under. */
  const PRECISION: nat := 38

  /** Significant digits of a context nobody has set up. */
  const LIBRARY_PRECISION: nat := 28

  function Pow10(n: nat): nat {
    if n == 0 then 1 else 10 * Pow10(n - 1)
  }

  function Scale(e: int): real
    decreases if e < 0 then -e else e
  {
    if e == 0 then 1.0 else if e > 0 then Scale(e - 1) * 10.0 else Scale(e + 1) / 10.0
  }

  function Signed(negative: bool, magnitude: real): real {
    if negative then -magnitude else magnitude
  }

  /** The number a finite decimal stands for. */
  function Value(d: Decimal): real
    requires d.Finite?
  {
    Signed(d.negative, d.coefficient as real * Scale(d.exponent))
  }

  // ----- normalisation

  /** What is left of a coefficient when its last `drop` digits go. */
  function Leading(c: nat, drop: nat): nat {
    if drop == 0 then c else Leading(c / 10, drop - 1)
  }

  /** The quotient or the next one, by what is left of the unit; the even one of two as near. */
  function HalfEven(q: nat, rest: int, unit: nat): nat {
    if 2 * rest > unit || (2 * rest == unit && q % 2 == 1) then q + 1 else q
  }

  /** Half-even rounding that drops `drop` digits. */
  function RoundedOff(c: nat, drop: nat): nat {
    HalfEven(Leading(c, drop), c - Leading(c, drop) * Pow10(drop), Pow10(drop))
  }

  lemma {:induction false} Pow10Positive(n: nat)
    ensures Pow10(n) > 0
  {
    if n > 0 { Pow10Positive(n - 1); }
  }

  lemma DigitDropped(c: nat, q: nat, unit: nat)
    requires q * unit <= c / 10 < (q + 1) * unit
    ensures q * (10 * unit) <= c < (q + 1) * (10 * unit)
  {
    assert q * (10 * unit) == 10 * (q * unit) && (q + 1) * (10 * unit) == 10 * ((q + 1) * unit);
  }

  /** The leading digits are the quotient by the power of ten dropped. */
  lemma {:induction false} LeadingIsQuotient(c: nat, drop: nat)
    ensures Leading(c, drop) * Pow10(drop) <= c < (Leading(c, drop) + 1) * Pow10(drop)
    decreases drop
  {
    if drop > 0 {
      LeadingIsQuotient(c / 10, drop - 1);
      DigitDropped(c, Leading(c / 10, drop - 1), Pow10(drop - 1));
    }
  }

  lemma HalfEvenIsNearest(c: nat, q: nat, unit: nat)
    requires q * unit <= c < (q + 1) * unit
    ensures var r := HalfEven(q, c - q * unit, unit);
      && 2 * (c - r * unit) <= unit && 2 * (r * unit - c) <= unit
      && (2 * (c - r * unit) == unit || 2 * (r * unit - c) == unit ==> r % 2 == 0)
  {
    assert (q + 1) * unit == q * unit + unit;
  }

  /** Rounding lands on the nearest multiple of the unit, the even one of two as near. */
  lemma RoundsToNearestEven(c: nat, drop: nat)
    ensures var r, unit := RoundedOff(c, drop), Pow10(drop);
      && 2 * (c - r * unit) <= unit && 2 * (r * unit - c) <= unit
      && (2 * (c - r * unit) == unit || 2 * (r * unit - c) == unit ==> r % 2 == 0)
  {
    LeadingIsQuotient(c, drop);
    HalfEvenIsNearest(c, Leading(c, drop), Pow10(drop));
  }

  /** Rounding to the context's precision, as every context operation does first. */
  function ToPrecision(precision: nat, d: Decimal): Decimal
    requires d.Finite?
  {
    var width := |Digits(d.coefficient)|;
    if width <= precision then d
    else d.(coefficient := RoundedOff(d.coefficient, width - precision), exponent := d.exponent + (width - precision))
  }

  function Stripped(d: Decimal): (r: Decimal)
    requires d.Finite?
    ensures r.Finite?
    decreases d.coefficient
  {
    if d.coefficient > 0 && d.coefficient % 10 == 0 then
      Stripped(d.(coefficient := d.coefficient / 10, exponent := d.exponent + 1))
    else d
  }

  // ----- fixed-point text

  function Zeros(n: nat): (s: string)
    ensures |s| == n && forall i :: 0 <= i < n ==> s[i] == '0'
  {
    if n == 0 then "" else Zeros(n - 1) + "0"
  }

  /** The digits of a coefficient, with zeros in front so that `places` of them can be a fraction. */
  function Padded(c: nat, places: nat): (s: string)
    ensures |s| > places
  {
    var digits := Digits(c);
    if |digits| > places then digits else Zeros(places + 1 - |digits|) + digits
  }

  /** `format(d, "f")`. */
  function Fixed(d: Decimal): string
    requires d.Finite?
  {
    if d.negative then "-" + Magnitude(d.coefficient, d.exponent) else Magnitude(d.coefficient, d.exponent)
  }

  function Magnitude(c: nat, exponent: int): string {
    if exponent >= 0 then Digits(c) + Zeros(exponent)
    else
      var digits := Padded(c, -exponent);
      digits[..|digits| + exponent] + "." + digits[|digits| + exponent..]
  }

  /** `_canonical_decimal`; the empty string is its refusal of a NaN or an infinity. */
  function Canonical(precision: nat, d: Decimal): string {
    if !d.Finite? then ""
    else
      var normalised := Stripped(ToPrecision(precision, d));
      if normalised.coefficient == 0 then "0" else Fixed(normalised)
  }

  // ----- the text spells the value

  lemma ShiftOne(x: nat, p: nat, y: nat)
    ensures (x * p + y) * 10 == x * (10 * p) + y * 10
  {
  }

  lemma {:induction false} NumberAppend(a: string, b: string)
    ensures Number(a + b) == Number(a) * Pow10(|b|) + Number(b)
    decreases |b|
  {
    if b == [] {
      assert a + b == a;
    } else {
      var n := |b| - 1;
      NumberAppend(a, b[..n]);
      assert (a + b)[..|a + b| - 1] == a + b[..n];
      ShiftOne(Number(a), Pow10(n), Number(b[..n]));
    }
  }

  lemma {:induction false} NumberOfZeros(n: nat)
    ensures Number(Zeros(n)) == 0
  {
    if n > 0 {
      NumberOfZeros(n - 1);
      assert Zeros(n)[..n - 1] == Zeros(n - 1);
    }
  }

  lemma LeadingZeros(n: nat, s: string)
    ensures Number(Zeros(n) + s) == Number(s)
  {
    NumberOfZeros(n);
    NumberAppend(Zeros(n), s);
    assert 0 * Pow10(|s|) == 0;
  }

  lemma NumberOfPadded(c: nat, places: nat)
    ensures Number(Padded(c, places)) == c
  {
    var digits := Digits(c);
    assert Number(Padded(c, places)) == Number(digits) by {
      if |digits| <= places { LeadingZeros(places + 1 - |digits|, digits); }
    }
    NumberOfDigits(c);
  }

  /** Reading fixed-point text back: its digits as a whole number, and how many follow the point. */
  datatype Reading = Reading(negative: bool, whole: nat, places: nat)

  function PlacesOf(s: string): nat {
    if s == [] || '.' !in s then 0 else if s[0] == '.' then |s| - 1 else PlacesOf(s[1..])
  }

  function WithoutPoint(s: string): string {
    if s == [] then [] else (if s[0] == '.' then [] else [s[0]]) + WithoutPoint(s[1..])
  }

  function Read(s: string): Reading {
    var negative := s != [] && s[0] == '-';
    var body := if negative then s[1..] else s;
    Reading(negative, Number(WithoutPoint(body)), PlacesOf(body))
  }

  lemma {:induction false} PointFree(s: string)
    requires forall i :: 0 <= i < |s| ==> IsDigit(s[i])
    ensures WithoutPoint(s) == s && PlacesOf(s) == 0
  {
    if s != [] {
      PointFree(s[1..]);
      assert s == [s[0]] + s[1..];
    }
  }

  lemma {:induction false} PointBetween(a: string, b: string)
    requires (forall i :: 0 <= i < |a| ==> IsDigit(a[i])) && (forall i :: 0 <= i < |b| ==> IsDigit(b[i]))
    ensures WithoutPoint(a + ("." + b)) == a + b && PlacesOf(a + ("." + b)) == |b|
    decreases a
  {
    var s := a + ("." + b);
    assert s[|a|] == '.';
    if a == [] {
      assert s == "." + b && s[1..] == b && a + b == b;
      PointFree(b);
    } else {
      PointBetween(a[1..], b);
      assert s[0] == a[0] && s[1..] == a[1..] + ("." + b);
      assert [a[0]] + (a[1..] + b) == a + b;
    }
  }

  lemma ReadWhole(c: nat, n: nat)
    ensures var body := Digits(c) + Zeros(n);
      WithoutPoint(body) == body && PlacesOf(body) == 0 && Number(body) == c * Pow10(n)
  {
    PointFree(Digits(c) + Zeros(n));
    NumberOfDigits(c);
    NumberOfZeros(n);
    NumberAppend(Digits(c), Zeros(n));
  }

  lemma ReadFraction(c: nat, places: nat)
    requires places > 0
    ensures var digits := Padded(c, places);
      var cut := |digits| - places;
      var body := digits[..cut] + "." + digits[cut..];
      IsDigit(body[0]) && Number(WithoutPoint(body)) == c && PlacesOf(body) == places
  {
    var digits := Padded(c, places);
    var cut := |digits| - places;
    PaddedIsDigits(c, places);
    PointBetween(digits[..cut], digits[cut..]);
    assert digits[..cut] + "." + digits[cut..] == digits[..cut] + ("." + digits[cut..]);
    assert digits[..cut] + digits[cut..] == digits;
    NumberOfPadded(c, places);
  }

  lemma PaddedIsDigits(c: nat, places: nat)
    ensures forall i :: 0 <= i < |Padded(c, places)| ==> IsDigit(Padded(c, places)[i])
  {
  }

  lemma ReadMagnitude(c: nat, exponent: int)
    ensures var body := Magnitude(c, exponent);
      && body != [] && IsDigit(body[0])
      && Number(WithoutPoint(body)) == (if exponent >= 0 then c * Pow10(exponent) else c)
      && PlacesOf(body) == if exponent >= 0 then 0 else -exponent
  {
    if exponent >= 0 {
      ReadWhole(c, exponent);
    } else {
      ReadFraction(c, -exponent);
    }
  }

  /** Reading the fixed-point text of a decimal recovers its sign, and its coefficient shifted by
      as many places as the text shows. */
  lemma ReadFixed(d: Decimal)
    requires d.Finite?
    ensures Read(Fixed(d)) == if d.exponent >= 0 then Reading(d.negative, d.coefficient * Pow10(d.exponent), 0)
                              else Reading(d.negative, d.coefficient, -d.exponent)
  {
    var body := Magnitude(d.coefficient, d.exponent);
    ReadMagnitude(d.coefficient, d.exponent);
    assert ("-" + body)[1..] == body;
  }

  // ----- normal forms

  predicate Normal(d: Decimal) {
    d.Finite? && (d.coefficient == 0 || d.coefficient % 10 != 0)
  }

  lemma RegroupTen(c: real, unit: real)
    ensures c * (unit * 10.0) == c * 10.0 * unit
  {
  }

  /** One zero fewer in the coefficient is one more in the exponent. */
  lemma OneZeroStripped(d: Decimal)
    requires d.Finite? && d.coefficient % 10 == 0
    ensures Value(d.(coefficient := d.coefficient / 10, exponent := d.exponent + 1)) == Value(d)
  {
    var c: nat := d.coefficient / 10;
    assert d.coefficient as real == c as real * 10.0;
    ScaleStep(d.exponent);
    RegroupTen(c as real, Scale(d.exponent));
  }

  lemma {:induction false} StrippedIsNormal(d: Decimal)
    requires d.Finite?
    ensures var r := Stripped(d);
      Normal(r) && Value(r) == Value(d) && r.negative == d.negative && (r.coefficient == 0 <==> d.coefficient == 0)
    decreases d.coefficient
  {
    if d.coefficient > 0 && d.coefficient % 10 == 0 {
      OneZeroStripped(d);
      StrippedIsNormal(d.(coefficient := d.coefficient / 10, exponent := d.exponent + 1));
    }
  }

  lemma ScaleStep(e: int)
    ensures Scale(e + 1) == Scale(e) * 10.0 && Scale(e) > 0.0
  {
    ScalePositive(e);
  }

  lemma {:induction false} ScalePositive(e: int)
    ensures Scale(e) > 0.0
    decreases if e < 0 then -e else e
  {
    if e > 0 { ScalePositive(e - 1); } else if e < 0 { ScalePositive(e + 1); }
  }

  lemma CancelUnit(x: real, y: real, unit: real)
    requires unit > 0.0 && x * unit == y * unit
    ensures x == y
  {
    assert (x - y) * unit == 0.0;
  }

  lemma SameSign(s: bool, x: real, t: bool, y: real)
    requires x > 0.0 && y > 0.0 && Signed(s, x) == Signed(t, y)
    ensures s == t && x == y
  {
  }

  lemma PositiveProduct(x: real, y: real)
    requires x > 0.0 && y > 0.0
    ensures x * y > 0.0
  {
  }

  lemma MagnitudesAgree(s: bool, c: real, t: bool, d: real, unit: real)
    requires c > 0.0 && d > 0.0 && unit > 0.0 && Signed(s, c * unit) == Signed(t, d * unit)
    ensures s == t && c == d
  {
    PositiveProduct(c, unit);
    PositiveProduct(d, unit);
    SameSign(s, c * unit, t, d * unit);
    CancelUnit(c, d, unit);
  }

  lemma SameExponentSameTriple(a: Decimal, b: Decimal)
    requires a.Finite? && b.Finite? && a.coefficient > 0 && b.coefficient > 0
    requires Value(a) == Value(b) && a.exponent == b.exponent
    ensures a == b
  {
    ScalePositive(a.exponent);
    MagnitudesAgree(a.negative, a.coefficient as real, b.negative, b.coefficient as real, Scale(a.exponent));
  }

  /** Of two decimals of one value the one with the finer exponent ends in a zero. */
  lemma {:induction false} FinerEndsInZero(a: Decimal, b: Decimal, n: nat)
    requires a.Finite? && b.Finite? && a.coefficient > 0 && b.coefficient > 0
    requires Value(a) == Value(b) && b.exponent == a.exponent + n && n > 0
    ensures a.coefficient % 10 == 0
    decreases n
  {
    var finer := b.(coefficient := 10 * b.coefficient, exponent := b.exponent - 1);
    assert finer.coefficient / 10 == b.coefficient && finer.coefficient % 10 == 0;
    assert finer.(coefficient := finer.coefficient / 10, exponent := finer.exponent + 1) == b;
    OneZeroStripped(finer);
    if n == 1 {
      SameExponentSameTriple(a, finer);
    } else {
      FinerEndsInZero(a, finer, n - 1);
    }
  }

  lemma ShiftedEndsInZero(c: nat, n: nat)
    requires n > 0
    ensures c * Pow10(n) % 10 == 0
  {
    assert c * Pow10(n) == 10 * (c * Pow10(n - 1));
  }

  /** Two nonzero normal decimals of equal value are the same triple. */
  lemma NormalFormUnique(a: Decimal, b: Decimal)
    requires Normal(a) && Normal(b) && a.coefficient > 0 && b.coefficient > 0 && Value(a) == Value(b)
    ensures a == b
  {
    if a.exponent == b.exponent {
      SameExponentSameTriple(a, b);
    } else if a.exponent < b.exponent {
      FinerEndsInZero(a, b, b.exponent - a.exponent);
    } else {
      FinerEndsInZero(b, a, a.exponent - b.exponent);
    }
  }

  // ----- the canonical spelling

  lemma WholesAlign(c: nat, e: nat, d: nat, n: nat)
    requires c * Pow10(e) == d * Pow10(e + n) && c % 10 != 0
    ensures n == 0 && c == d
  {
    PowSum(e, n);
    Pow10Positive(e);
    CancelShared(c, d, Pow10(n), Pow10(e));
    if n > 0 { ShiftedEndsInZero(d, n); }
  }

  lemma CancelShared(x: nat, y: nat, q: nat, p: nat)
    requires p > 0 && x * p == y * (q * p)
    ensures x == y * q
  {
    assert y * (q * p) == y * q * p;
    CancelPower(x, y * q, p);
  }

  /** The fixed-point text of a nonzero normal decimal determines it. */
  lemma FixedDeterminesValue(a: Decimal, b: Decimal)
    requires Normal(a) && Normal(b) && a.coefficient > 0 && b.coefficient > 0 && Fixed(a) == Fixed(b)
    ensures a == b
  {
    ReadFixed(a);
    ReadFixed(b);
    if a.exponent >= 0 && b.exponent >= 0 {
      if a.exponent <= b.exponent {
        WholesAlign(a.coefficient, a.exponent, b.coefficient, b.exponent - a.exponent);
      } else {
        WholesAlign(b.coefficient, b.exponent, a.coefficient, a.exponent - b.exponent);
      }
    }
  }

  lemma CancelPower(x: nat, y: nat, p: nat)
    requires p > 0 && x * p == y * p
    ensures x == y
  {
    assert (x - y) * p == 0;
  }

  lemma {:induction false} PowSum(m: nat, n: nat)
    ensures Pow10(m + n) == Pow10(n) * Pow10(m)
  {
    if n > 0 {
      PowSum(m, n - 1);
      assert 10 * (Pow10(n - 1) * Pow10(m)) == 10 * Pow10(n - 1) * Pow10(m);
    }
  }

  lemma PositiveNats(x: nat, y: nat)
    requires x > 0 && y > 0
    ensures x * y > 0
  {
  }

  lemma ReadsAsPositive(d: Decimal)
    requires d.Finite? && d.coefficient > 0
    ensures Read(Fixed(d)).whole > 0
  {
    ReadFixed(d);
    if d.exponent >= 0 {
      Pow10Positive(d.exponent);
      PositiveNats(d.coefficient, Pow10(d.exponent));
    }
  }

  lemma FixedIsNotZero(d: Decimal)
    requires d.Finite? && d.coefficient > 0
    ensures Fixed(d) != "0" && Fixed(d) != ""
  {
    ReadsAsPositive(d);
    assert Read("0").whole == 0 by {
      PointFree("0");
      NumberOfZeros(1);
      assert Zeros(1) == "0";
    }
    assert Read("").whole == 0;
  }

  lemma ProductZeroIff(x: real, unit: real)
    requires x >= 0.0 && unit > 0.0
    ensures x * unit == 0.0 <==> x == 0.0
  {
    if x > 0.0 { PositiveProduct(x, unit); }
  }

  lemma ZeroValue(d: Decimal)
    requires d.Finite?
    ensures Value(d) == 0.0 <==> d.coefficient == 0
  {
    ScalePositive(d.exponent);
    ProductZeroIff(d.coefficient as real, Scale(d.exponent));
  }

  /** Of two decimals without trailing zeros: spelt alike exactly when equal. */
  lemma NormalSpellingIff(x: Decimal, y: Decimal)
    requires Normal(x) && Normal(y)
    ensures (if x.coefficient == 0 then "0" else Fixed(x)) == (if y.coefficient == 0 then "0" else Fixed(y)) <==> Value(x) == Value(y)
  {
    ZeroValue(x);
    ZeroValue(y);
    if x.coefficient > 0 { FixedIsNotZero(x); }
    if y.coefficient > 0 { FixedIsNotZero(y); }
    if x.coefficient > 0 && y.coefficient > 0 {
      if Fixed(x) == Fixed(y) { FixedDeterminesValue(x, y); }
      if Value(x) == Value(y) { NormalFormUnique(x, y); }
    }
  }

  /** The canonical spelling is a spelling of the value rounded to the context's precision: two
      finite decimals, each under its own context, are spelt alike exactly when those values are
      equal. */
  lemma CanonicalIff(p: nat, a: Decimal, q: nat, b: Decimal)
    requires a.Finite? && b.Finite?
    ensures Canonical(p, a) == Canonical(q, b) <==> Value(ToPrecision(p, a)) == Value(ToPrecision(q, b))
    ensures Canonical(p, a) != ""
  {
    var x := Stripped(ToPrecision(p, a));
    StrippedIsNormal(ToPrecision(p, a));
    StrippedIsNormal(ToPrecision(q, b));
    NormalSpellingIff(x, Stripped(ToPrecision(q, b)));
    if x.coefficient > 0 { FixedIsNotZero(x); }
  }

  predicate WithinPrecision(precision: nat, d: Decimal) {
    d.Finite? && |Digits(d.coefficient)| <= precision
  }

  /** Within the contexts' precisions the spelling identifies the value, whatever the two contexts:
      `1.50`, `1.5` and `15E-1` are one threshold, `-0.0` is `0`, and no two different numbers
      share a spelling. */
  lemma CanonicalIdentifiesValue(p: nat, a: Decimal, q: nat, b: Decimal)
    requires WithinPrecision(p, a) && WithinPrecision(q, b)
    ensures Canonical(p, a) == Canonical(q, b) <==> Value(a) == Value(b)
  {
    CanonicalIff(p, a, q, b);
  }

  /** `n` has at least `width` digits and no more. */
  predicate HasWidth(n: nat, width: nat)
    requires width > 0
  {
    (width == 1 || Pow10(width - 1) <= n) && n < Pow10(width)
  }

  lemma {:induction false} DigitsWidth(n: nat, width: nat)
    requires width > 0 && HasWidth(n, width)
    ensures |Digits(n)| == width
    decreases width
  {
    assert Pow10(1) == 10;
    if width > 1 {
      Pow10Positive(width - 2);
      DigitsWidth(n / 10, width - 1);
    }
  }

  lemma DropsOneDigit(precision: nat, c: nat)
    requires c % 10 < 5 && |Digits(c)| == precision + 1
    ensures ToPrecision(precision, Finite(false, c, 0)) == Finite(false, c / 10, 1)
  {
    LastDigitRounds(c);
  }

  lemma LastDigitRounds(c: nat)
    requires c % 10 < 5
    ensures RoundedOff(c, 1) == c / 10
  {
    assert Leading(c, 1) == Leading(c / 10, 0) == c / 10;
    assert Pow10(1) == 10 * Pow10(0) == 10;
    assert c - c / 10 * 10 == c % 10;
  }

  lemma WholeValue(c: nat)
    ensures Value(Finite(false, c, 0)) == c as real
  {
  }

  /** `c` and `c + 1` are different numbers with one spelling. */
  ghost predicate WithNeighbourSpeltAlike(precision: nat, c: nat) {
    && Canonical(precision, Finite(false, c, 0)) == Canonical(precision, Finite(false, c + 1, 0))
    && Value(Finite(false, c, 0)) != Value(Finite(false, c + 1, 0))
  }

  lemma NeighboursMerge(precision: nat, c: nat)
    requires c % 10 == 0 && |Digits(c)| == precision + 1 && |Digits(c + 1)| == precision + 1
    ensures WithNeighbourSpeltAlike(precision, c)
  {
    DropsOneDigit(precision, c);
    DropsOneDigit(precision, c + 1);
    assert (c + 1) / 10 == c / 10;
    WholeValue(c);
    WholeValue(c + 1);
  }

  lemma WidthOfPowers(n: nat)
    requires n > 0
    ensures Pow10(n) % 10 == 0 && |Digits(Pow10(n))| == n + 1 && |Digits(Pow10(n) + 1)| == n + 1
  {
    Pow10Positive(n - 1);
    TensAreRound(Pow10(n - 1));
    assert HasWidth(Pow10(n), n + 1) && HasWidth(Pow10(n) + 1, n + 1);
    DigitsWidth(Pow10(n), n + 1);
    DigitsWidth(Pow10(n) + 1, n + 1);
  }

  lemma TensAreRound(k: nat)
    ensures 10 * k % 10 == 0
  {
  }

  /** Beyond the precision, whatever it is, the spelling does not identify the value: two numbers
      that differ only in the first digit past it are spelt alike. */
  lemma CanonicalMergesBeyondPrecision(precision: nat)
    requires precision > 0
    ensures exists c: nat :: WithNeighbourSpeltAlike(precision, c)
  {
    WidthOfPowers(precision);
    NeighboursMerge(precision, Pow10(precision));
  }

  lemma ValueOfTens(k: nat)
    ensures Value(Finite(false, k, 1)) == (10 * k) as real
  {
    assert Scale(1) == 10.0;
  }

  /** A number one digit wider than a context is spelt differently by a wider context: a thread that
      has been set up and one that has not disagree about it. */
  lemma ContextsDisagree(narrow: nat, wide: nat)
    requires 0 < narrow < wide
    ensures exists c: nat :: Canonical(narrow, Finite(false, c, 0)) != Canonical(wide, Finite(false, c, 0))
  {
    var c: nat := Pow10(narrow) + 1;
    WidthOfPowers(narrow);
    DropsOneDigit(narrow, c);
    ValueOfTens(c / 10);
    WholeValue(c);
    assert 10 * (c / 10) != c;
    CanonicalIff(narrow, Finite(false, c, 0), wide, Finite(false, c, 0));
  }

  /** So a thread the platform has not set up gives some number, and every genome that carries it,
      another spelling than the rest of the platform does. */
  lemma UnsetThreadsDisagree()
    ensures exists c: nat :: Canonical(LIBRARY_PRECISION, Finite(false, c, 0)) != Canonical(PRECISION, Finite(false, c, 0))
  {
    ContextsDisagree(LIBRARY_PRECISION, PRECISION);
  }
}
