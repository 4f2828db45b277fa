/** The lattice a venue accepts quantities and prices on. */
module Instruments {
  import opened Positions

  ghost predicate Multiple(x: real, step: real, k: int) {
    x == k as real * step
  }

  ghost predicate OnLattice(x: real, step: real) {
    exists k: int :: Multiple(x, step, k)
  }

  datatype Rounding = Down | Up

  /** `quantize(1)`: to a whole number, toward zero or away from it. */
  function Whole(x: real, rounding: Rounding): int {
    match rounding
    case Down => if x >= 0.0 then x.Floor else -((-x).Floor)
    case Up => if x >= 0.0 then -((-x).Floor) else x.Floor
  }

  /** Round onto the multiples of `step`. */
  function Snap(quantity: real, step: real, rounding: Rounding): real
    requires step > 0.0
  {
    Whole(quantity / step, rounding) as real * step
  }

  function QuantizeBaseQuantity(baseQuantity: real, lotStep: real): real
    requires lotStep > 0.0
  {
    Snap(baseQuantity, lotStep, Down)
  }

  function QuantizeQuotePrice(quotePrice: real, tickSize: real, side: Side): real
    requires tickSize > 0.0
  {
    Snap(quotePrice, tickSize, if side.Buy? then Down else Up)
  }

  lemma ProductPositive(x: real, y: real)
    requires x > 0.0 && y > 0.0
    ensures x * y > 0.0
  {
  }

  /** Of `a` and `b` steps, `p` and `q` in all, the gap is as many steps as the counts differ by. */
  lemma GapInSteps(a: real, b: real, extra: real, step: real, p: real, q: real)
    requires p == a * step && q == b * step
    ensures q + extra * step - p == (b + extra - a) * step
  {
  }

  lemma AtMostInSteps(a: real, b: real, step: real, p: real, q: real)
    requires step > 0.0 && p == a * step && q == b * step && a <= b
    ensures p <= q
  {
    var gap := b + 0.0 - a;
    GapInSteps(a, b, 0.0, step, p, q);
    if gap > 0.0 { ProductPositive(gap, step); }
  }

  lemma WithinOneInSteps(a: real, b: real, step: real, p: real, q: real)
    requires step > 0.0 && p == a * step && q == b * step && a < b + 1.0
    ensures p < q + step
  {
    var gap := b + 1.0 - a;
    assert q + step - p == gap * step by { GapInSteps(a, b, 1.0, step, p, q); }
    ProductPositive(gap, step);
  }

  lemma SameInSteps(a: real, b: real, step: real, p: real)
    requires step > 0.0 && p == a * step && p == b * step
    ensures a == b
  {
    var gap := b + 0.0 - a;
    GapInSteps(a, b, 0.0, step, p, p);
    if gap > 0.0 { ProductPositive(gap, step); }
    if gap < 0.0 { ProductPositive(-gap, step); }
  }

  /** Dividing by the step and multiplying by it again. */
  lemma InSteps(quantity: real, step: real)
    requires step > 0.0
    ensures quantity / step * step == quantity
    ensures quantity >= 0.0 ==> quantity / step >= 0.0
    ensures quantity <= 0.0 ==> quantity / step <= 0.0
  {
    var y := quantity / step;
    assert y * step == quantity;
    if y < 0.0 { ProductPositive(-y, step); }
    if y > 0.0 { ProductPositive(y, step); }
  }

  /** Rounding to a whole number moves by less than one, toward zero or away from it. */
  lemma WholeBounds(y: real, rounding: Rounding)
    ensures var n := Whole(y, rounding) as real;
      && (y >= 0.0 ==> n >= 0.0) && (y <= 0.0 ==> n <= 0.0)
      && (rounding.Down? && y >= 0.0 ==> n <= y < n + 1.0)
      && (rounding.Down? && y <= 0.0 ==> y <= n < y + 1.0)
      && (rounding.Up? && y >= 0.0 ==> y <= n < y + 1.0)
      && (rounding.Up? && y <= 0.0 ==> n <= y < n + 1.0)
  {
  }

  /** The same bounds in steps: `r` is `n` of them and `quantity` is `y`. */
  lemma BoundsInSteps(n: real, y: real, step: real, r: real, quantity: real)
    requires step > 0.0 && r == n * step && quantity == y * step
    ensures (n >= 0.0 ==> r >= 0.0) && (n <= 0.0 ==> r <= 0.0)
    ensures (n <= y ==> r <= quantity) && (y <= n ==> quantity <= r)
    ensures (y < n + 1.0 ==> quantity < r + step) && (n < y + 1.0 ==> r < quantity + step)
  {
    if n >= 0.0 { AtMostInSteps(0.0, n, step, 0.0, r); }
    if n <= 0.0 { AtMostInSteps(n, 0.0, step, r, 0.0); }
    if n <= y { AtMostInSteps(n, y, step, r, quantity); }
    if y <= n { AtMostInSteps(y, n, step, quantity, r); }
    if n < y + 1.0 { WithinOneInSteps(n, y, step, r, quantity); }
    if y < n + 1.0 { WithinOneInSteps(y, n, step, quantity, r); }
  }

  lemma SnapWithinOneStep(quantity: real, step: real, rounding: Rounding)
    requires step > 0.0
    ensures var r := Snap(quantity, step, rounding);
      && (quantity >= 0.0 ==> r >= 0.0) && (quantity <= 0.0 ==> r <= 0.0)
      && (rounding.Down? ==> Abs(r) <= Abs(quantity) < Abs(r) + step)
      && (rounding.Up? ==> Abs(quantity) <= Abs(r) < Abs(quantity) + step)
  {
    var y, r := quantity / step, Snap(quantity, step, rounding);
    var n := Whole(y, rounding) as real;
    InSteps(quantity, step);
    WholeBounds(y, rounding);
    BoundsInSteps(n, y, step, r, quantity);
  }

  lemma WholeOfWhole(k: int, rounding: Rounding)
    ensures Whole(k as real, rounding) == k
  {
  }

  lemma MultipleSnapsToItself(quantity: real, step: real, rounding: Rounding, k: int)
    requires step > 0.0 && Multiple(quantity, step, k)
    ensures Snap(quantity, step, rounding) == quantity
  {
    var y := quantity / step;
    InSteps(quantity, step);
    SameInSteps(y, k as real, step, quantity);
    WholeOfWhole(k, rounding);
  }

  /** Snapping lands on the lattice within one step, never changes sign, shrinks the magnitude
      when rounding down and grows it when rounding up, and fixes exactly the lattice points. */
  lemma SnapProperties(quantity: real, step: real, rounding: Rounding)
    requires step > 0.0
    ensures var r := Snap(quantity, step, rounding);
      && OnLattice(r, step)
      && (quantity >= 0.0 ==> r >= 0.0) && (quantity <= 0.0 ==> r <= 0.0)
      && (rounding.Down? ==> Abs(r) <= Abs(quantity) < Abs(r) + step)
      && (rounding.Up? ==> Abs(quantity) <= Abs(r) < Abs(quantity) + step)
      && (r == quantity <==> OnLattice(quantity, step))
  {
    SnapWithinOneStep(quantity, step, rounding);
    assert Multiple(Snap(quantity, step, rounding), step, Whole(quantity / step, rounding));
    if k: int :| Multiple(quantity, step, k) {
      MultipleSnapsToItself(quantity, step, rounding, k);
    }
  }

  /** A bid never rounds up and an ask never rounds down. */
  lemma PriceNeverReachesIntoTheBook(quotePrice: real, tickSize: real, side: Side)
    requires tickSize > 0.0 && quotePrice > 0.0
    ensures var r := QuantizeQuotePrice(quotePrice, tickSize, side);
      && OnLattice(r, tickSize)
      && (if side.Buy? then quotePrice - tickSize < r <= quotePrice else quotePrice <= r < quotePrice + tickSize)
  {
    SnapProperties(quotePrice, tickSize, if side.Buy? then Down else Up);
  }

  /** Snapping a quantity never makes the order larger, long or short: it keeps the side or goes flat,
      loses less than one step, and changes nothing that is already on the lattice. */
  lemma QuantityNeverGrows(baseQuantity: real, lotStep: real)
    requires lotStep > 0.0
    ensures var r := QuantizeBaseQuantity(baseQuantity, lotStep);
      && OnLattice(r, lotStep) && Abs(baseQuantity) - lotStep < Abs(r) <= Abs(baseQuantity)
      && (r > 0.0 ==> baseQuantity > 0.0) && (r < 0.0 ==> baseQuantity < 0.0)
      && QuantizeBaseQuantity(r, lotStep) == r
  {
    SnapProperties(baseQuantity, lotStep, Down);
    SnapProperties(QuantizeBaseQuantity(baseQuantity, lotStep), lotStep, Down);
  }

  lemma SumOnLattice(x: real, y: real, step: real)
    requires OnLattice(x, step) && OnLattice(y, step)
    ensures OnLattice(x + y, step) && OnLattice(-x, step)
  {
    var j: int :| Multiple(x, step, j);
    var k: int :| Multiple(y, step, k);
    assert (j + k) as real * step == j as real * step + k as real * step;
    assert Multiple(x + y, step, j + k);
    assert Multiple(-x, step, -j);
  }

  lemma LatticeHasNoDust(x: real, step: real)
    requires step > 0.0 && OnLattice(x, step) && x != 0.0
    ensures Abs(x) >= step
  {
    var k: int :| Multiple(x, step, k);
    if k >= 1 {
      assert (k as real - 1.0) * step >= 0.0;
    } else if k <= -1 {
      assert (-1.0 - k as real) * step >= 0.0;
    }
  }

  lemma {:induction false} TotalOnLattice(fills: seq<Fill>, step: real)
    requires forall i :: 0 <= i < |fills| ==> OnLattice(fills[i].baseQuantity, step)
    ensures OnLattice(Total(fills, SignedQuantity), step)
    decreases |fills|
  {
    if fills == [] {
      assert Multiple(0.0, step, 0);
    } else {
      var n := |fills| - 1;
      TotalOnLattice(fills[..n], step);
      var size := fills[n].baseQuantity;
      SumOnLattice(size, size, step);
      SumOnLattice(Total(fills[..n], SignedQuantity), SignedQuantity(fills[n]), step);
    }
  }

  lemma {:induction false} FirstAreDelivered(fills: seq<Fill>)
    ensures forall f :: f in FirstDeliveries(fills) ==> f in fills
    decreases |fills|
  {
    if fills != [] {
      FirstAreDelivered(fills[..|fills| - 1]);
    }
  }

  /** If every fill is on the lot lattice so is the position, however often fills are redelivered;
      so it is either exactly flat or at least one whole step. */
  lemma PositionHasNoDust(instrument: string, fills: seq<Fill>, lotStep: real)
    requires AllFor(instrument, fills) && lotStep > 0.0
    requires forall i :: 0 <= i < |fills| ==> OnLattice(fills[i].baseQuantity, lotStep)
    ensures var q := Quantity(Apply(instrument, fills));
      OnLattice(q, lotStep) && (q == 0.0 || Abs(q) >= lotStep)
  {
    var first := FirstDeliveries(fills);
    FirstAreDelivered(fills);
    forall i | 0 <= i < |first| ensures OnLattice(first[i].baseQuantity, lotStep) {
      assert first[i] in fills;
    }
    PositionIsTheSumOfItsFills(instrument, fills, 0.0);
    TotalOnLattice(first, lotStep);
    var q := Quantity(Apply(instrument, fills));
    if q != 0.0 { LatticeHasNoDust(q, lotStep); }
  }
}
