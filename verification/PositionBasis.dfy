/** Splitting a fill, and where the cost basis of an open position can lie. */
module PositionBasis {
  import opened Options
  import opened Positions

  /** Two fills that carry one execution between them. */
  predicate Splits(whole: Fill, a: Fill, b: Fill) {
    && whole.Valid() && a.Valid() && b.Valid() && a.fillId != b.fillId
    && a.instrument == b.instrument == whole.instrument
    && a.side == b.side == whole.side
    && a.eventTimeUtc == b.eventTimeUtc == whole.eventTimeUtc
    && a.quotePrice == b.quotePrice == whole.quotePrice
    && a.baseQuantity + b.baseQuantity == whole.baseQuantity
    && a.feeQuote + b.feeQuote == whole.feeQuote
  }

  /** The same economic state, whatever fills it was reached by. */
  predicate SameBooks(p: Position, q: Position) {
    && p.signedBaseQuantity == q.signedBaseQuantity
    && p.averageEntryQuotePrice == q.averageEntryQuotePrice
    && p.realisedPnlQuote == q.realisedPnlQuote
    && p.feeQuotePaid == q.feeQuotePaid
    && p.openedAtUtc == q.openedAtUtc
  }

  predicate Fresh(p: Position, f: Fill) {
    Accepts(p, f) && f.fillId !in p.appliedFillIds
  }

  predicate Opens(p: Position, f: Fill) {
    p.signedBaseQuantity == 0.0 || (p.signedBaseQuantity > 0.0) == f.side.Buy?
  }

  /** The size-weighted average of a held basis and an added price. */
  function Blend(size: real, average: real, added: real, price: real): real
    requires size >= 0.0 && added > 0.0
  {
    (size * average + added * price) / (size + added)
  }

  /** Blending twice is blending once. */
  lemma BlendTwice(size: real, average: real, a: real, b: real, price: real)
    requires size >= 0.0 && average >= 0.0 && a > 0.0 && b > 0.0 && price > 0.0
    ensures Blend(size + a, Blend(size, average, a, price), b, price) == Blend(size, average, a + b, price)
  {
    BlendedCost(size, average, a, price);
    assert (a + b) * price == a * price + b * price;
  }

  lemma BlendSamePrice(size: real, added: real, price: real)
    requires size >= 0.0 && added > 0.0
    ensures Blend(size, price, added, price) == price
  {
    assert size * price + added * price == (size + added) * price;
    var total := size + added;
    assert total * price / total == price;
  }

  lemma BlendFromFlat(average: real, added: real, price: real)
    requires added > 0.0
    ensures Blend(0.0, average, added, price) == price
  {
    assert 0.0 * average == 0.0;
    assert added * price / added == price;
  }

  lemma BlendOver(size: real, average: real, added: real, price: real, total: real, priorCost: real, addedCost: real)
    requires size >= 0.0 && added > 0.0 && total == size + added && priorCost == size * average && addedCost == added * price
    ensures Blend(size, average, added, price) == (priorCost + addedCost) / total
  {
  }

  lemma OpenedBasis(p: Position, f: Fill)
    requires Fresh(p, f) && Opens(p, f)
    ensures Opened(p, f).after.averageEntryQuotePrice ==
            Blend(Abs(p.signedBaseQuantity), p.averageEntryQuotePrice, f.baseQuantity, f.quotePrice)
  {
    var held, added := Abs(p.signedBaseQuantity), f.baseQuantity;
    var total := Abs(p.signedBaseQuantity + f.SignedBaseQuantity());
    BlendOver(held, p.averageEntryQuotePrice, added, f.quotePrice, total, held * p.averageEntryQuotePrice, added * f.quotePrice);
  }

  /** What opening or adding leaves. */
  lemma OpenedBooks(p: Position, f: Fill)
    requires Fresh(p, f) && Opens(p, f)
    ensures var r := Next(p, f);
      && r.Valid() && r.instrument == p.instrument && r.appliedFillIds == p.appliedFillIds + {f.fillId}
      && r.signedBaseQuantity == p.signedBaseQuantity + f.SignedBaseQuantity()
      && Abs(r.signedBaseQuantity) == Abs(p.signedBaseQuantity) + f.baseQuantity
      && r.averageEntryQuotePrice == Blend(Abs(p.signedBaseQuantity), p.averageEntryQuotePrice, f.baseQuantity, f.quotePrice)
      && r.realisedPnlQuote == p.realisedPnlQuote && r.feeQuotePaid == p.feeQuotePaid + f.feeQuote
      && r.openedAtUtc == (if p.openedAtUtc.Some? then p.openedAtUtc else Some(f.eventTimeUtc))
  {
    FillKeepsPositionLegal(p, f);
    OpenedBasis(p, f);
    assert WithFill(p, f) == Some(Opened(p, f));
  }

  lemma SplitOpening(p: Position, whole: Fill, a: Fill, b: Fill)
    requires Splits(whole, a, b) && Fresh(p, whole) && Fresh(p, a) && Fresh(p, b) && Opens(p, whole)
    ensures SameBooks(Next(Next(p, a), b), Next(p, whole))
  {
    OpenedBooks(p, whole);
    OpenedBooks(p, a);
    OpenedBooks(Next(p, a), b);
    BlendTwice(Abs(p.signedBaseQuantity), p.averageEntryQuotePrice, a.baseQuantity, b.baseQuantity, a.quotePrice);
  }

  lemma RealisedSplits(a: real, b: real, distance: real, sign: real)
    ensures a * distance * sign + b * distance * sign == (a + b) * distance * sign
  {
  }

  /** The first part closes and the second still closes, or closes and flips. */
  lemma SplitBeforeFlat(p: Position, whole: Fill, a: Fill, b: Fill)
    requires Splits(whole, a, b) && Fresh(p, whole) && Fresh(p, a) && Fresh(p, b) && !Opens(p, whole)
    requires a.baseQuantity < Abs(p.signedBaseQuantity)
    ensures SameBooks(Next(Next(p, a), b), Next(p, whole))
  {
    FillKeepsPositionLegal(p, a);
    var held := Abs(p.signedBaseQuantity);
    var rest := held - a.baseQuantity;
    var sign := if p.signedBaseQuantity > 0.0 then 1.0 else -1.0;
    var closing := if b.baseQuantity <= rest then b.baseQuantity else rest;
    RealisedSplits(a.baseQuantity, closing, a.quotePrice - p.averageEntryQuotePrice, sign);
  }

  /** The first part closes exactly, or flips; the second opens or adds at the same price. */
  lemma SplitAtOrAfterFlat(p: Position, whole: Fill, a: Fill, b: Fill)
    requires Splits(whole, a, b) && Fresh(p, whole) && Fresh(p, a) && Fresh(p, b) && !Opens(p, whole)
    requires a.baseQuantity >= Abs(p.signedBaseQuantity)
    ensures SameBooks(Next(Next(p, a), b), Next(p, whole))
  {
    FillKeepsPositionLegal(p, a);
    var after, beyond := Next(p, a), a.baseQuantity - Abs(p.signedBaseQuantity);
    assert Abs(after.signedBaseQuantity) == beyond && after.averageEntryQuotePrice == if beyond > 0.0 then a.quotePrice else 0.0;
    OpenedBooks(after, b);
    BlendSamePrice(beyond, b.baseQuantity, b.quotePrice);
    BlendFromFlat(0.0, b.baseQuantity, b.quotePrice);
  }

  /** Splitting a fill in two leaves the same books, whether the parts open, add, close partly or
      exactly, or flip: the same quantity, basis, realised PnL, fees and open time. */
  lemma SplittingAFillChangesNothing(p: Position, whole: Fill, a: Fill, b: Fill)
    requires Splits(whole, a, b) && Fresh(p, whole) && Fresh(p, a) && Fresh(p, b)
    ensures SameBooks(Next(Next(p, a), b), Next(p, whole))
  {
    if Opens(p, whole) {
      SplitOpening(p, whole, a, b);
    } else if a.baseQuantity < Abs(p.signedBaseQuantity) {
      SplitBeforeFlat(p, whole, a, b);
    } else {
      SplitAtOrAfterFlat(p, whole, a, b);
    }
  }

  // ----- the basis

  /** The prices at which the open position was opened and added to, since it last was flat or
      flipped. */
  function Openings(p: Position, prices: seq<real>, f: Fill): seq<real> {
    if !Fresh(p, f) then prices
    else
      var t := WithFill(p, f).value;
      if t.after.signedBaseQuantity == 0.0 then []
      else if t.openedBaseQuantity == 0.0 then prices
      else if t.crossedFlat || p.signedBaseQuantity == 0.0 then [f.quotePrice]
      else prices + [f.quotePrice]
  }

  ghost predicate Between(p: Position, prices: seq<real>) {
    && (p.signedBaseQuantity == 0.0 <==> prices == [])
    && (p.signedBaseQuantity != 0.0 ==>
          (exists i :: 0 <= i < |prices| && prices[i] <= p.averageEntryQuotePrice) &&
          (exists i :: 0 <= i < |prices| && p.averageEntryQuotePrice <= prices[i]))
  }

  lemma BlendBetween(size: real, average: real, added: real, price: real)
    requires size >= 0.0 && average >= 0.0 && added > 0.0 && price > 0.0
    ensures var blended := Blend(size, average, added, price);
      && (average <= price ==> average <= blended <= price)
      && (price <= average ==> price <= blended <= average)
  {
    BlendedCost(size, average, added, price);
    var blended, total := Blend(size, average, added, price), size + added;
    assert (blended - price) * total == size * (average - price);
    assert (blended - average) * total == added * (price - average);
    if average <= price {
      SignOfProduct(blended - price, total, size, average - price);
      SignOfProduct(average - blended, total, added, average - price);
    } else {
      SignOfProduct(price - blended, total, size, price - average);
      SignOfProduct(blended - average, total, added, price - average);
    }
  }

  lemma SignOfProduct(x: real, total: real, weight: real, y: real)
    requires total > 0.0 && weight >= 0.0 && y <= 0.0 && x * total == weight * y
    ensures x <= 0.0
  {
    assert weight * y <= 0.0;
    assert x > 0.0 ==> x * total > 0.0;
  }

  /** An average between the extremes stays between them when it moves toward a price put beside them. */
  lemma BetweenWithOneMore(prices: seq<real>, average: real, price: real, moved: real)
    requires exists i :: 0 <= i < |prices| && prices[i] <= average
    requires exists i :: 0 <= i < |prices| && average <= prices[i]
    requires average <= moved <= price || price <= moved <= average
    ensures var longer := prices + [price];
      && (exists i :: 0 <= i < |longer| && longer[i] <= moved)
      && (exists i :: 0 <= i < |longer| && moved <= longer[i])
  {
    var low :| 0 <= low < |prices| && prices[low] <= average;
    var high :| 0 <= high < |prices| && average <= prices[high];
    var longer := prices + [price];
    assert longer[low] == prices[low] && longer[high] == prices[high] && longer[|prices|] == price;
  }

  lemma OpeningKeepsBasisBetween(p: Position, prices: seq<real>, f: Fill)
    requires Fresh(p, f) && Between(p, prices) && Opens(p, f)
    ensures Between(Next(p, f), Openings(p, prices, f))
  {
    OpenedBooks(p, f);
    var size, average := Abs(p.signedBaseQuantity), p.averageEntryQuotePrice;
    var moved := Next(p, f).averageEntryQuotePrice;
    if p.signedBaseQuantity == 0.0 {
      BlendFromFlat(average, f.baseQuantity, f.quotePrice);
      assert [f.quotePrice][0] == moved;
    } else {
      BlendBetween(size, average, f.baseQuantity, f.quotePrice);
      BetweenWithOneMore(prices, average, f.quotePrice, moved);
    }
  }

  lemma FillKeepsBasisBetween(p: Position, prices: seq<real>, f: Fill)
    requires Accepts(p, f) && Between(p, prices)
    ensures Between(Next(p, f), Openings(p, prices, f))
  {
    if Fresh(p, f) {
      if Opens(p, f) {
        OpeningKeepsBasisBetween(p, prices, f);
      } else if f.baseQuantity > Abs(p.signedBaseQuantity) {
        assert [f.quotePrice][0] == Next(p, f).averageEntryQuotePrice;
      }
    }
  }

  function OpeningsOf(instrument: string, fills: seq<Fill>): seq<real> {
    if fills == [] then []
    else
      var n := |fills| - 1;
      Openings(Apply(instrument, fills[..n]), OpeningsOf(instrument, fills[..n]), fills[n])
  }

  /** After any list of fills an open position's basis lies between the least and the greatest
      price it was opened at since it was last flat or flipped, and a flat one has none. */
  lemma {:induction false} BasisLiesBetweenOpenings(instrument: string, fills: seq<Fill>)
    requires AllFor(instrument, fills)
    ensures Between(Apply(instrument, fills), OpeningsOf(instrument, fills))
    decreases |fills|
  {
    if fills != [] {
      var n := |fills| - 1;
      BasisLiesBetweenOpenings(instrument, fills[..n]);
      NextIsLawful();
      FoldIsLawful(Next, FlatPosition(instrument), fills[..n]);
      FillKeepsBasisBetween(Apply(instrument, fills[..n]), OpeningsOf(instrument, fills[..n]), fills[n]);
    }
  }
}
