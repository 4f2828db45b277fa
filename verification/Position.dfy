/** Position arithmetic over exact numbers: opening, adding, closing, flipping through flat, and
    the at-least-once delivery of fills. */
module Positions {
  import opened Events
  import opened Options
  import opened Sequences

  datatype Side = Buy | Sell

  datatype Fill = Fill(fillId: nat, instrument: string, side: Side, eventTimeUtc: Instant,
                       quotePrice: real, baseQuantity: real, feeQuote: real) {
    predicate Valid() {
      quotePrice > 0.0 && baseQuantity > 0.0 && feeQuote >= 0.0
    }

    function SignedBaseQuantity(): real {
      if side.Buy? then baseQuantity else -baseQuantity
    }
  }

  datatype Direction = Long | Short | Flat

  datatype Position = Position(instrument: string, signedBaseQuantity: real, averageEntryQuotePrice: real,
                               realisedPnlQuote: real, feeQuotePaid: real, openedAtUtc: Option<Instant>,
                               appliedFillIds: set<nat>) {
    /** What the constructor enforces: flat is exactly zero and carries neither basis nor open time. */
    predicate Valid() {
      && averageEntryQuotePrice >= 0.0
      && feeQuotePaid >= 0.0
      && (if signedBaseQuantity == 0.0
          then averageEntryQuotePrice == 0.0 && openedAtUtc.None?
          else averageEntryQuotePrice > 0.0 && openedAtUtc.Some?)
    }

    function Direction(): Direction {
      if signedBaseQuantity > 0.0 then Long else if signedBaseQuantity < 0.0 then Short else Flat
    }

    function UnrealisedPnlQuote(markQuotePrice: real): real {
      signedBaseQuantity * (markQuotePrice - averageEntryQuotePrice)
    }

    /** Gross value made so far, with what is open valued at a mark. */
    function MarkedPnlQuote(markQuotePrice: real): real {
      realisedPnlQuote + UnrealisedPnlQuote(markQuotePrice)
    }
  }

  function FlatPosition(instrument: string): Position {
    Position(instrument, 0.0, 0.0, 0.0, 0.0, None, {})
  }

  datatype Transition = Transition(before: Position, after: Position, closedBaseQuantity: real,
                                   openedBaseQuantity: real, realisedPnlQuote: real, crossedFlat: bool) {
    predicate Valid() {
      && closedBaseQuantity >= 0.0 && openedBaseQuantity >= 0.0
      && before.instrument == after.instrument
      && (crossedFlat ==> closedBaseQuantity > 0.0 && openedBaseQuantity > 0.0)
    }
  }

  function Abs(x: real): real {
    if x >= 0.0 then x else -x
  }

  /** Apply a fill; `None` is the refusal of another instrument's fill, and a repeat changes nothing. */
  function WithFill(p: Position, f: Fill): Option<Transition>
    requires p.Valid() && f.Valid()
  {
    if f.instrument != p.instrument then None
    else if f.fillId in p.appliedFillIds then Some(Transition(p, p, 0.0, 0.0, 0.0, false))
    else if p.signedBaseQuantity == 0.0 || (p.signedBaseQuantity > 0.0) == (f.SignedBaseQuantity() > 0.0) then Some(Opened(p, f))
    else Some(Reduced(p, f))
  }

  function Opened(p: Position, f: Fill): Transition
    requires f.Valid() && (p.signedBaseQuantity == 0.0 || (p.signedBaseQuantity > 0.0) == (f.SignedBaseQuantity() > 0.0))
  {
    var afterQuantity := p.signedBaseQuantity + f.SignedBaseQuantity();
    var priorCost := Abs(p.signedBaseQuantity) * p.averageEntryQuotePrice;
    var addedCost := f.baseQuantity * f.quotePrice;
    var after := p.(
      signedBaseQuantity := afterQuantity,
      averageEntryQuotePrice := (priorCost + addedCost) / Abs(afterQuantity),
      feeQuotePaid := p.feeQuotePaid + f.feeQuote,
      openedAtUtc := if p.openedAtUtc.Some? then p.openedAtUtc else Some(f.eventTimeUtc),
      appliedFillIds := p.appliedFillIds + {f.fillId});
    Transition(p, after, 0.0, f.baseQuantity, 0.0, false)
  }

  function Reduced(p: Position, f: Fill): Transition {
    var held := Abs(p.signedBaseQuantity);
    var closed := if f.baseQuantity <= held then f.baseQuantity else held;
    var heldSign := if p.signedBaseQuantity > 0.0 then 1.0 else -1.0;
    var realised := closed * (f.quotePrice - p.averageEntryQuotePrice) * heldSign;
    var afterQuantity := p.signedBaseQuantity + f.SignedBaseQuantity();
    var overshoot := f.baseQuantity - closed;
    var crossed := overshoot > 0.0;
    var after := p.(
      signedBaseQuantity := afterQuantity,
      averageEntryQuotePrice := if crossed then f.quotePrice else if afterQuantity == 0.0 then 0.0 else p.averageEntryQuotePrice,
      realisedPnlQuote := p.realisedPnlQuote + realised,
      feeQuotePaid := p.feeQuotePaid + f.feeQuote,
      openedAtUtc := if crossed then Some(f.eventTimeUtc) else if afterQuantity == 0.0 then None else p.openedAtUtc,
      appliedFillIds := p.appliedFillIds + {f.fillId});
    Transition(p, after, closed, overshoot, realised, crossed)
  }

  // ----- one fill

  /** Blending conserves cost: the new basis times the new size is the two costs together. */
  lemma BlendedCost(size: real, average: real, added: real, price: real)
    requires size >= 0.0 && added > 0.0 && average >= 0.0 && price > 0.0
    ensures var blended := (size * average + added * price) / (size + added);
      blended * (size + added) == size * average + added * price && blended > 0.0
  {
    var cost := size * average + added * price;
    assert added * price > 0.0 && size * average >= 0.0;
  }

  /** What a fill that is not a repeat does: it moves the quantity by its signed size, splits its
      size into what it closed and what it opened, and flips exactly when it crosses to the other
      side, whose basis is then its price; a fill that leaves the side alone leaves the basis alone
      unless it opens, and the open time in any case, which a flip or an opening sets to the fill's
      and a close clears. */
  ghost predicate Transits(p: Position, f: Fill, t: Transition) {
    && t.closedBaseQuantity + t.openedBaseQuantity == f.baseQuantity
    && t.after.signedBaseQuantity == p.signedBaseQuantity + f.SignedBaseQuantity()
    && t.after.feeQuotePaid == p.feeQuotePaid + f.feeQuote
    && Abs(t.after.signedBaseQuantity) == Abs(p.signedBaseQuantity) - t.closedBaseQuantity + t.openedBaseQuantity
    && (t.crossedFlat <==> p.Direction() != Flat && t.after.Direction() != Flat && p.Direction() != t.after.Direction())
    && (t.closedBaseQuantity > 0.0 && p.Direction() == t.after.Direction() ==> t.after.averageEntryQuotePrice == p.averageEntryQuotePrice)
    && (t.crossedFlat ==> t.after.averageEntryQuotePrice == f.quotePrice)
    && t.after.openedAtUtc == (if t.after.Direction() == Flat then None
                               else if t.after.Direction() == p.Direction() then p.openedAtUtc
                               else Some(f.eventTimeUtc))
  }

  lemma OpenedIsLegal(p: Position, f: Fill)
    requires p.Valid() && f.Valid() && (p.signedBaseQuantity == 0.0 || (p.signedBaseQuantity > 0.0) == (f.SignedBaseQuantity() > 0.0))
    ensures var t := Opened(p, f);
      t.Valid() && t.after.Valid() && t.realisedPnlQuote == 0.0 && t.after.realisedPnlQuote == p.realisedPnlQuote && Transits(p, f, t)
  {
    BlendedCost(Abs(p.signedBaseQuantity), p.averageEntryQuotePrice, f.baseQuantity, f.quotePrice);
    assert Abs(p.signedBaseQuantity + f.SignedBaseQuantity()) == Abs(p.signedBaseQuantity) + f.baseQuantity;
  }

  lemma ReducedIsLegal(p: Position, f: Fill)
    requires p.Valid() && f.Valid() && p.signedBaseQuantity != 0.0 && (p.signedBaseQuantity > 0.0) != (f.SignedBaseQuantity() > 0.0)
    ensures var t := Reduced(p, f);
      t.Valid() && t.after.Valid() && t.after.realisedPnlQuote == p.realisedPnlQuote + t.realisedPnlQuote && Transits(p, f, t)
  {
  }

  /** Exactly a fill of another instrument is refused. Every other leaves a legal position; a repeat
      leaves the same one, and closes, opens and realises nothing. */
  lemma FillKeepsPositionLegal(p: Position, f: Fill)
    requires p.Valid() && f.Valid()
    ensures WithFill(p, f).Some? <==> f.instrument == p.instrument
    ensures WithFill(p, f).Some? ==>
      var t := WithFill(p, f).value;
      && t.Valid() && t.before == p && t.after.Valid()
      && t.after.appliedFillIds == p.appliedFillIds + {f.fillId}
      && t.after.realisedPnlQuote == p.realisedPnlQuote + t.realisedPnlQuote
      && (f.fillId in p.appliedFillIds ==> t == Transition(p, p, 0.0, 0.0, 0.0, false))
      && (f.fillId !in p.appliedFillIds ==> Transits(p, f, t))
  {
    if f.fillId in p.appliedFillIds {
      assert p.appliedFillIds + {f.fillId} == p.appliedFillIds;
    } else if p.signedBaseQuantity == 0.0 || (p.signedBaseQuantity > 0.0) == (f.SignedBaseQuantity() > 0.0) {
      OpenedIsLegal(p, f);
    } else {
      ReducedIsLegal(p, f);
    }
  }

  /** Whatever a fill does, it changes the marked value by exactly its own size times the distance
      from its price to the mark. */
  lemma FillMovesMarkedPnl(p: Position, f: Fill, mark: real)
    requires p.Valid() && f.Valid() && f.instrument == p.instrument && f.fillId !in p.appliedFillIds
    ensures WithFill(p, f).value.after.MarkedPnlQuote(mark) == p.MarkedPnlQuote(mark) + f.SignedBaseQuantity() * (mark - f.quotePrice)
  {
    var q, average, price, size := p.signedBaseQuantity, p.averageEntryQuotePrice, f.quotePrice, f.baseQuantity;
    var after := WithFill(p, f).value.after;
    var q', average' := after.signedBaseQuantity, after.averageEntryQuotePrice;
    assert q' * (mark - average') == q' * mark - q' * average';
    assert q * (mark - average) == q * mark - q * average;
    if q == 0.0 || (q > 0.0) == (f.SignedBaseQuantity() > 0.0) {
      BlendedCost(Abs(q), average, size, price);
      assert q' * average' == q * average + f.SignedBaseQuantity() * price;
    } else if size <= Abs(q) {
      assert q' * average' == q' * average;
    } else {
      assert q' * average' == q' * price;
    }
  }

  // ----- lists of fills, for any step function that obeys the laws of one fill

  /** The state a fill leaves; a fill the type refuses leaves it alone. */
  function Next(p: Position, f: Fill): Position {
    if p.Valid() && f.Valid() && f.instrument == p.instrument then WithFill(p, f).value.after else p
  }

  function Fold(step: (Position, Fill) -> Position, p: Position, fills: seq<Fill>): Position {
    if fills == [] then p else step(Fold(step, p, fills[..|fills| - 1]), fills[|fills| - 1])
  }

  /** The position after a list of fills. */
  function Apply(instrument: string, fills: seq<Fill>): Position {
    Fold(Next, FlatPosition(instrument), fills)
  }

  predicate AllFor(instrument: string, fills: seq<Fill>) {
    forall i :: 0 <= i < |fills| ==> fills[i].Valid() && fills[i].instrument == instrument
  }

  function Ids(fills: seq<Fill>): set<nat> {
    set f | f in fills :: f.fillId
  }

  predicate DistinctIds(fills: seq<Fill>) {
    forall i, j :: 0 <= i < j < |fills| ==> fills[i].fillId != fills[j].fillId
  }

  predicate Accepts(p: Position, f: Fill) {
    p.Valid() && f.Valid() && f.instrument == p.instrument
  }

  ghost predicate Lawful(step: (Position, Fill) -> Position) {
    forall p, f :: Accepts(p, f) ==>
      var after := step(p, f);
      && after.Valid() && after.instrument == p.instrument
      && after.appliedFillIds == p.appliedFillIds + {f.fillId}
      && (f.fillId in p.appliedFillIds ==> after == p)
  }

  /** Every fill that is not a repeat moves `measure` by its own `delta`, whatever it is applied to. */
  ghost predicate Moves(step: (Position, Fill) -> Position, measure: Position -> real, delta: Fill -> real) {
    forall p, f :: Accepts(p, f) && f.fillId !in p.appliedFillIds ==> measure(step(p, f)) == measure(p) + delta(f)
  }

  /** A sum of one number per fill. */
  function Total(fills: seq<Fill>, delta: Fill -> real): real {
    if fills == [] then 0.0 else Total(fills[..|fills| - 1], delta) + delta(fills[|fills| - 1])
  }

  lemma {:induction false} FoldIsLawful(step: (Position, Fill) -> Position, p: Position, fills: seq<Fill>)
    requires Lawful(step) && p.Valid() && AllFor(p.instrument, fills)
    ensures var r := Fold(step, p, fills);
      r.Valid() && r.instrument == p.instrument && r.appliedFillIds == p.appliedFillIds + Ids(fills)
    decreases |fills|
  {
    if fills != [] {
      var n := |fills| - 1;
      FoldIsLawful(step, p, fills[..n]);
      assert Accepts(Fold(step, p, fills[..n]), fills[n]);
      assert fills == fills[..n] + [fills[n]];
      assert Ids(fills) == Ids(fills[..n]) + {fills[n].fillId};
    }
  }

  lemma LastIsNew(instrument: string, fills: seq<Fill>)
    requires AllFor(instrument, fills) && DistinctIds(fills) && fills != []
    ensures var n := |fills| - 1;
      AllFor(instrument, fills[..n]) && DistinctIds(fills[..n]) && fills[n].fillId !in Ids(fills[..n])
  {
    var n := |fills| - 1;
    forall f | f in fills[..n] ensures f.fillId != fills[n].fillId {
      var i :| 0 <= i < n && fills[i] == f;
    }
  }

  lemma {:induction false} FoldSums(step: (Position, Fill) -> Position, measure: Position -> real, delta: Fill -> real, p: Position, fills: seq<Fill>)
    requires Lawful(step) && Moves(step, measure, delta)
    requires p.Valid() && AllFor(p.instrument, fills) && DistinctIds(fills) && p.appliedFillIds == {}
    ensures measure(Fold(step, p, fills)) == measure(p) + Total(fills, delta)
    decreases |fills|
  {
    if fills != [] {
      var n := |fills| - 1;
      LastIsNew(p.instrument, fills);
      FoldIsLawful(step, p, fills[..n]);
      FoldSums(step, measure, delta, p, fills[..n]);
      assert Accepts(Fold(step, p, fills[..n]), fills[n]);
    }
  }

  /** The fills with every later delivery of an id dropped. */
  function FirstDeliveries(fills: seq<Fill>): seq<Fill> {
    if fills == [] then []
    else
      var before := FirstDeliveries(fills[..|fills| - 1]);
      if fills[|fills| - 1].fillId in Ids(before) then before else before + [fills[|fills| - 1]]
  }

  lemma NewIdStaysDistinct(fills: seq<Fill>, f: Fill)
    requires DistinctIds(fills) && f.fillId !in Ids(fills)
    ensures DistinctIds(fills + [f])
  {
    forall i | 0 <= i < |fills| ensures fills[i].fillId != f.fillId {
      assert fills[i].fillId in Ids(fills);
    }
  }

  lemma {:induction false} FirstDeliveriesAreDistinct(instrument: string, fills: seq<Fill>)
    requires AllFor(instrument, fills)
    ensures DistinctIds(FirstDeliveries(fills)) && AllFor(instrument, FirstDeliveries(fills))
    decreases |fills|
  {
    if fills != [] {
      var n := |fills| - 1;
      FirstDeliveriesAreDistinct(instrument, fills[..n]);
      var before := FirstDeliveries(fills[..n]);
      if fills[n].fillId !in Ids(before) {
        NewIdStaysDistinct(before, fills[n]);
      }
    }
  }

  lemma {:induction false} FoldIgnoresRepeats(step: (Position, Fill) -> Position, p: Position, fills: seq<Fill>)
    requires Lawful(step) && p.Valid() && AllFor(p.instrument, fills) && p.appliedFillIds == {}
    ensures Fold(step, p, fills) == Fold(step, p, FirstDeliveries(fills))
    decreases |fills|
  {
    if fills != [] {
      var n := |fills| - 1;
      var before := FirstDeliveries(fills[..n]);
      FoldIgnoresRepeats(step, p, fills[..n]);
      FirstDeliveriesAreDistinct(p.instrument, fills[..n]);
      FoldIsLawful(step, p, before);
      assert Accepts(Fold(step, p, fills[..n]), fills[n]);
      if fills[n].fillId !in Ids(before) {
        assert (before + [fills[n]])[..|before|] == before;
      }
    }
  }

  lemma {:induction false} TotalWithout(fills: seq<Fill>, delta: Fill -> real, k: nat)
    requires k < |fills|
    ensures Total(fills, delta) == Total(Without(fills, k), delta) + delta(fills[k])
    decreases |fills|
  {
    var n := |fills| - 1;
    if k < n {
      TotalWithout(fills[..n], delta, k);
      assert Without(fills, k)[..n - 1] == Without(fills[..n], k);
    } else {
      assert Without(fills, k) == fills[..n];
    }
  }

  lemma {:induction false} TotalIgnoresOrder(a: seq<Fill>, b: seq<Fill>, delta: Fill -> real)
    requires multiset(a) == multiset(b)
    ensures Total(a, delta) == Total(b, delta)
    decreases |a|
  {
    if a == [] {
      assert |multiset(b)| == 0;
    } else {
      var n := |a| - 1;
      var k := Counterpart(a, n, b);
      assert Without(a, n) == a[..n];
      TotalIgnoresOrder(a[..n], Without(b, k), delta);
      TotalWithout(b, delta, k);
    }
  }

  // ----- lists of fills applied to a position

  function Quantity(p: Position): real {
    p.signedBaseQuantity
  }

  function FeePaid(p: Position): real {
    p.feeQuotePaid
  }

  function Marked(mark: real): Position -> real {
    (p: Position) => p.MarkedPnlQuote(mark)
  }

  function SignedQuantity(f: Fill): real {
    f.SignedBaseQuantity()
  }

  function FeeCharged(f: Fill): real {
    f.feeQuote
  }

  /** What a fill is worth at a mark: its signed size times the distance from its price. */
  function WorthAt(mark: real): Fill -> real {
    (f: Fill) => f.SignedBaseQuantity() * (mark - f.quotePrice)
  }

  lemma NextIsLawful()
    ensures Lawful(Next) && Moves(Next, Quantity, SignedQuantity) && Moves(Next, FeePaid, FeeCharged)
  {
    forall p, f | Accepts(p, f)
      ensures
        && Next(p, f).Valid() && Next(p, f).instrument == p.instrument
        && Next(p, f).appliedFillIds == p.appliedFillIds + {f.fillId}
        && (if f.fillId in p.appliedFillIds then Next(p, f) == p else
            && Quantity(Next(p, f)) == Quantity(p) + SignedQuantity(f)
            && FeePaid(Next(p, f)) == FeePaid(p) + FeeCharged(f))
    {
      FillKeepsPositionLegal(p, f);
    }
  }

  lemma OneFillMovesMarked(p: Position, f: Fill, mark: real) returns (before: real, worth: real, after: real)
    requires Accepts(p, f) && f.fillId !in p.appliedFillIds
    ensures before == Marked(mark)(p) && worth == WorthAt(mark)(f) && after == Marked(mark)(Next(p, f))
    ensures after == before + worth
  {
    FillMovesMarkedPnl(p, f, mark);
    before, worth := p.MarkedPnlQuote(mark), f.SignedBaseQuantity() * (mark - f.quotePrice);
    after := WithFill(p, f).value.after.MarkedPnlQuote(mark);
  }

  lemma NextMovesMarked(mark: real)
    ensures Moves(Next, Marked(mark), WorthAt(mark))
  {
    var measure, delta := Marked(mark), WorthAt(mark);
    forall p, f | Accepts(p, f) && f.fillId !in p.appliedFillIds ensures measure(Next(p, f)) == measure(p) + delta(f) {
      var before, worth, after := OneFillMovesMarked(p, f, mark);
    }
  }

  /** The position is the sum of its fills, each delivered any number of times: quantity, fees,
      and the value at any mark. Later deliveries of an id change nothing, whatever they carry. */
  lemma PositionIsTheSumOfItsFills(instrument: string, fills: seq<Fill>, mark: real)
    requires AllFor(instrument, fills)
    ensures var p, first := Apply(instrument, fills), FirstDeliveries(fills);
      && p.Valid() && p.appliedFillIds == Ids(first)
      && p == Apply(instrument, first)
      && Quantity(p) == Total(first, SignedQuantity)
      && FeePaid(p) == Total(first, FeeCharged)
      && Marked(mark)(p) == Total(first, WorthAt(mark))
  {
    var flat, first := FlatPosition(instrument), FirstDeliveries(fills);
    NextIsLawful();
    NextMovesMarked(mark);
    FirstDeliveriesAreDistinct(instrument, fills);
    FoldIgnoresRepeats(Next, flat, fills);
    FoldIsLawful(Next, flat, first);
    FoldSums(Next, Quantity, SignedQuantity, flat, first);
    FoldSums(Next, FeePaid, FeeCharged, flat, first);
    FoldSums(Next, Marked(mark), WorthAt(mark), flat, first);
    assert Marked(mark)(flat) == 0.0;
  }

  lemma {:induction false} DistinctAreFirst(fills: seq<Fill>)
    requires DistinctIds(fills)
    ensures FirstDeliveries(fills) == fills
    decreases |fills|
  {
    if fills != [] {
      var n := |fills| - 1;
      DistinctAreFirst(fills[..n]);
      forall f | f in fills[..n] ensures f.fillId != fills[n].fillId {}
    }
  }

  /** Reordering fills changes neither the quantity, nor the fees, nor the value at any mark. */
  lemma OrderDoesNotMatter(instrument: string, a: seq<Fill>, b: seq<Fill>, mark: real)
    requires AllFor(instrument, a) && DistinctIds(a) && AllFor(instrument, b) && DistinctIds(b) && multiset(a) == multiset(b)
    ensures var p, q := Apply(instrument, a), Apply(instrument, b);
      Quantity(p) == Quantity(q) && FeePaid(p) == FeePaid(q) && Marked(mark)(p) == Marked(mark)(q)
  {
    PositionIsTheSumOfItsFills(instrument, a, mark);
    PositionIsTheSumOfItsFills(instrument, b, mark);
    DistinctAreFirst(a);
    DistinctAreFirst(b);
    TotalIgnoresOrder(a, b, SignedQuantity);
    TotalIgnoresOrder(a, b, FeeCharged);
    TotalIgnoresOrder(a, b, WorthAt(mark));
  }

  lemma SameMarkedSameRealisedIff(p: Position, q: Position)
    requires Quantity(p) == Quantity(q) && Marked(0.0)(p) == Marked(0.0)(q)
    ensures p.realisedPnlQuote == q.realisedPnlQuote <==> Quantity(p) == 0.0 || p.averageEntryQuotePrice == q.averageEntryQuotePrice
  {
    var size := Quantity(p);
    assert size * (p.averageEntryQuotePrice - q.averageEntryQuotePrice) == p.realisedPnlQuote - q.realisedPnlQuote;
  }

  /** Realised PnL on its own does depend on the order: two orders agree on it exactly when they
      end flat or at the same basis. */
  lemma RealisedAgreesIff(instrument: string, a: seq<Fill>, b: seq<Fill>)
    requires AllFor(instrument, a) && DistinctIds(a) && AllFor(instrument, b) && DistinctIds(b) && multiset(a) == multiset(b)
    ensures var p, q := Apply(instrument, a), Apply(instrument, b);
      p.realisedPnlQuote == q.realisedPnlQuote <==> Quantity(p) == 0.0 || p.averageEntryQuotePrice == q.averageEntryQuotePrice
  {
    OrderDoesNotMatter(instrument, a, b, 0.0);
    SameMarkedSameRealisedIff(Apply(instrument, a), Apply(instrument, b));
  }

  /** Buying one, selling it and buying another realises the difference of the first two prices. */
  lemma RealisedByRoundTrip(first: Fill, sale: Fill, second: Fill)
    requires first.side.Buy? && second.side.Buy? && sale.side.Sell?
    requires first.baseQuantity == second.baseQuantity == sale.baseQuantity == 1.0
    requires AllFor("x", [first, sale, second]) && DistinctIds([first, sale, second])
    ensures Apply("x", [first, sale, second]).realisedPnlQuote == sale.quotePrice - first.quotePrice
  {
    var fills := [first, sale, second];
    assert first == fills[0] && sale == fills[1] && second == fills[2];
    assert fills[..2] == [first, sale] && [first, sale][..1] == [first] && [first][..0] == [];
    var bought := Next(FlatPosition("x"), first);
    assert bought.averageEntryQuotePrice == first.quotePrice && bought.signedBaseQuantity == 1.0;
    var closed := Next(bought, sale);
    assert closed.signedBaseQuantity == 0.0 && closed.realisedPnlQuote == sale.quotePrice - first.quotePrice;
    assert Fold(Next, FlatPosition("x"), [first][..0]) == FlatPosition("x");
    assert Apply("x", [first]) == bought;
    assert Apply("x", [first, sale]) == closed;
    assert Next(closed, second).realisedPnlQuote == closed.realisedPnlQuote;
  }

  /** Three fills, two orders: one realises a profit of ten, the other a loss of ten. */
  lemma RealisedDependsOnOrder()
    ensures exists a: seq<Fill>, b: seq<Fill> :: AllFor("x", a) && DistinctIds(a) && AllFor("x", b) && DistinctIds(b) && multiset(a) == multiset(b) &&
              Apply("x", a).realisedPnlQuote != Apply("x", b).realisedPnlQuote
  {
    var low, sale, high := Fill(1, "x", Buy, 0, 10.0, 1.0, 0.0), Fill(2, "x", Sell, 0, 20.0, 1.0, 0.0), Fill(3, "x", Buy, 0, 30.0, 1.0, 0.0);
    var a: seq<Fill>, b: seq<Fill> := [low, sale, high], [high, sale, low];
    assert Apply("x", a).realisedPnlQuote == 10.0 by { RealisedByRoundTrip(low, sale, high); }
    assert Apply("x", b).realisedPnlQuote == -10.0 by { RealisedByRoundTrip(high, sale, low); }
    SameThree(low, sale, high);
  }

  lemma SameThree(x: Fill, y: Fill, z: Fill)
    ensures multiset([x, y, z]) == multiset([z, y, x])
  {
    assert multiset([x, y, z]) == multiset{x, y, z};
    assert multiset([z, y, x]) == multiset{x, y, z};
  }
}
