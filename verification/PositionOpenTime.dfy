/** Since when a position has been open, told from running quantities alone. */
module PositionOpenTime {
  import opened Events
  import opened Options
  import opened Positions

  /** The side of a signed quantity. */
  function SideOf(quantity: real): Direction {
    if quantity > 0.0 then Long else if quantity < 0.0 then Short else Flat
  }

  /** The signed quantity after the first `k` of a list of fills. */
  function Running(fills: seq<Fill>, k: nat): real
    requires k <= |fills|
  {
    Total(fills[..k], SignedQuantity)
  }

  /** Fill `k` takes the running quantity onto a side it was not on: from flat, or across. */
  predicate TakesSide(fills: seq<Fill>, k: nat)
    requires k < |fills|
  {
    SideOf(Running(fills, k + 1)) != Flat && SideOf(Running(fills, k + 1)) != SideOf(Running(fills, k))
  }

  /** Fill `k` is the last that took a side. */
  ghost predicate OpenSince(fills: seq<Fill>, k: nat) {
    k < |fills| && TakesSide(fills, k) && forall j :: k < j < |fills| ==> !TakesSide(fills, j)
  }

  lemma RunningOfPrefix(fills: seq<Fill>, n: nat, k: nat)
    requires k <= n <= |fills|
    ensures Running(fills[..n], k) == Running(fills, k)
  {
    assert fills[..n][..k] == fills[..k];
  }

  lemma OneMoreFill(fills: seq<Fill>, k: nat)
    requires fills != [] && OpenSince(fills[..|fills| - 1], k) && !TakesSide(fills, |fills| - 1)
    ensures OpenSince(fills, k)
  {
    var n := |fills| - 1;
    forall j | 0 <= j < n ensures TakesSide(fills, j) <==> TakesSide(fills[..n], j) {
      RunningOfPrefix(fills, n, j);
      RunningOfPrefix(fills, n, j + 1);
    }
  }

  /** The open time is the time of the last fill that took a side, and a flat position has none. */
  ghost predicate Tells(p: Position, fills: seq<Fill>) {
    if SideOf(Running(fills, |fills|)) == Flat then p.openedAtUtc.None?
    else exists k: nat :: OpenSince(fills, k) && p.openedAtUtc == Some(fills[k].eventTimeUtc)
  }

  lemma AppliedOneMore(instrument: string, fills: seq<Fill>)
    requires AllFor(instrument, fills) && DistinctIds(fills) && fills != []
    ensures var n := |fills| - 1;
      var p := Apply(instrument, fills[..n]);
      && p.Valid() && Accepts(p, fills[n]) && fills[n].fillId !in p.appliedFillIds
      && Apply(instrument, fills) == WithFill(p, fills[n]).value.after
      && p.signedBaseQuantity == Running(fills, n) && Apply(instrument, fills).signedBaseQuantity == Running(fills, |fills|)
  {
    var n := |fills| - 1;
    LastIsNew(instrument, fills);
    NextIsLawful();
    FoldIsLawful(Next, FlatPosition(instrument), fills[..n]);
    FoldSums(Next, Quantity, SignedQuantity, FlatPosition(instrument), fills[..n]);
    FoldSums(Next, Quantity, SignedQuantity, FlatPosition(instrument), fills);
    assert fills[..|fills|] == fills;
  }

  lemma {:induction false} DistinctFillsTell(instrument: string, fills: seq<Fill>)
    requires AllFor(instrument, fills) && DistinctIds(fills)
    ensures Tells(Apply(instrument, fills), fills)
    decreases |fills|
  {
    if fills == [] {
      assert Running(fills, 0) == 0.0;
    } else {
      var n := |fills| - 1;
      var p := Apply(instrument, fills[..n]);
      AppliedOneMore(instrument, fills);
      LastIsNew(instrument, fills);
      DistinctFillsTell(instrument, fills[..n]);
      RunningOfPrefix(fills, n, n);
      FillKeepsPositionLegal(p, fills[n]);
      if SideOf(Running(fills, n + 1)) != Flat {
        if TakesSide(fills, n) {
          assert OpenSince(fills, n);
        } else {
          var k: nat :| OpenSince(fills[..n], k) && p.openedAtUtc == Some(fills[..n][k].eventTimeUtc);
          OneMoreFill(fills, k);
        }
      }
    }
  }

  /** Over any fills, each delivered any number of times: an open position has been open since the
      fill at which its running quantity last left flat or changed sides, and a flat one carries
      no open time. */
  lemma OpenTimeIsLastTakingOfASide(instrument: string, fills: seq<Fill>)
    requires AllFor(instrument, fills)
    ensures var first := FirstDeliveries(fills);
      var since := Apply(instrument, fills).openedAtUtc;
      if Running(first, |first|) == 0.0 then since.None?
      else exists k: nat :: OpenSince(first, k) && since == Some(first[k].eventTimeUtc)
  {
    PositionIsTheSumOfItsFills(instrument, fills, 0.0);
    FirstDeliveriesAreDistinct(instrument, fills);
    DistinctFillsTell(instrument, FirstDeliveries(fills));
  }
}
