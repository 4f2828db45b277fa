/** Point-in-time reads: the feature store and the alternative observations share one query over
    rows that say when they happened and when they became known. */
module PointInTime {

  type Instant = int

  /** `series` stands for the columns the query fixes. */
  datatype Observed = Observed(series: string, eventTimeUtc: Instant, availableAtUtc: Instant, value: real)

  /** The availability check: features may be known as they happen, alternative data only later. */
  datatype Lag = AtOnce | Later

  predicate Admissible(r: Observed, lag: Lag) {
    match lag
    case AtOnce => r.eventTimeUtc <= r.availableAtUtc
    case Later => r.eventTimeUtc < r.availableAtUtc
  }

  predicate SameKey(a: Observed, b: Observed) {
    a.series == b.series && a.eventTimeUtc == b.eventTimeUtc && a.availableAtUtc == b.availableAtUtc
  }

  /** What the table's check and primary key guarantee of its rows, in whatever order they lie. */
  ghost predicate Table(rows: seq<Observed>, lag: Lag) {
    && (forall i :: 0 <= i < |rows| ==> Admissible(rows[i], lag))
    && (forall i, j :: 0 <= i < j < |rows| ==> !SameKey(rows[i], rows[j]))
  }

  datatype Query = Query(series: string, asOf: Instant, lookback: int)

  predicate Selected(q: Query, r: Observed) {
    r.series == q.series && r.availableAtUtc <= q.asOf && r.eventTimeUtc > q.asOf - q.lookback
  }

  // ----- the query, clause by clause

  /** `WHERE`. */
  function Known(q: Query, rows: seq<Observed>): seq<Observed> {
    if rows == [] then []
    else Known(q, rows[..|rows| - 1]) + if Selected(q, rows[|rows| - 1]) then [rows[|rows| - 1]] else []
  }

  /** `ORDER BY event_time, available_at DESC`. */
  predicate Comes(a: Observed, b: Observed) {
    a.eventTimeUtc < b.eventTimeUtc || (a.eventTimeUtc == b.eventTimeUtc && a.availableAtUtc > b.availableAtUtc)
  }

  function Place(r: Observed, sorted: seq<Observed>): seq<Observed> {
    if sorted == [] || Comes(r, sorted[0]) then [r] + sorted else [sorted[0]] + Place(r, sorted[1..])
  }

  function Sorted(rows: seq<Observed>): seq<Observed> {
    if rows == [] then [] else Place(rows[|rows| - 1], Sorted(rows[..|rows| - 1]))
  }

  /** `DISTINCT ON (event_time)`: the first row of each run of one event time. */
  function Firsts(sorted: seq<Observed>): seq<Observed> {
    if sorted == [] then []
    else
      var n := |sorted| - 1;
      Firsts(sorted[..n]) + if n == 0 || sorted[n].eventTimeUtc != sorted[n - 1].eventTimeUtc then [sorted[n]] else []
  }

  /** The rows the read returns, in its order. */
  function AsOf(q: Query, rows: seq<Observed>): seq<Observed> {
    Firsts(Sorted(Known(q, rows)))
  }

  // ----- what each clause leaves

  ghost predicate DistinctRevisions(rows: seq<Observed>) {
    forall i, j :: 0 <= i < j < |rows| ==> rows[i].eventTimeUtc != rows[j].eventTimeUtc || rows[i].availableAtUtc != rows[j].availableAtUtc
  }

  lemma {:induction false} KnownHolds(q: Query, rows: seq<Observed>, lag: Lag)
    requires Table(rows, lag)
    ensures forall r :: r in Known(q, rows) <==> r in rows && Selected(q, r)
    ensures DistinctRevisions(Known(q, rows))
    decreases |rows|
  {
    if rows != [] {
      var n := |rows| - 1;
      var before := Known(q, rows[..n]);
      KnownHolds(q, rows[..n], lag);
      assert rows == rows[..n] + [rows[n]];
      forall i | 0 <= i < |before| && Selected(q, rows[n])
        ensures before[i].eventTimeUtc != rows[n].eventTimeUtc || before[i].availableAtUtc != rows[n].availableAtUtc
      {
        assert before[i] in before;
        var k :| 0 <= k < n && rows[k] == before[i];
        assert !SameKey(rows[k], rows[n]);
      }
    }
  }

  ghost predicate InOrder(rows: seq<Observed>) {
    forall i, j :: 0 <= i < j < |rows| ==> Comes(rows[i], rows[j])
  }

  lemma {:induction false} PlaceKeepsOrder(r: Observed, sorted: seq<Observed>)
    requires InOrder(sorted)
    requires forall x :: x in sorted ==> x.eventTimeUtc != r.eventTimeUtc || x.availableAtUtc != r.availableAtUtc
    ensures InOrder(Place(r, sorted)) && forall x :: x in Place(r, sorted) <==> x == r || x in sorted
    decreases |sorted|
  {
    if sorted != [] && !Comes(r, sorted[0]) {
      PlaceKeepsOrder(r, sorted[1..]);
      var placed := Place(r, sorted[1..]);
      assert sorted == [sorted[0]] + sorted[1..];
      forall j | 0 <= j < |placed| ensures Comes(sorted[0], placed[j]) {
        assert placed[j] in placed;
      }
    }
  }

  lemma {:induction false} SortedIsInOrder(rows: seq<Observed>)
    requires DistinctRevisions(rows)
    ensures InOrder(Sorted(rows)) && forall x :: x in Sorted(rows) <==> x in rows
    decreases |rows|
  {
    if rows != [] {
      var n := |rows| - 1;
      SortedIsInOrder(rows[..n]);
      assert rows == rows[..n] + [rows[n]];
      PlaceKeepsOrder(rows[n], Sorted(rows[..n]));
    }
  }

  ghost predicate NewestOfItsEvent(rows: seq<Observed>, r: Observed) {
    r in rows && forall x :: x in rows && x.eventTimeUtc == r.eventTimeUtc ==> x.availableAtUtc <= r.availableAtUtc
  }

  ghost predicate Ascends(rows: seq<Observed>) {
    forall i, j :: 0 <= i < j < |rows| ==> rows[i].eventTimeUtc < rows[j].eventTimeUtc
  }

  /** A row that follows one of its own event is an older revision: it changes no newest one. */
  lemma OlderChangesNothing(before: seq<Observed>, x: Observed, r: Observed)
    requires InOrder(before + [x]) && before != [] && x.eventTimeUtc == before[|before| - 1].eventTimeUtc
    ensures NewestOfItsEvent(before + [x], r) <==> NewestOfItsEvent(before, r)
  {
    var n := |before|;
    assert (before + [x])[n - 1] == before[n - 1] && (before + [x])[n] == x;
    assert before[n - 1] in before + [x] && before[n - 1] in before;
  }

  /** A row that starts another event comes after every event before it. */
  lemma NextEventIsLater(before: seq<Observed>, x: Observed)
    requires InOrder(before + [x]) && (before != [] ==> x.eventTimeUtc != before[|before| - 1].eventTimeUtc)
    ensures forall y :: y in before ==> y.eventTimeUtc < x.eventTimeUtc
  {
    var both, n := before + [x], |before|;
    forall y | y in before ensures y.eventTimeUtc < x.eventTimeUtc {
      var k :| 0 <= k < n && before[k] == y;
      assert both[k] == y && both[n - 1] == before[n - 1] && both[n] == x;
      assert Comes(both[n - 1], both[n]) && (k < n - 1 ==> Comes(both[k], both[n - 1]));
    }
  }

  lemma NextEventIsNewest(before: seq<Observed>, x: Observed, r: Observed)
    requires forall y :: y in before ==> y.eventTimeUtc < x.eventTimeUtc
    ensures NewestOfItsEvent(before + [x], r) <==> r == x || NewestOfItsEvent(before, r)
  {
    assert x in before + [x];
  }

  lemma {:induction false} FirstsAreNewest(sorted: seq<Observed>)
    requires InOrder(sorted)
    ensures Ascends(Firsts(sorted)) && forall r :: r in Firsts(sorted) <==> NewestOfItsEvent(sorted, r)
    decreases |sorted|
  {
    if sorted != [] {
      var n := |sorted| - 1;
      var before := sorted[..n];
      FirstsAreNewest(before);
      assert sorted == before + [sorted[n]];
      if n > 0 && sorted[n].eventTimeUtc == sorted[n - 1].eventTimeUtc {
        forall r ensures NewestOfItsEvent(sorted, r) <==> NewestOfItsEvent(before, r) {
          OlderChangesNothing(before, sorted[n], r);
        }
      } else {
        NextEventIsLater(before, sorted[n]);
        forall r ensures NewestOfItsEvent(sorted, r) <==> r == sorted[n] || NewestOfItsEvent(before, r) {
          NextEventIsNewest(before, sorted[n], r);
        }
        var firsts := Firsts(before);
        forall i | 0 <= i < |firsts| ensures firsts[i].eventTimeUtc < sorted[n].eventTimeUtc {
          assert firsts[i] in firsts;
        }
      }
    }
  }

  // ----- what the read promises

  /** A read returns exactly the rows of the series that were published by `asOf`, that instant
      included, and happened inside the lookback, its far end excluded, with no row of their event
      published later but by `asOf`: one per event time and in event order. It never returns an
      event after `asOf`, nor, where availability lags, one at `asOf`. */
  lemma ReadsLatestKnownRevision(series: string, asOf: Instant, lookback: int, rows: seq<Observed>, lag: Lag)
    requires Table(rows, lag)
    ensures var answer := AsOf(Query(series, asOf, lookback), rows);
      && (forall r :: r in answer <==>
           && r in rows
           && r.series == series
           && r.availableAtUtc <= asOf
           && r.eventTimeUtc > asOf - lookback
           && !exists s :: s in rows && s.series == series && s.eventTimeUtc == r.eventTimeUtc
                           && r.availableAtUtc < s.availableAtUtc <= asOf)
      && Ascends(answer)
      && forall r :: r in answer ==> r.eventTimeUtc <= asOf && (lag.Later? ==> r.eventTimeUtc < asOf)
  {
    var q := Query(series, asOf, lookback);
    KnownHolds(q, rows, lag);
    SortedIsInOrder(Known(q, rows));
    FirstsAreNewest(Sorted(Known(q, rows)));
    forall r | r in rows ensures Admissible(r, lag) {
      var k :| 0 <= k < |rows| && rows[k] == r;
    }
  }

  /** No event is missed: every event with a row published by `asOf`, inside the lookback, is
      answered by one row, at least as new. */
  lemma {:induction false} ReadsEveryKnownEvent(series: string, asOf: Instant, lookback: int, rows: seq<Observed>,
                                                lag: Lag, r: Observed)
    requires Table(rows, lag) && r in rows
    requires r.series == series && r.availableAtUtc <= asOf && r.eventTimeUtc > asOf - lookback
    ensures exists best :: best in AsOf(Query(series, asOf, lookback), rows)
                           && best.eventTimeUtc == r.eventTimeUtc && best.availableAtUtc >= r.availableAtUtc
    decreases asOf - r.availableAtUtc
  {
    ReadsLatestKnownRevision(series, asOf, lookback, rows, lag);
    if later :| later in rows && later.series == series && later.eventTimeUtc == r.eventTimeUtc
                && r.availableAtUtc < later.availableAtUtc <= asOf
    {
      ReadsEveryKnownEvent(series, asOf, lookback, rows, lag, later);
    } else {
      assert r in AsOf(Query(series, asOf, lookback), rows);
    }
  }

  lemma RestWithoutFirst(a: seq<Observed>)
    requires Ascends(a) && a != []
    ensures forall r :: r in a[1..] <==> r in a && r != a[0]
  {
    assert a == [a[0]] + a[1..];
  }

  lemma {:induction false} SameMembersSameList(a: seq<Observed>, b: seq<Observed>)
    requires Ascends(a) && Ascends(b) && forall r :: r in a <==> r in b
    ensures a == b
    decreases |a|
  {
    assert b != [] ==> b[0] in a;
    if a != [] {
      assert a[0] in b && b[0] in a;
      var i :| 0 <= i < |b| && b[i] == a[0];
      var j :| 0 <= j < |a| && a[j] == b[0];
      assert a[0] == b[0];
      RestWithoutFirst(a);
      RestWithoutFirst(b);
      SameMembersSameList(a[1..], b[1..]);
    }
  }

  /** The answer depends only on what was available by `asOf`: two tables that hold the same rows
      of the series up to then give the same read, whatever else they hold and however they lie. */
  lemma ReadsDoNotDependOnTheFuture(q: Query, rows: seq<Observed>, other: seq<Observed>, lag: Lag)
    requires Table(rows, lag) && Table(other, lag)
    requires forall r: Observed :: r.series == q.series && r.availableAtUtc <= q.asOf ==> (r in rows <==> r in other)
    ensures AsOf(q, rows) == AsOf(q, other)
  {
    ReadsLatestKnownRevision(q.series, q.asOf, q.lookback, rows, lag);
    ReadsLatestKnownRevision(q.series, q.asOf, q.lookback, other, lag);
    SameMembersSameList(AsOf(q, rows), AsOf(q, other));
  }

  /** Without its last row a table is still one, and no row of it has the key of that row. */
  lemma TableWithoutLast(rows: seq<Observed>, last: Observed, lag: Lag)
    requires Table(rows + [last], lag)
    ensures Table(rows, lag) && forall r :: r in rows ==> !SameKey(r, last)
  {
    var all := rows + [last];
    assert forall i :: 0 <= i < |rows| ==> all[i] == rows[i];
    forall r | r in rows ensures !SameKey(r, last) {
      var k :| 0 <= k < |rows| && rows[k] == r;
      assert all[k] == r && all[|rows|] == last;
    }
  }

  lemma InvisibleUntilPublished(q: Query, rows: seq<Observed>, lag: Lag, revision: Observed)
    requires Table(rows, lag) && Table(rows + [revision], lag) && revision.availableAtUtc > q.asOf
    ensures AsOf(q, rows + [revision]) == AsOf(q, rows)
  {
    forall r: Observed | r.series == q.series && r.availableAtUtc <= q.asOf ensures r in rows + [revision] <==> r in rows {
      assert r != revision;
    }
    ReadsDoNotDependOnTheFuture(q, rows + [revision], rows, lag);
  }

  /** A row no other has the key of: the newest of its event is newer than all others. */
  lemma NewestIsNewer(asOf: Instant, rows: seq<Observed>, revision: Observed)
    requires revision.availableAtUtc <= asOf && forall r :: r in rows ==> !SameKey(r, revision)
    ensures (!exists s :: s in rows + [revision] && s.series == revision.series && s.eventTimeUtc == revision.eventTimeUtc
                          && revision.availableAtUtc < s.availableAtUtc <= asOf) <==>
            forall r :: r in rows && r.series == revision.series && r.eventTimeUtc == revision.eventTimeUtc && r.availableAtUtc <= asOf ==>
                          r.availableAtUtc < revision.availableAtUtc
  {
    assert forall r :: r in rows + [revision] <==> r in rows || r == revision;
  }

  /** A revision published after `asOf` is invisible as of then. Once published, and while its event
      lies inside the lookback, it is what the read returns for its event exactly when no row of
      its event published by `asOf` is newer. */
  lemma RevisionTakesEffectWhenPublished(asOf: Instant, lookback: int, rows: seq<Observed>, lag: Lag, revision: Observed)
    requires Table(rows + [revision], lag)
    ensures var q := Query(revision.series, asOf, lookback);
      var revised := AsOf(q, rows + [revision]);
      && (revision.availableAtUtc > asOf ==> revised == AsOf(q, rows))
      && (revision in revised <==>
           && revision.availableAtUtc <= asOf && revision.eventTimeUtc > asOf - lookback
           && forall r :: r in rows && r.series == revision.series && r.eventTimeUtc == revision.eventTimeUtc && r.availableAtUtc <= asOf ==>
                            r.availableAtUtc < revision.availableAtUtc)
  {
    TableWithoutLast(rows, revision, lag);
    ReadsLatestKnownRevision(revision.series, asOf, lookback, rows + [revision], lag);
    if revision.availableAtUtc > asOf {
      InvisibleUntilPublished(Query(revision.series, asOf, lookback), rows, lag, revision);
    } else {
      NewestIsNewer(asOf, rows, revision);
      assert revision in rows + [revision];
    }
  }
}
