/** The two totals views, and how their sums add up to the global count. */
module TrialLedgerTotals {
  import opened Options
  import opened TrialLedger
  import opened TrialLedgerSafety

  ghost function SumMap<K>(m: map<K, nat>): nat
    decreases |m|
  {
    if m == map[] then 0
    else
      var k :| k in m;
      assert |(m - {k}).Keys| < |m.Keys|;
      m[k] + SumMap(m - {k})
  }

  lemma {:induction false} SumMapAny<K>(m: map<K, nat>, k: K)
    requires k in m
    ensures SumMap(m) == m[k] + SumMap(m - {k})
    decreases |m|
  {
    var p :| p in m && SumMap(m) == m[p] + SumMap(m - {p});
    if p != k {
      assert |(m - {p}).Keys| < |m.Keys| && |(m - {k}).Keys| < |m.Keys|;
      SumMapAny(m - {p}, k);
      SumMapAny(m - {k}, p);
      assert m - {p} - {k} == m - {k} - {p};
    }
  }

  lemma SumMapUpdate<K>(m: map<K, nat>, k: K, v: nat)
    ensures SumMap(m[k := v]) == v + SumMap(m - {k})
  {
    SumMapAny(m[k := v], k);
    assert m[k := v] - {k} == m - {k};
  }

  /** `SELECT key, sum(trials_charged) ... WHERE key IS NOT NULL GROUP BY key`. */
  function Totals<K>(rows: seq<Row>, key: Row -> Option<K>): map<K, nat> {
    if rows == [] then map[]
    else
      var rest, last := Totals(rows[..|rows| - 1], key), rows[|rows| - 1];
      match key(last)
      case None => rest
      case Some(k) => rest[k := (if k in rest then rest[k] else 0) + last.charged]
  }

  function ChargesWhere(rows: seq<Row>, keeps: Row -> bool): nat {
    if rows == [] then 0
    else ChargesWhere(rows[..|rows| - 1], keeps) + if keeps(rows[|rows| - 1]) then rows[|rows| - 1].charged else 0
  }

  function HasKey<K>(key: Row -> Option<K>): Row -> bool {
    (r: Row) => key(r).Some?
  }

  function KeyIs<K(==)>(key: Row -> Option<K>, k: K): Row -> bool {
    (r: Row) => key(r) == Some(k)
  }

  /** Rows written before the context columns existed. */
  predicate Unattributed(r: Row) {
    r.attribution.None?
  }

  lemma {:induction false} TotalsAddUp<K>(rows: seq<Row>, key: Row -> Option<K>)
    ensures SumMap(Totals(rows, key)) == ChargesWhere(rows, HasKey(key))
    decreases |rows|
  {
    if rows != [] {
      var init, last := rows[..|rows| - 1], rows[|rows| - 1];
      TotalsAddUp(init, key);
      var rest := Totals(init, key);
      match key(last)
      case None =>
      case Some(k) =>
        SumMapUpdate(rest, k, (if k in rest then rest[k] else 0) + last.charged);
        if k in rest { SumMapAny(rest, k); } else { assert rest - {k} == rest; }
    }
  }

  lemma {:induction false} TotalOfKey<K>(rows: seq<Row>, key: Row -> Option<K>, k: K)
    ensures var totals := Totals(rows, key);
      (if k in totals then totals[k] else 0) == ChargesWhere(rows, KeyIs(key, k))
    decreases |rows|
  {
    if rows != [] {
      TotalOfKey(rows[..|rows| - 1], key, k);
    }
  }

  function ContextOf(row: Row): Option<string> {
    if row.attribution.None? then None else Some(row.attribution.value.searchContext)
  }

  function LineageOf(row: Row): Option<(string, string)> {
    if row.attribution.None? then None else Some((row.attribution.value.searchContext, row.attribution.value.lineage))
  }

  function LineageWithin(context: string): Row -> Option<(string, string)> {
    (row: Row) => if ContextOf(row) == Some(context) then LineageOf(row) else None
  }

  function ContextTotals(rows: seq<Row>): map<string, nat> {
    Totals(rows, ContextOf)
  }

  function LineageTotals(rows: seq<Row>): map<(string, string), nat> {
    Totals(rows, LineageOf)
  }

  /** The rows of the lineage view that belong to one search context. */
  function OfContext(totals: map<(string, string), nat>, context: string): map<(string, string), nat> {
    map p | p in totals && p.0 == context :: totals[p]
  }

  lemma {:induction false} LineagesOfContext(rows: seq<Row>, context: string)
    ensures OfContext(LineageTotals(rows), context) == Totals(rows, LineageWithin(context))
    decreases |rows|
  {
    if rows != [] {
      LineagesOfContext(rows[..|rows| - 1], context);
    }
  }

  lemma {:induction false} ChargesWhereEqual(rows: seq<Row>, a: Row -> bool, b: Row -> bool)
    requires forall r :: a(r) == b(r)
    ensures ChargesWhere(rows, a) == ChargesWhere(rows, b)
    decreases |rows|
  {
    if rows != [] {
      ChargesWhereEqual(rows[..|rows| - 1], a, b);
    }
  }

  lemma {:induction false} ChargesSplit(rows: seq<Row>)
    ensures ChargesWhere(rows, HasKey(ContextOf)) + ChargesWhere(rows, Unattributed) == Charges(rows)
    decreases |rows|
  {
    if rows != [] {
      var last := rows[|rows| - 1];
      ChargesSplit(rows[..|rows| - 1]);
      assert HasKey(ContextOf)(last) == ContextOf(last).Some? == !Unattributed(last);
    }
  }

  /** Lineage totals sum to their context's total. */
  lemma LineagesSumToContext(rows: seq<Row>, context: string)
    ensures var totals := ContextTotals(rows);
      SumMap(OfContext(LineageTotals(rows), context)) == if context in totals then totals[context] else 0
  {
    LineagesOfContext(rows, context);
    TotalsAddUp(rows, LineageWithin(context));
    TotalOfKey(rows, ContextOf, context);
    ChargesWhereEqual(rows, HasKey(LineageWithin(context)), KeyIs(ContextOf, context));
  }

  /** In every reachable ledger the context totals and the rows older than contexts add up to the
      global count if and only if the count the migration found was the sum of its charges; and in
      any case within each context the lineage totals add up to the context's. */
  lemma TotalsAddUpToGlobalCount(w: World, actions: seq<Action>, context: string)
    requires Initial(w) && Run(ByCumulative, w, actions).Some?
    ensures var before, rows := w.committed.rows, Run(ByCumulative, w, actions).value.committed.rows;
      && (SumMap(ContextTotals(rows)) + ChargesWhere(rows, Unattributed) == GlobalTrialCount(rows)
          <==> GlobalTrialCount(before) == Charges(before))
      && SumMap(OfContext(LineageTotals(rows), context)) == if context in ContextTotals(rows) then ContextTotals(rows)[context] else 0
  {
    NoChargeIsLost(w, actions);
    var rows := Run(ByCumulative, w, actions).value.committed.rows;
    TotalsAddUp(rows, ContextOf);
    ChargesSplit(rows);
    LineagesSumToContext(rows, context);
  }
}
