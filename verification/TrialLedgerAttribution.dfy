/** Where a charge lands: every row and every execution is what some writer asked for, a surplus
    trial is charged to the search its specification was registered in, and each search and each
    lineage has been charged exactly what its registered specifications owe. */
module TrialLedgerAttribution {
  import opened Options
  import opened TrialLedger
  import opened TrialLedgerSafety
  import opened TrialLedgerTotals

  // ----- properties every statement keeps

  /** The property holds of what is committed, and of what the holder of the lock sees. */
  ghost predicate Everywhere(property: Store -> bool, w: World) {
    property(w.committed) && (w.lock.Some? ==> w.lock.value in w.txs && property(View(w, w.lock.value)))
  }

  /** Every statement in progress is one of those allowed. */
  ghost predicate Admits(allowed: Statement -> bool, w: World) {
    forall t :: t in w.txs && w.txs[t].open.Some? ==> allowed(w.txs[t].open.value.0)
  }

  ghost predicate Keeps(rule: TailRule, property: Store -> bool, allowed: Statement -> bool) {
    forall view, statement, seqNo, overflowSeq ::
      Good(view) && property(view) && allowed(statement) && Inserted(rule, view, statement, seqNo, overflowSeq).Some? ==>
        property(view.Plus(Inserted(rule, view, statement, seqNo, overflowSeq).value))
  }

  lemma NextKeepsEverywhere(rule: TailRule, property: Store -> bool, allowed: Statement -> bool, w: World, a: Action)
    requires Inv(w) && Everywhere(property, w) && Admits(allowed, w) && Keeps(rule, property, allowed)
    requires Next(rule, w, a).Some? && (a.Enter? ==> allowed(a.statement))
    ensures Everywhere(property, Next(rule, w, a).value) && Admits(allowed, Next(rule, w, a).value)
  {
    var after := Next(rule, w, a).value;
    assert w.committed.Plus(NOTHING) == w.committed;
    if a.Write? && a.t in after.txs {
      var view, tx := View(w, a.t), w.txs[a.t];
      var added := Inserted(rule, view, tx.open.value.0, tx.open.value.1, w.nextSeq).value;
      assert View(after, a.t) == view.Plus(added);
    } else if after.lock.Some? && after.lock == w.lock {
      assert View(after, after.lock.value) == View(w, w.lock.value);
    } else if after.lock.Some? {
      assert View(after, after.lock.value) == w.committed.Plus(NOTHING);
    }
  }

  ghost predicate OnlyEnters(allowed: Statement -> bool, actions: seq<Action>) {
    forall k :: 0 <= k < |actions| && actions[k].Enter? ==> allowed(actions[k].statement)
  }

  lemma {:induction false} EveryInterleavingKeeps(rule: TailRule, property: Store -> bool, allowed: Statement -> bool, w: World, actions: seq<Action>)
    requires Initial(w) && property(w.committed) && Keeps(rule, property, allowed)
    requires OnlyEnters(allowed, actions) && Run(rule, w, actions).Some?
    ensures var after := Run(rule, w, actions).value;
      Inv(after) && Everywhere(property, after) && Admits(allowed, after)
    decreases |actions|
  {
    EveryInterleavingAccounts(rule, w, actions);
    if actions != [] {
      var n := |actions| - 1;
      EveryInterleavingKeeps(rule, property, allowed, w, actions[..n]);
      NextKeepsEverywhere(rule, property, allowed, Run(rule, w, actions[..n]).value, actions[n]);
    }
  }

  // ----- what was asked for

  /** The row is the registration the statement asks for, or a surplus trial of its execution. */
  predicate MakesRow(statement: Statement, r: Row) {
    match statement
    case Register(spec, content, charged, context) =>
      && context.Some? && r.spec == spec && r.content == content && r.charged == charged
      && r.attribution == Some(Attribution(context.value.0, context.value.1, Registration))
    case Execute(spec, detail, outcome) =>
      outcome.Some? && r.spec == spec && r.content == detail && r.charged == 1 && IsOverflow(r)
  }

  predicate MakesExecution(statement: Statement, e: Execution) {
    statement.Execute? && statement.executedSpec == e.spec && statement.outcome == Some(e.outcome)
  }

  ghost predicate RowAskedFor(allowed: Statement -> bool, r: Row) {
    exists statement :: allowed(statement) && MakesRow(statement, r)
  }

  ghost predicate ExecutionAskedFor(allowed: Statement -> bool, e: Execution) {
    exists statement :: allowed(statement) && MakesExecution(statement, e)
  }

  ghost function AskedFor(history: seq<Row>, allowed: Statement -> bool): Store -> bool {
    (store: Store) =>
      && (forall r :: r in store.rows ==> r in history || RowAskedFor(allowed, r))
      && (forall e :: e in store.executions ==> ExecutionAskedFor(allowed, e))
  }

  lemma StatementsAskForWhatTheyAdd(rule: TailRule, view: Store, statement: Statement, seqNo: nat, overflowSeq: nat)
    requires Inserted(rule, view, statement, seqNo, overflowSeq).Some?
    ensures var added := Inserted(rule, view, statement, seqNo, overflowSeq).value;
      && (forall r :: r in added.rows ==> MakesRow(statement, r))
      && (forall e :: e in added.executions ==> MakesExecution(statement, e))
  {
  }

  lemma AskedForIsKept(rule: TailRule, history: seq<Row>, allowed: Statement -> bool)
    ensures Keeps(rule, AskedFor(history, allowed), allowed)
  {
    forall view, statement, seqNo, overflowSeq |
      AskedFor(history, allowed)(view) && allowed(statement) && Inserted(rule, view, statement, seqNo, overflowSeq).Some?
      ensures AskedFor(history, allowed)(view.Plus(Inserted(rule, view, statement, seqNo, overflowSeq).value))
    {
      StatementsAskForWhatTheyAdd(rule, view, statement, seqNo, overflowSeq);
    }
  }

  /** The statement some action of the interleaving enters. */
  ghost function EnteredIn(actions: seq<Action>): Statement -> bool {
    (statement: Statement) => exists k :: 0 <= k < |actions| && actions[k].Enter? && actions[k].statement == statement
  }

  /** Every row since the takeover is what some writer asked for: a registration with the charge, the
      text and the search it named, or one surplus trial of an execution of its specification; and
      every execution carries the outcome it was reported with. */
  lemma EverythingWasAskedFor(rule: TailRule, w: World, actions: seq<Action>)
    requires Initial(w) && Run(rule, w, actions).Some?
    ensures var after := Run(rule, w, actions).value.committed;
      && (forall r :: r in after.rows ==> r in w.committed.rows || exists k :: 0 <= k < |actions| && actions[k].Enter? && MakesRow(actions[k].statement, r))
      && (forall e :: e in after.executions ==> exists k :: 0 <= k < |actions| && actions[k].Enter? && MakesExecution(actions[k].statement, e))
  {
    var entered := EnteredIn(actions);
    AskedForIsKept(rule, w.committed.rows, entered);
    EveryInterleavingKeeps(rule, AskedFor(w.committed.rows, entered), entered, w, actions);
    var after := Run(rule, w, actions).value.committed;
    forall r | r in after.rows && r !in w.committed.rows
      ensures exists k :: 0 <= k < |actions| && actions[k].Enter? && MakesRow(actions[k].statement, r)
    {
      var statement :| entered(statement) && MakesRow(statement, r);
    }
    forall e | e in after.executions
      ensures exists k :: 0 <= k < |actions| && actions[k].Enter? && MakesExecution(actions[k].statement, e)
    {
      var statement :| entered(statement) && MakesExecution(statement, e);
    }
  }

  // ----- whose charge a surplus trial is

  /** The two rows are charged to one search context and one lineage. */
  predicate SamePlace(a: Row, b: Row) {
    && a.attribution.Some? && b.attribution.Some?
    && a.attribution.value.searchContext == b.attribution.value.searchContext
    && a.attribution.value.lineage == b.attribution.value.lineage
  }

  ghost predicate RegisteredOnce(rows: seq<Row>) {
    forall i, j :: 0 <= i < j < |rows| && !IsOverflow(rows[i]) && !IsOverflow(rows[j]) ==> rows[i].spec != rows[j].spec
  }

  /** Some row registers the specification, in the place this row is charged to. */
  ghost predicate ChargedWhereRegistered(rows: seq<Row>, r: Row) {
    exists own :: own in rows && !IsOverflow(own) && own.spec == r.spec && SamePlace(r, own)
  }

  ghost predicate Attributed(rows: seq<Row>) {
    RegisteredOnce(rows) && forall r :: r in rows && IsOverflow(r) ==> ChargedWhereRegistered(rows, r)
  }

  lemma {:induction false} RegistrationFound(rows: seq<Row>, spec: SpecHash)
    ensures match RegistrationOf(rows, spec)
      case None => forall r :: r in rows && !IsOverflow(r) ==> r.spec != spec
      case Some(own) => own in rows && !IsOverflow(own) && own.spec == spec
    decreases |rows|
  {
    if rows != [] {
      var n := |rows| - 1;
      RegistrationFound(rows[..n], spec);
      assert rows == rows[..n] + [rows[n]];
    }
  }

  lemma MoreRowsKeepPlaces(rows: seq<Row>, row: Row, r: Row)
    requires ChargedWhereRegistered(rows, r)
    ensures ChargedWhereRegistered(rows + [row], r)
  {
    var own :| own in rows && !IsOverflow(own) && own.spec == r.spec && SamePlace(r, own);
    assert own in rows + [row];
  }

  lemma OneMoreAttributed(rows: seq<Row>, row: Row)
    requires Attributed(rows)
    requires if IsOverflow(row) then ChargedWhereRegistered(rows, row) else RegistrationOf(rows, row.spec).None?
    ensures Attributed(rows + [row])
  {
    RegistrationFound(rows, row.spec);
    forall r | r in rows + [row] && IsOverflow(r) ensures ChargedWhereRegistered(rows + [row], r) {
      MoreRowsKeepPlaces(rows, row, r);
    }
  }

  // ----- what a place owes

  /** A column, or several, by which rows are grouped, that rows of one place share. */
  ghost predicate IsPlace<K(!new)>(key: Row -> Option<K>) {
    forall a, b :: SamePlace(a, b) ==> key(a) == key(b)
  }

  /** The sum, over the specifications registered in a place, of max(declared, executed). */
  function Owed<K(==)>(rows: seq<Row>, executions: seq<Execution>, key: Row -> Option<K>, k: K): nat {
    if rows == [] then 0
    else
      var last := rows[|rows| - 1];
      Owed(rows[..|rows| - 1], executions, key, k) +
      if !IsOverflow(last) && key(last) == Some(k) then Max(last.charged, ExecutedOf(executions, last.spec)) else 0
  }

  ghost predicate Balanced<K(!new)>(store: Store, key: Row -> Option<K>) {
    forall k :: ChargesWhere(store.rows, KeyIs(key, k)) == Owed(store.rows, store.executions, key, k)
  }

  /** An execution within the declared grid owes nothing more. */
  lemma {:induction false} WithinGridOwesNothing<K>(rows: seq<Row>, executions: seq<Execution>, e: Execution, key: Row -> Option<K>, k: K)
    requires forall r :: r in rows && !IsOverflow(r) && r.spec == e.spec ==> ExecutedOf(executions, e.spec) + 1 <= r.charged
    ensures Owed(rows, executions + [e], key, k) == Owed(rows, executions, key, k)
    decreases |rows|
  {
    assert (executions + [e])[..|executions|] == executions;
    if rows != [] {
      var n := |rows| - 1;
      assert rows[n] in rows;
      WithinGridOwesNothing(rows[..n], executions, e, key, k);
    }
  }

  lemma {:induction false} OthersOweNothing<K>(rows: seq<Row>, executions: seq<Execution>, e: Execution, key: Row -> Option<K>, k: K)
    requires forall r :: r in rows && !IsOverflow(r) ==> r.spec != e.spec
    ensures Owed(rows, executions + [e], key, k) == Owed(rows, executions, key, k)
    decreases |rows|
  {
    WithinGridOwesNothing(rows, executions, e, key, k);
  }

  /** An execution beyond the grid owes one trial more, in the place of its registration alone. */
  lemma {:induction false} SurplusOwesOne<K>(rows: seq<Row>, executions: seq<Execution>, e: Execution, key: Row -> Option<K>, k: K, own: Row)
    requires RegisteredOnce(rows) && own in rows && !IsOverflow(own) && own.spec == e.spec
    requires ExecutedOf(executions, e.spec) + 1 > own.charged
    ensures Owed(rows, executions + [e], key, k) == Owed(rows, executions, key, k) + if key(own) == Some(k) then 1 else 0
    decreases |rows|
  {
    var n := |rows| - 1;
    var init, last := rows[..n], rows[n];
    assert rows == init + [last];
    assert (executions + [e])[..|executions|] == executions;
    if !IsOverflow(last) && last.spec == e.spec {
      assert own == last by { OnlyRegistration(rows, own, last); }
      forall r | r in init && !IsOverflow(r) ensures r.spec != e.spec {
        var i :| 0 <= i < n && rows[i] == r;
      }
      OthersOweNothing(init, executions, e, key, k);
    } else {
      SurplusOwesOne(init, executions, e, key, k, own);
    }
  }

  lemma OnlyRegistration(rows: seq<Row>, a: Row, b: Row)
    requires RegisteredOnce(rows) && a in rows && b in rows && !IsOverflow(a) && !IsOverflow(b) && a.spec == b.spec
    ensures a == b
  {
    var i :| 0 <= i < |rows| && rows[i] == a;
    var j :| 0 <= j < |rows| && rows[j] == b;
  }

  lemma OneMoreRow<K>(rows: seq<Row>, executions: seq<Execution>, row: Row, key: Row -> Option<K>, k: K)
    ensures ChargesWhere(rows + [row], KeyIs(key, k)) == ChargesWhere(rows, KeyIs(key, k)) + if key(row) == Some(k) then row.charged else 0
    ensures Owed(rows + [row], executions, key, k) == Owed(rows, executions, key, k) +
              if !IsOverflow(row) && key(row) == Some(k) then Max(row.charged, ExecutedOf(executions, row.spec)) else 0
  {
    assert (rows + [row])[..|rows|] == rows;
  }

  /** The books of a ledger: charges attributed, and every place charged what it owes. */
  ghost predicate InOrder<K(!new)>(store: Store, key: Row -> Option<K>) {
    Attributed(store.rows) && Balanced(store, key)
  }

  lemma RegisterBalances<K(!new)>(view: Store, row: Row, key: Row -> Option<K>)
    requires Good(view) && InOrder(view, key) && !IsOverflow(row) && RegistrationOf(view.rows, row.spec).None?
    ensures InOrder(Store(view.rows + [row], view.executions), key)
  {
    OneMoreAttributed(view.rows, row);
    assert AccountedFor(view, row.spec);
    forall k ensures ChargesWhere(view.rows + [row], KeyIs(key, k)) == Owed(view.rows + [row], view.executions, key, k) {
      OneMoreRow(view.rows, view.executions, row, key, k);
    }
  }

  lemma ExecuteWithinGridBalances<K(!new)>(view: Store, e: Execution, key: Row -> Option<K>, own: Row)
    requires InOrder(view, key) && own in view.rows && !IsOverflow(own) && own.spec == e.spec
    requires ExecutedOf(view.executions, e.spec) + 1 <= own.charged
    ensures InOrder(Store(view.rows, view.executions + [e]), key)
  {
    forall r | r in view.rows && !IsOverflow(r) && r.spec == e.spec ensures r == own {
      OnlyRegistration(view.rows, r, own);
    }
    forall k ensures ChargesWhere(view.rows, KeyIs(key, k)) == Owed(view.rows, view.executions + [e], key, k) {
      WithinGridOwesNothing(view.rows, view.executions, e, key, k);
    }
  }

  lemma SurplusBalances<K(!new)>(view: Store, e: Execution, row: Row, key: Row -> Option<K>, own: Row)
    requires InOrder(view, key) && IsPlace(key) && own in view.rows && !IsOverflow(own) && own.spec == e.spec == row.spec
    requires ExecutedOf(view.executions, e.spec) + 1 > own.charged
    requires IsOverflow(row) && row.charged == 1 && SamePlace(row, own)
    ensures InOrder(Store(view.rows + [row], view.executions + [e]), key)
  {
    assert ChargedWhereRegistered(view.rows, row);
    OneMoreAttributed(view.rows, row);
    forall k ensures ChargesWhere(view.rows + [row], KeyIs(key, k)) == Owed(view.rows + [row], view.executions + [e], key, k) {
      OneMoreRow(view.rows, view.executions + [e], row, key, k);
      SurplusOwesOne(view.rows, view.executions, e, key, k, own);
    }
  }

  lemma StatementBalances<K(!new)>(rule: TailRule, view: Store, statement: Statement, seqNo: nat, overflowSeq: nat, key: Row -> Option<K>)
    requires Good(view) && InOrder(view, key) && IsPlace(key) && Inserted(rule, view, statement, seqNo, overflowSeq).Some?
    ensures InOrder(view.Plus(Inserted(rule, view, statement, seqNo, overflowSeq).value), key)
  {
    var added := Inserted(rule, view, statement, seqNo, overflowSeq).value;
    if statement.Register? {
      assert view.executions + [] == view.executions;
      RegisterBalances(view, added.rows[0], key);
    } else {
      RegistrationFound(view.rows, statement.executedSpec);
      var own, e := RegistrationOf(view.rows, statement.executedSpec).value, added.executions[0];
      if e.charged {
        SurplusBalances(view, e, added.rows[0], key, own);
      } else {
        assert view.rows + [] == view.rows;
        ExecuteWithinGridBalances(view, e, key, own);
      }
    }
  }

  ghost function BooksBy<K(!new)>(key: Row -> Option<K>): Store -> bool {
    (store: Store) => InOrder(store, key)
  }

  function AnyStatement(): Statement -> bool {
    (statement: Statement) => true
  }

  lemma {:induction false} HistoryOwesNoPlace<K(!new)>(rows: seq<Row>, key: Row -> Option<K>, k: K)
    requires forall r :: r in rows ==> key(r).None?
    ensures ChargesWhere(rows, KeyIs(key, k)) == 0 && Owed(rows, [], key, k) == 0
    decreases |rows|
  {
    if rows != [] {
      assert rows[|rows| - 1] in rows;
      HistoryOwesNoPlace(rows[..|rows| - 1], key, k);
    }
  }

  lemma BooksStayInOrder<K(!new)>(rule: TailRule, w: World, actions: seq<Action>, key: Row -> Option<K>)
    requires Initial(w) && Run(rule, w, actions).Some?
    requires IsPlace(key) && forall r: Row :: r.attribution.None? ==> key(r).None?
    ensures InOrder(Run(rule, w, actions).value.committed, key)
  {
    forall k ensures ChargesWhere(w.committed.rows, KeyIs(key, k)) == Owed(w.committed.rows, [], key, k) {
      HistoryOwesNoPlace(w.committed.rows, key, k);
    }
    assert Attributed(w.committed.rows);
    forall view, statement, seqNo, overflowSeq | Good(view) && BooksBy(key)(view) && Inserted(rule, view, statement, seqNo, overflowSeq).Some?
      ensures BooksBy(key)(view.Plus(Inserted(rule, view, statement, seqNo, overflowSeq).value))
    {
      StatementBalances(rule, view, statement, seqNo, overflowSeq, key);
    }
    EveryInterleavingKeeps(rule, BooksBy(key), AnyStatement(), w, actions);
  }

  lemma PlacesByColumn()
    ensures IsPlace(ContextOf) && forall r: Row :: r.attribution.None? ==> ContextOf(r).None?
    ensures IsPlace(LineageOf) && forall r: Row :: r.attribution.None? ==> LineageOf(r).None?
  {
  }

  /** In every reachable ledger each specification is registered once, and every surplus trial is
      charged to the search context and the lineage its specification is registered in. */
  lemma SurplusFollowsRegistration(rule: TailRule, w: World, actions: seq<Action>, i: nat)
    requires Initial(w) && Run(rule, w, actions).Some?
    requires i < |Run(rule, w, actions).value.committed.rows|
    ensures var rows := Run(rule, w, actions).value.committed.rows;
      && RegisteredOnce(rows)
      && (IsOverflow(rows[i]) ==>
            exists j :: 0 <= j < |rows| && !IsOverflow(rows[j]) && rows[j].spec == rows[i].spec && SamePlace(rows[i], rows[j]))
  {
    PlacesByColumn();
    BooksStayInOrder(rule, w, actions, ContextOf);
    var rows := Run(rule, w, actions).value.committed.rows;
    if IsOverflow(rows[i]) {
      assert rows[i] in rows;
      var own :| own in rows && !IsOverflow(own) && own.spec == rows[i].spec && SamePlace(rows[i], own);
    }
  }

  /** In every reachable ledger a search context has been charged the sum, over the specifications
      registered in it, of max(declared, executed); and so has each lineage of a context. */
  lemma PlacesAreChargedWhatTheyOwe(rule: TailRule, w: World, actions: seq<Action>, context: string, lineage: string)
    requires Initial(w) && Run(rule, w, actions).Some?
    ensures var store := Run(rule, w, actions).value.committed;
      var contexts, lineages := ContextTotals(store.rows), LineageTotals(store.rows);
      && (if context in contexts then contexts[context] else 0) == Owed(store.rows, store.executions, ContextOf, context)
      && (if (context, lineage) in lineages then lineages[(context, lineage)] else 0) == Owed(store.rows, store.executions, LineageOf, (context, lineage))
  {
    PlacesByColumn();
    BooksStayInOrder(rule, w, actions, ContextOf);
    BooksStayInOrder(rule, w, actions, LineageOf);
    var store := Run(rule, w, actions).value.committed;
    TotalOfKey(store.rows, ContextOf, context);
    TotalOfKey(store.rows, LineageOf, (context, lineage));
  }
}
