/** The trigger bodies as they run inside one transaction that holds the lock, over the rows that
    transaction sees. They compute what the protocol's `Inserted` says a statement adds. */
module LedgerTriggers {
  import opened Options
  import opened TrialLedger

  class Tables {
    var rows: seq<Row>
    var executions: seq<Execution>
    var nextSeq: nat

    constructor (view: Store, nextSeq: nat)
      ensures Contents() == view && this.nextSeq == nextSeq
    {
      rows, executions := view.rows, view.executions;
      this.nextSeq := nextSeq;
    }

    function Contents(): Store
      reads this
    {
      Store(rows, executions)
    }

    /** Everything a statement may have added, or nothing at all when it raised. */
    ghost predicate Holds(before: Store, added: Option<Store>)
      reads this
    {
      Contents() == if added.None? then before else before.Plus(added.value)
    }

    /** `SELECT ... ORDER BY cumulative_trials DESC, seq DESC LIMIT 1`. */
    method FindTail() returns (tail: Option<Row>)
      ensures tail == if rows == [] then None else Some(Tail(ByCumulative, rows))
    {
      tail := None;
      for i := 0 to |rows|
        invariant tail == if i == 0 then None else Some(Tail(ByCumulative, rows[..i]))
      {
        assert rows[..i + 1][..i] == rows[..i];
        if tail.None? || Beats(ByCumulative, rows[i], tail.value) {
          tail := Some(rows[i]);
        }
      }
      assert rows[..|rows|] == rows;
    }

    method FindRegistration(spec: SpecHash) returns (registration: Option<Row>)
      ensures registration == RegistrationOf(rows, spec)
    {
      registration := None;
      for i := 0 to |rows|
        invariant registration == RegistrationOf(rows[..i], spec)
      {
        assert rows[..i + 1][..i] == rows[..i];
        if rows[i].spec == spec && !IsOverflow(rows[i]) {
          registration := Some(rows[i]);
        }
      }
      assert rows[..|rows|] == rows;
    }

    method CountExecuted(spec: SpecHash) returns (executed: nat)
      ensures executed == ExecutedOf(executions, spec)
    {
      executed := 0;
      for i := 0 to |executions|
        invariant executed == ExecutedOf(executions[..i], spec)
      {
        assert executions[..i + 1][..i] == executions[..i];
        if executions[i].spec == spec {
          executed := executed + 1;
        }
      }
      assert executions[..|executions|] == executions;
    }

    /** Insert one ledger row through `fking_trial_ledger_accumulate`. */
    method InsertRow(seqNo: nat, spec: SpecHash, content: string, charged: nat, attribution: Option<Attribution>) returns (inserted: bool)
      modifies this`rows
      ensures inserted <==> attribution.Some?
      ensures rows == old(rows) + if inserted then [Accumulated(ByCumulative, old(rows), seqNo, spec, content, charged, attribution.value)] else []
    {
      if attribution.None? {
        return false;
      }
      var tail := FindTail();
      var previous := if tail.None? then 0 else tail.value.cumulative;
      var lastHash := if tail.None? then Origin else tail.value.hash;
      var cumulative := previous + charged;
      var hash := RowDigest(lastHash, seqNo, spec, content, charged, cumulative);
      rows := rows + [Row(seqNo, spec, content, charged, cumulative, attribution, lastHash, hash)];
      inserted := true;
    }

    method Register(seqNo: nat, spec: SpecHash, content: string, charged: int, context: Option<(string, string)>) returns (inserted: bool)
      modifies this
      ensures var added := Inserted(ByCumulative, old(Contents()), Statement.Register(spec, content, charged, context), seqNo, old(nextSeq));
        inserted == added.Some? && Holds(old(Contents()), added)
    {
      var existing := FindRegistration(spec);
      if context.None? || charged < 1 || existing.Some? {
        return false;
      }
      inserted := InsertRow(seqNo, spec, content, charged, Some(Attribution(context.value.0, context.value.1, Registration)));
      assert executions + [] == executions;
    }

    /** `fking_trial_execution_reconcile`: number the execution and charge the surplus. */
    method Reconcile(spec: SpecHash, detail: string, outcome: Option<Outcome>) returns (inserted: bool)
      modifies this
      ensures var added := Inserted(ByCumulative, old(Contents()), Execute(spec, detail, outcome), 0, old(nextSeq));
        inserted == added.Some? && Holds(old(Contents()), added)
      ensures nextSeq == old(nextSeq) + if Overruns(old(Contents()), Execute(spec, detail, outcome)) then 1 else 0
    {
      if outcome.None? {
        return false;
      }
      var registration := FindRegistration(spec);
      if registration.None? {
        return false;
      }
      var executed := CountExecuted(spec);
      var index := executed + 1;
      var charged := index > registration.value.charged;
      if charged {
        var seqNo := nextSeq;
        nextSeq := nextSeq + 1;
        var attribution := if registration.value.attribution.None? then None
                           else Some(registration.value.attribution.value.(kind := ExecutionOverflow));
        inserted := InsertRow(seqNo, spec, detail, 1, attribution);
        if !inserted {
          return false;
        }
      }
      executions := executions + [Execution(spec, index, charged, outcome.value)];
      inserted := true;
    }
  }
}
