/** The trial ledger as a protocol between concurrent transactions: the triggers that charge a
    registration and reconcile an execution, identity allocation outside the lock, the advisory
    lock, READ COMMITTED visibility, commit and abort. */
module TrialLedger {
  import opened Options

  type SpecHash = string
  type TxId = nat

  datatype EntryKind = Registration | ExecutionOverflow

  /** The three columns that travel together; a row older than they are has none of them. */
  datatype Attribution = Attribution(searchContext: string, lineage: string, kind: EntryKind)

  /** A digest that never collides: the term it was computed from. */
  datatype Hash = Origin | RowDigest(prev: Hash, seqNo: nat, spec: SpecHash, content: string, charged: nat, cumulative: nat)

  /** `content` stands for the descriptive columns the digest covers. */
  datatype Row = Row(seqNo: nat, spec: SpecHash, content: string, charged: nat, cumulative: nat,
                     attribution: Option<Attribution>, prev: Hash, hash: Hash)

  datatype Outcome = Completed | Failed

  datatype Execution = Execution(spec: SpecHash, index: nat, charged: bool, outcome: Outcome)

  /** The two tables, each in the order its rows were written. */
  datatype Store = Store(rows: seq<Row>, executions: seq<Execution>) {
    function Plus(other: Store): Store {
      Store(rows + other.rows, executions + other.executions)
    }
  }

  /** `0002` takes the row of the highest `seq` for the chain's tail; `0018` the highest total. */
  datatype TailRule = BySeq | ByCumulative

  predicate Beats(rule: TailRule, a: Row, b: Row) {
    match rule
    case BySeq => a.seqNo > b.seqNo
    case ByCumulative => a.cumulative > b.cumulative || (a.cumulative == b.cumulative && a.seqNo > b.seqNo)
  }

  /** `ORDER BY ... DESC LIMIT 1`. */
  function Tail(rule: TailRule, rows: seq<Row>): Row
    requires rows != []
  {
    var last := rows[|rows| - 1];
    if |rows| == 1 then last
    else
      var best := Tail(rule, rows[..|rows| - 1]);
      if Beats(rule, last, best) then last else best
  }

  lemma {:induction false} TailIsMaximal(rule: TailRule, rows: seq<Row>)
    requires rows != []
    ensures Tail(rule, rows) in rows && forall r :: r in rows ==> !Beats(rule, r, Tail(rule, rows))
    decreases |rows|
  {
    if |rows| > 1 {
      TailIsMaximal(rule, rows[..|rows| - 1]);
      assert rows == rows[..|rows| - 1] + [rows[|rows| - 1]];
    }
  }

  function TotalOf(rule: TailRule, rows: seq<Row>): nat {
    if rows == [] then 0 else Tail(rule, rows).cumulative
  }

  function HashOf(rule: TailRule, rows: seq<Row>): Hash {
    if rows == [] then Origin else Tail(rule, rows).hash
  }

  /** `fking_trial_ledger_accumulate`: what the trigger makes of a row about to be inserted. */
  function Accumulated(rule: TailRule, rows: seq<Row>, seqNo: nat, spec: SpecHash, content: string, charged: nat, attribution: Attribution): Row {
    var cumulative := TotalOf(rule, rows) + charged;
    var prev := HashOf(rule, rows);
    Row(seqNo, spec, content, charged, cumulative, Some(attribution), prev, RowDigest(prev, seqNo, spec, content, charged, cumulative))
  }

  predicate IsOverflow(row: Row) {
    row.attribution.Some? && row.attribution.value.kind == ExecutionOverflow
  }

  /** The registration of a specification; rows older than the kind column count as one. */
  function RegistrationOf(rows: seq<Row>, spec: SpecHash): Option<Row> {
    if rows == [] then None
    else
      var last := rows[|rows| - 1];
      if last.spec == spec && !IsOverflow(last) then Some(last) else RegistrationOf(rows[..|rows| - 1], spec)
  }

  function ExecutedOf(executions: seq<Execution>, spec: SpecHash): nat {
    if executions == [] then 0
    else ExecutedOf(executions[..|executions| - 1], spec) + if executions[|executions| - 1].spec == spec then 1 else 0
  }

  datatype Statement =
    | Register(spec: SpecHash, content: string, charged: int, context: Option<(string, string)>)
    | Execute(executedSpec: SpecHash, detail: string, outcome: Option<Outcome>)

  /** The execution overran its declared grid, so it charges the ledger one more trial. */
  predicate Overruns(view: Store, statement: Statement) {
    && statement.Execute? && statement.outcome.Some?
    && var registration := RegistrationOf(view.rows, statement.executedSpec);
      registration.Some? && ExecutedOf(view.executions, statement.executedSpec) + 1 > registration.value.charged
  }

  /** What a statement adds to the tables its transaction sees, or `None` when it raises. A
      registration is refused without its context, without a charge, or a second time; an
      execution without an outcome or a registration. Only the surplus over the declared grid is
      charged, and that charge goes through the ledger's own trigger, which refuses it when the
      registration predates the context columns. */
  function Inserted(rule: TailRule, view: Store, statement: Statement, seqNo: nat, overflowSeq: nat): Option<Store> {
    match statement
    case Register(spec, content, charged, context) =>
      if context.None? || charged < 1 || RegistrationOf(view.rows, spec).Some? then None
      else
        var attribution := Attribution(context.value.0, context.value.1, Registration);
        Some(Store([Accumulated(rule, view.rows, seqNo, spec, content, charged, attribution)], []))
    case Execute(spec, detail, outcome) =>
      var registration := RegistrationOf(view.rows, spec);
      if outcome.None? || registration.None? then None
      else
        var index := ExecutedOf(view.executions, spec) + 1;
        var charged := Overruns(view, statement);
        var execution := Execution(spec, index, charged, outcome.value);
        if !charged then Some(Store([], [execution]))
        else if registration.value.attribution.None? then None
        else
          var attribution := registration.value.attribution.value.(kind := ExecutionOverflow);
          Some(Store([Accumulated(rule, view.rows, overflowSeq, spec, detail, 1, attribution)], [execution]))
  }

  /** A transaction: what it has written, and the statement it is in the middle of with the
      identity value a registration is given on entry, before its trigger runs. */
  datatype Tx = Tx(written: Store, open: Option<(Statement, nat)>)

  datatype World = World(committed: Store, lock: Option<TxId>, txs: map<TxId, Tx>, nextSeq: nat)

  datatype Action =
    | Begin(t: TxId)
    | Enter(t: TxId, statement: Statement)
    | TakeLock(t: TxId)
    | Write(t: TxId)
    | Commit(t: TxId)
    | Abort(t: TxId)

  /** Ending a transaction releases the lock it may hold. Its identity values are spent. */
  function Ended(w: World, t: TxId, committed: Store): World {
    World(committed, if w.lock == Some(t) then None else w.lock, w.txs - {t}, w.nextSeq)
  }

  /** What a statement of `t` reads: everything committed by now, and its own writes. */
  function View(w: World, t: TxId): Store
    requires t in w.txs
  {
    w.committed.Plus(w.txs[t].written)
  }

  /** One step, or `None` when the step is blocked. The write of a statement needs the lock: its
      trigger waits for it, and the reads that follow see everything committed meanwhile. A
      statement that raises aborts its transaction. */
  function Next(rule: TailRule, w: World, a: Action): Option<World> {
    match a
    case Begin(t) =>
      if t in w.txs then None else Some(w.(txs := w.txs[t := Tx(Store([], []), None)]))
    case Enter(t, statement) =>
      if t !in w.txs || w.txs[t].open.Some? then None
      else Some(w.(txs := w.txs[t := w.txs[t].(open := Some((statement, w.nextSeq)))], nextSeq := w.nextSeq + if statement.Register? then 1 else 0))
    case TakeLock(t) =>
      if t !in w.txs || (w.lock.Some? && w.lock != Some(t)) then None else Some(w.(lock := Some(t)))
    case Write(t) =>
      if t !in w.txs || w.lock != Some(t) || w.txs[t].open.None? then None
      else
        var tx := w.txs[t];
        var added := Inserted(rule, View(w, t), tx.open.value.0, tx.open.value.1, w.nextSeq);
        var spent := w.(nextSeq := w.nextSeq + if Overruns(View(w, t), tx.open.value.0) then 1 else 0);
        if added.None? then Some(Ended(spent, t, w.committed))
        else Some(spent.(txs := w.txs[t := Tx(tx.written.Plus(added.value), None)]))
    case Commit(t) =>
      if t !in w.txs || w.txs[t].open.Some? then None else Some(Ended(w, t, View(w, t)))
    case Abort(t) =>
      if t !in w.txs then None else Some(Ended(w, t, w.committed))
  }

  /** The world after an interleaving, or `None` when one of its steps is blocked. */
  function Run(rule: TailRule, w: World, actions: seq<Action>): Option<World> {
    if actions == [] then Some(w)
    else
      var before := Run(rule, w, actions[..|actions| - 1]);
      if before.None? then None else Next(rule, before.value, actions[|actions| - 1])
  }

  // ----- the accounting

  function Charges(rows: seq<Row>): nat {
    if rows == [] then 0 else Charges(rows[..|rows| - 1]) + rows[|rows| - 1].charged
  }

  function ChargedTo(rows: seq<Row>, spec: SpecHash): nat {
    if rows == [] then 0
    else ChargedTo(rows[..|rows| - 1], spec) + if rows[|rows| - 1].spec == spec then rows[|rows| - 1].charged else 0
  }

  function Max(a: nat, b: nat): nat {
    if a < b then b else a
  }

  /** Link `i` of a chain that starts from a total and a hash: the row's total is the one before
      plus its own charge, and it carries its predecessor's hash. */
  ghost predicate LinkedFrom(total: nat, hash: Hash, rows: seq<Row>, i: nat)
    requires i < |rows|
  {
    var prev := if i == 0 then hash else rows[i - 1].hash;
    && rows[i].charged >= 1
    && rows[i].cumulative == (if i == 0 then total else rows[i - 1].cumulative) + rows[i].charged
    && rows[i].prev == prev
    && rows[i].hash == RowDigest(prev, rows[i].seqNo, rows[i].spec, rows[i].content, rows[i].charged, rows[i].cumulative)
  }

  /** One chain in write order. */
  ghost predicate Continues(total: nat, hash: Hash, rows: seq<Row>) {
    forall i :: 0 <= i < |rows| ==> LinkedFrom(total, hash, rows, i)
  }

  ghost predicate Chain(rows: seq<Row>) {
    Continues(0, Origin, rows)
  }

  /** What was written after `history` is one chain from the tail that history has. */
  ghost predicate Extends(rule: TailRule, history: seq<Row>, rows: seq<Row>) {
    history <= rows && Continues(TotalOf(rule, history), HashOf(rule, history), rows[|history|..])
  }

  ghost predicate AccountedFor(store: Store, spec: SpecHash) {
    match RegistrationOf(store.rows, spec)
    case None => ChargedTo(store.rows, spec) == 0 && ExecutedOf(store.executions, spec) == 0
    case Some(registration) => ChargedTo(store.rows, spec) == Max(registration.charged, ExecutedOf(store.executions, spec))
  }

  /** The `i`-th execution is numbered by how many its specification has had, and was charged iff
      that number overran the declared grid. */
  ghost predicate NumberedAt(store: Store, i: nat)
    requires i < |store.executions|
  {
    var e := store.executions[i];
    && e.index == ExecutedOf(store.executions[..i + 1], e.spec)
    && RegistrationOf(store.rows, e.spec).Some?
    && e.charged == (e.index > RegistrationOf(store.rows, e.spec).value.charged)
  }

  ghost predicate Good(store: Store) {
    && (forall spec :: AccountedFor(store, spec))
    && (forall i :: 0 <= i < |store.executions| ==> NumberedAt(store, i))
  }
}
