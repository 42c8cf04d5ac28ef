/** The remediation tables and the transactions that write them.
  *
  * Each function below is the effect of one database transaction of
  * services/remediation/app/db.py.  Timestamps the program reads from the
  * system clock are arguments.
  */
module RemediationDb {
  import opened Common
  import opened ApprovalMatrix

  type Time = int
  type Hash = string

  datatype Key = Key(run: string, control: string)

  datatype Preflight = Safe | RiskFlags | Unavailable
  datatype Decision = Decision(action: Action, risk: Risk, blastRadius: int)

  /** What a (re)generation writes: one version of the script with its verdicts. */
  datatype Draft = Draft(script: string, preflight: Preflight, decision: Option<Decision>) {
    function Action(): Action { if decision.Some? then decision.value.action else SingleApproval }
    function Risk(): Risk { if decision.Some? then decision.value.risk else High }
    function BlastRadius(): int { if decision.Some? then decision.value.blastRadius else 0 }
  }

  datatype Status = Pending | Approved | Rejected
  datatype RollbackStatus = NotApplied | Applied | RolledBack

  datatype Row = Row(
    draft: Draft,
    status: Status, approvedBy: Option<string>, comment: Option<string>, approvedAt: Option<Time>,
    preChange: Option<Hash>,
    appliedAt: Option<Time>, rollback: RollbackStatus,
    updatedAt: Time)

  datatype EventKind =
    | RemediationProposed | DecisionMade | ApprovalGiven | RejectionGiven
    | ScriptApplied | VerificationFailed | ScriptRolledBack(restore: Option<Hash>)

  datatype Event = Event(key: Key, kind: EventKind, actor: string, at: Time)

  /** One row of audit_evaluations, which the compliance service appends. */
  datatype Evaluation = Evaluation(run: string, hash: Hash, at: Time)

  datatype Db = Db(rows: map<Key, Row>, ledger: seq<Event>, evaluations: seq<Evaluation>)

  /** The ledger never stores an empty actor. */
  function RecordedActor(user: string): string {
    if user == "" then "system" else user
  }

  function SaveTx(db: Db, k: Key, d: Draft, updatedAt: Time, at: Time, at2: Time): Db {
    // The upsert resets every approval column but leaves the pinned hash alone.
    var pinned := if k in db.rows then db.rows[k].preChange else None;
    var row := Row(d, Pending, None, None, None, pinned, None, NotApplied, updatedAt);
    var events := [Event(k, RemediationProposed, "system", at)]
                  + if d.decision.Some? then [Event(k, DecisionMade, "system", at2)] else [];
    db.(rows := db.rows[k := row], ledger := db.ledger + events)
  }

  function PriorActors(ledger: seq<Event>, k: Key, since: Time): set<string> {
    set e | e in ledger && e.key == k && e.kind == ApprovalGiven && e.at >= since :: e.actor
  }

  datatype RecordOutcome = NotApprovable | Denied(reason: Denial) | Recorded(draft: Draft, prior: set<string>)

  /** The locked half of approve: check, count earlier approvers, log this one. */
  function RecordTx(db: Db, k: Key, user: string, role: string, actorType: string, at: Time): (Db, RecordOutcome) {
    if k !in db.rows || db.rows[k].draft.preflight != Safe then
      (db, NotApprovable)
    else
      var row := db.rows[k];
      var denial := CheckPermission(role, row.draft.Action(), row.draft.Risk(), row.draft.BlastRadius(), actorType);
      if denial.Some? then
        (db, Denied(denial.value))
      else
        (db.(ledger := db.ledger + [Event(k, ApprovalGiven, RecordedActor(user), at)]),
         Recorded(row.draft, PriorActors(db.ledger, k, row.updatedAt)))
  }

  /** The hash of the run's evaluation with the greatest timestamp. */
  function NewestHash(evaluations: seq<Evaluation>, run: string): Option<Hash> {
    var newest := NewestEvaluation(evaluations, run);
    if newest.Some? then Some(newest.value.hash) else None
  }

  function NewestEvaluation(evaluations: seq<Evaluation>, run: string): (newest: Option<Evaluation>)
    ensures newest.None? <==> forall e :: e in evaluations ==> e.run != run
    ensures newest.Some? ==> newest.value in evaluations && newest.value.run == run
    ensures newest.Some? ==> forall e :: e in evaluations && e.run == run ==> e.at <= newest.value.at
  {
    if evaluations == [] then None
    else
      var last := evaluations[|evaluations| - 1];
      var best := NewestEvaluation(evaluations[..|evaluations| - 1], run);
      assert evaluations == evaluations[..|evaluations| - 1] + [last];
      if last.run == run && (best.None? || best.value.at <= last.at) then Some(last) else best
  }

  /** The i-th evaluation is of this run, and no other of it is later, nor as late and behind it. */
  ghost predicate IsNewest(evaluations: seq<Evaluation>, run: string, i: int) {
    && 0 <= i < |evaluations| && evaluations[i].run == run
    && forall j :: 0 <= j < |evaluations| && evaluations[j].run == run ==>
         evaluations[j].at < evaluations[i].at || (evaluations[j].at == evaluations[i].at && j <= i)
  }

  lemma {:induction false} NewestIndex(evaluations: seq<Evaluation>, run: string) returns (i: int)
    requires NewestEvaluation(evaluations, run).Some?
    ensures IsNewest(evaluations, run, i) && NewestEvaluation(evaluations, run) == Some(evaluations[i])
  {
    var n := |evaluations| - 1;
    var before, best := evaluations[..n], NewestEvaluation(evaluations[..n], run);
    if evaluations[n].run == run && (best.None? || best.value.at <= evaluations[n].at) {
      i := n;
      forall j | 0 <= j < n && evaluations[j].run == run ensures evaluations[j].at <= evaluations[n].at {
        assert evaluations[j] in evaluations;
      }
    } else {
      i := NewestIndex(before, run);
      assert forall j :: 0 <= j < n ==> before[j] == evaluations[j];
    }
  }

  /** The hash is that of the run's newest evaluation; there is none exactly if it has none. */
  lemma NewestHashExactly(evaluations: seq<Evaluation>, run: string) returns (i: int)
    ensures NewestHash(evaluations, run).None? <==> forall e :: e in evaluations ==> e.run != run
    ensures NewestHash(evaluations, run).Some? ==>
              IsNewest(evaluations, run, i) && NewestHash(evaluations, run) == Some(evaluations[i].hash)
  {
    i := -1;
    if NewestEvaluation(evaluations, run).Some? { i := NewestIndex(evaluations, run); }
  }

  /** _finalize_approval: None when the guarded UPDATE matched no row. */
  function FinalizeTx(db: Db, k: Key, approved: bool, user: string, comment: Option<string>, now: Time, at: Time)
    : (Db, Option<Row>)
  {
    if k !in db.rows || (approved && db.rows[k].draft.preflight != Safe) then
      (db, None)
    else
      var row := db.rows[k].(
        status := if approved then Approved else Rejected,
        approvedBy := Some(user), comment := comment, approvedAt := Some(now), updatedAt := now,
        preChange := if approved then NewestHash(db.evaluations, k.run) else db.rows[k].preChange);
      var events := if approved then [] else [Event(k, RejectionGiven, RecordedActor(user), at)];
      (db.(rows := db.rows[k := row], ledger := db.ledger + events), Some(row))
  }

  function ApplyTx(db: Db, k: Key, user: string, now: Time, at: Time): (Db, Option<Row>) {
    if k !in db.rows || db.rows[k].status != Approved then
      (db, None)
    else
      var row := db.rows[k].(appliedAt := Some(now), rollback := Applied, updatedAt := now);
      (db.(rows := db.rows[k := row],
           ledger := db.ledger + [Event(k, ScriptApplied, RecordedActor(user), at)]),
       Some(row))
  }

  function RollbackTx(db: Db, k: Key, user: string, failed: bool, now: Time, at: Time, at2: Time): (Db, Option<Row>) {
    var ledger := db.ledger + if failed then [Event(k, VerificationFailed, RecordedActor(user), at)] else [];
    if k !in db.rows || db.rows[k].appliedAt.None? then
      (db.(ledger := ledger), None)
    else
      var row := db.rows[k].(rollback := RolledBack, updatedAt := now);
      (db.(rows := db.rows[k := row],
           ledger := ledger + [Event(k, ScriptRolledBack(row.preChange), RecordedActor(user), at2)]),
       Some(row))
  }

  function WithoutRun(rows: map<Key, Row>, run: string): map<Key, Row> { map k | k in rows && k.run != run :: rows[k] }

  /** What an evaluation adds to the history: nothing when it comes without a baseline. */
  function Appended(run: string, hash: Option<Hash>, at: Time): seq<Evaluation> {
    if hash.Some? then [Evaluation(run, hash.value, at)] else []
  }

  /** An evaluation committed by the compliance service. It deletes the findings of the run,
    * and with them, by the foreign key, every proposal for them. */
  function EvaluateTx(db: Db, run: string, hash: Option<Hash>, at: Time): Db {
    db.(rows := WithoutRun(db.rows, run), evaluations := db.evaluations + Appended(run, hash, at))
  }
}
