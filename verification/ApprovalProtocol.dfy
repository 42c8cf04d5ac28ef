/** Every interleaving of the remediation calls, as a state machine.
  *
  * A call first reads the clock (Begin), then runs its transactions one at a
  * time (Commit).  An approval has two: lock, check and record; then finalise.
  * The other calls have one.  Evaluate is the compliance service at work.
  */
module ApprovalProtocol {
  import opened Common
  import opened ApprovalMatrix
  import opened RemediationDb

  datatype Call =
    | Save(key: Key, draft: Draft)
    | Approve(key: Key, user: string, comment: Option<string>, role: string, actorType: string)
    | Reject(key: Key, user: string, comment: Option<string>)
    | Apply(key: Key, user: string)
    | Rollback(key: Key, user: string, verificationFailed: bool)

  /** A call between its transactions; `counted` once an approval found its quorum. */
  datatype InFlight = InFlight(call: Call, now: Time, counted: bool)

  datatype System = System(db: Db, clock: Time, calls: map<nat, InFlight>)

  datatype Step =
    | Begin(id: nat, call: Call, now: Time)
    | Commit(id: nat, at: Time, at2: Time)
    | Evaluate(run: string, hash: Option<Hash>, time: Time)

  const INITIAL := System(Db(map[], [], []), 0, map[])

  /** The next transaction of one call; None when the call is finished. */
  function RunTransaction(db: Db, p: InFlight, at: Time, at2: Time): (Db, Option<InFlight>) {
    match p.call
    case Save(k, d) => (SaveTx(db, k, d, p.now, at, at2), None)
    case Approve(k, user, comment, role, actorType) =>
      if p.counted then
        (FinalizeTx(db, k, true, user, comment, p.now, at).0, None)
      else
        var (db', outcome) := RecordTx(db, k, user, role, actorType, at);
        (db',
         if outcome.Recorded? && DualApprovalSatisfied(outcome.draft.Action(), outcome.prior, user)
         then Some(p.(counted := true)) else None)
    case Reject(k, user, comment) => (FinalizeTx(db, k, false, user, comment, p.now, at).0, None)
    case Apply(k, user) => (ApplyTx(db, k, user, p.now, at).0, None)
    case Rollback(k, user, failed) => (RollbackTx(db, k, user, failed, p.now, at, at2).0, None)
  }

  function Next(s: System, step: Step): System {
    match step
    case Begin(id, call, now) => System(s.db, now, s.calls[id := InFlight(call, now, false)])
    case Commit(id, at, at2) =>
      if id !in s.calls then s
      else
        var (db, rest) := RunTransaction(s.db, s.calls[id], at, at2);
        System(db, at2, if rest.None? then s.calls - {id} else s.calls[id := rest.value])
    case Evaluate(run, hash, time) => System(EvaluateTx(s.db, run, hash, time), time, s.calls)
  }

  /** The clock is strictly increasing, and a call is begun once. */
  predicate Enabled(s: System, step: Step) {
    match step
    case Begin(id, call, now) => id !in s.calls && s.clock < now
    case Commit(id, at, at2) => id in s.calls && s.clock < at < at2
    case Evaluate(run, hash, time) => s.clock < time
  }

  function Execute(s: System, steps: seq<Step>): System {
    if steps == [] then s
    else Next(Execute(s, steps[..|steps| - 1]), steps[|steps| - 1])
  }

  /** A run of the system: every step was enabled when it was taken. */
  predicate IsRun(s: System, steps: seq<Step>) {
    steps != [] ==>
      IsRun(s, steps[..|steps| - 1]) && Enabled(Execute(s, steps[..|steps| - 1]), steps[|steps| - 1])
  }

  // ---------------------------------------------------------------- hypotheses

  predicate Decides(call: Call) { call.Approve? || call.Reject? }

  /** No save of a row overlaps an approve or reject call on the same row. */
  predicate KeepsSavesApart(s: System, step: Step) {
    step.Begin? ==>
      forall id :: id in s.calls && s.calls[id].call.key == step.call.key ==>
        && !(step.call.Save? && Decides(s.calls[id].call))
        && !(Decides(step.call) && s.calls[id].call.Save?)
  }

  predicate NamesItsActor(step: Step) {
    step.Begin? && step.call.Approve? ==> step.call.user != ""
  }

  /** A run under the two hypotheses of quorum safety. */
  predicate IsDisciplinedRun(s: System, steps: seq<Step>) {
    steps != [] ==>
      && var before := steps[..|steps| - 1];
      && IsDisciplinedRun(s, before)
      && Enabled(Execute(s, before), steps[|steps| - 1])
      && KeepsSavesApart(Execute(s, before), steps[|steps| - 1])
      && NamesItsActor(steps[|steps| - 1])
  }

  // ------------------------------------------------------------ what is claimed

  predicate IsProposal(e: Event, k: Key) { e.key == k && e.kind == RemediationProposed }
  predicate IsApproval(e: Event, k: Key) { e.key == k && e.kind == ApprovalGiven }
  predicate IsApplication(e: Event, k: Key) { e.key == k && e.kind == ScriptApplied }

  /** The i-th event is not older than the latest proposal of k. */
  ghost predicate Current(ledger: seq<Event>, k: Key, i: int) {
    0 <= i < |ledger| && forall j :: i < j < |ledger| ==> !IsProposal(ledger[j], k)
  }

  /** Among the first `upto` events are the approvals this classification asks
    * for, all of them given after k's latest proposal. */
  ghost predicate Sanctioned(ledger: seq<Event>, k: Key, action: Action, upto: nat) {
    exists i, j ::
      && 0 <= i < upto && 0 <= j < upto
      && Current(ledger, k, i) && Current(ledger, k, j)
      && IsApproval(ledger[i], k) && IsApproval(ledger[j], k)
      && (action == DualApproval ==> ledger[i].actor != ledger[j].actor)
  }

  /** Quorum safety of one row. */
  ghost predicate ApprovalIsSound(db: Db, k: Key)
    requires k in db.rows
  {
    db.rows[k].status == Approved ==>
      && db.rows[k].draft.preflight == Safe
      && db.rows[k].draft.Action() != Block
      && Sanctioned(db.ledger, k, db.rows[k].draft.Action(), |db.ledger|)
  }

  /** Since k's latest proposal the script was applied, after it was sanctioned. */
  ghost predicate AppliedAfterApproval(ledger: seq<Event>, k: Key, action: Action) {
    exists a :: Current(ledger, k, a) && IsApplication(ledger[a], k) && Sanctioned(ledger, k, action, a)
  }

  /** Apply and rollback lifecycle of one row. */
  ghost predicate LifecycleIsSound(db: Db, k: Key)
    requires k in db.rows
  {
    var row := db.rows[k];
    && (row.appliedAt.None? <==> row.rollback == NotApplied)
    && (row.appliedAt.Some? ==> AppliedAfterApproval(db.ledger, k, row.draft.Action()))
  }
}
