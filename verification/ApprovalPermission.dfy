/** Who may approve what, on the tables and over all runs. */
module ApprovalPermission {
  import opened Common
  import opened ApprovalMatrix
  import opened RemediationDb
  import opened ApprovalProtocol
  import opened ApprovalSafety
  import opened ApprovalConditions
  import opened ApprovalStore

  // -------------------------------------------------------------- the rule in words

  /** A human may approve what is not blocked: an admin anything, an operator what is decided,
    * not of high risk, and confined to the device itself. */
  predicate Permitted(d: Draft, role: string, actorType: string) {
    && actorType == "human"
    && match d.decision
       case None => role == "admin"
       case Some(v) => v.action != Block && (role == "admin" || (role == "operator" && v.risk != High && v.blastRadius <= 0))
  }

  predicate MayLog(db: Db, k: Key, role: string, actorType: string) {
    k in db.rows && db.rows[k].draft.preflight == Safe && Permitted(db.rows[k].draft, role, actorType)
  }

  /** The name an event bears for a user. */
  predicate Bears(e: Event, user: string) { e.actor == (if user == "" then "system" else user) }

  // ------------------------------------------------------------------ one transaction

  /** The locked transaction logs an approval exactly for a permitted caller of a SAFE row. */
  lemma LogsExactly(db: Db, k: Key, user: string, role: string, actorType: string, at: Time)
    ensures var (db', r) := RecordTx(db, k, user, role, actorType, at);
            && (r.Recorded? <==> MayLog(db, k, role, actorType))
            && (r.NotApprovable? <==> k !in db.rows || db.rows[k].draft.preflight != Safe)
            && db'.rows == db.rows
            && if MayLog(db, k, role, actorType)
               then |db'.ledger| == |db.ledger| + 1 && db'.ledger[..|db.ledger|] == db.ledger
                    && IsApproval(db'.ledger[|db.ledger|], k) && Bears(db'.ledger[|db.ledger|], user)
               else db'.ledger == db.ledger
  {
  }

  predicate AtMost(a: Risk, b: Risk) { a == b || a == Low || b == High }

  /** What is let through at one risk and blast radius is let through at every lower. */
  lemma LowerIsLetThrough(role: string, action: Action, risk: Risk, radius: int, risk': Risk, radius': int, actorType: string)
    requires CheckPermission(role, action, risk, radius, actorType).None? && AtMost(risk', risk) && radius' <= radius
    ensures CheckPermission(role, action, risk', radius', actorType).None?
  {
  }

  predicate NeedsTwo(d: Draft) { d.decision.Some? && d.decision.value.action == DualApproval }

  /** One approver is enough, or somebody else approved since the row was last written. */
  ghost predicate HasQuorum(db: Db, k: Key, user: string)
    requires k in db.rows
  {
    NeedsTwo(db.rows[k].draft) ==> CountsAnother(db.ledger, k, db.rows[k].updatedAt, user)
  }

  /** What a whole approve call answers, and when it finalises. */
  lemma AnswersExactly(db: Db, k: Key, user: string, comment: Option<string>, role: string, actorType: string,
                       now: Time, at: Time)
    ensures var (db', r) := ApproveCall(db, k, true, user, comment, role, actorType, now, at);
            && (r.NotFound? <==> k !in db.rows || db.rows[k].draft.preflight != Safe)
            && (r.Refused? <==> !r.NotFound? && !MayLog(db, k, role, actorType))
            && (r.Finalised? <==> MayLog(db, k, role, actorType) && HasQuorum(db, k, user))
            && (r.Finalised? ==> k in db'.rows && db'.rows[k] == r.row && r.row.status == Approved)
            && (r.Finalised? ==> (r.quorum.Some? <==> NeedsTwo(db.rows[k].draft)) && (r.quorum.Some? ==> r.quorum.value >= 2))
            && (r.Awaiting? ==> r.received == 1 && db'.rows == db.rows)
  {
    LogsExactly(db, k, user, role, actorType, at);
    if MayLog(db, k, role, actorType) {
      var prior := RecordTx(db, k, user, role, actorType, at).1.prior;
      if NeedsTwo(db.rows[k].draft) { CompletesExactly(db, k, user, role, actorType, at); }
      OneIsCounted(prior, user);
    }
  }

  lemma OneIsCounted(prior: set<string>, user: string)
    ensures |prior + {user}| >= 1
  {
    assert user in prior + {user};
  }

  // ------------------------------------------------------------------------- all runs

  /** The step, on the tables it finds, gives occasion to log an event of this kind. */
  predicate Occasion(s: System, step: Step, k: Key, kind: EventKind) {
    && step.Commit? && step.id in s.calls
    && var p, rows := s.calls[step.id], s.db.rows;
    && p.call.key == k
    && match kind
       case RemediationProposed => p.call.Save?
       case DecisionMade => p.call.Save? && p.call.draft.decision.Some?
       case ApprovalGiven => p.call.Approve? && !p.counted && MayLog(s.db, k, p.call.role, p.call.actorType)
       case RejectionGiven => p.call.Reject? && k in rows
       case ScriptApplied => p.call.Apply? && k in rows && rows[k].status == Approved
       case VerificationFailed => p.call.Rollback? && p.call.verificationFailed
       case ScriptRolledBack(hash) => p.call.Rollback? && k in rows && rows[k].appliedAt.Some? && hash == rows[k].preChange
  }

  /** The step logs the event, and was entitled to on the tables it found. */
  predicate Entitled(s: System, step: Step, e: Event) {
    && Occasion(s, step, e.key, e.kind) && step.at <= e.at <= step.at2
    && var call := s.calls[step.id].call;
    if call.Save? then e.actor == "system" else Bears(e, call.user)
  }

  /** An event of this key and kind is among those the step adds. */
  ghost predicate Adds(s: System, step: Step, k: Key, kind: EventKind) {
    exists i :: |s.db.ledger| <= i < |Next(s, step).db.ledger|
                && Next(s, step).db.ledger[i].key == k && Next(s, step).db.ledger[i].kind == kind
  }

  /** What there is occasion to log is logged, and nothing else. */
  lemma LoggedExactly(s: System, step: Step, k: Key, kind: EventKind)
    requires Enabled(s, step)
    ensures Adds(s, step, k, kind) <==> Occasion(s, step, k, kind)
  {
    if Adds(s, step, k, kind) {
      var i :| |s.db.ledger| <= i < |Next(s, step).db.ledger|
               && Next(s, step).db.ledger[i].key == k && Next(s, step).db.ledger[i].kind == kind;
      StepIsEntitled(s, step, i);
    }
    if Occasion(s, step, k, kind) { OccasionIsTaken(s, step, k, kind); }
  }

  lemma OccasionIsTaken(s: System, step: Step, k: Key, kind: EventKind)
    requires Enabled(s, step) && Occasion(s, step, k, kind)
    ensures Adds(s, step, k, kind)
  {
    var p, n, n' := s.calls[step.id], |s.db.ledger|, |Next(s, step).db.ledger|;
    if p.call.Approve? { LogsExactly(s.db, k, p.call.user, p.call.role, p.call.actorType, step.at); }
    var i := if kind.DecisionMade? || kind.ScriptRolledBack? then n' - 1 else n;
    assert Next(s, step).db.ledger[i].key == k && Next(s, step).db.ledger[i].kind == kind;
  }

  lemma StepIsEntitled(s: System, step: Step, i: nat)
    requires Enabled(s, step) && |s.db.ledger| <= i < |Next(s, step).db.ledger|
    ensures Entitled(s, step, Next(s, step).db.ledger[i])
  {
    var p := s.calls[step.id];
    var more := TransactionFrame(s.db, p, step.at, step.at2);
    assert Next(s, step).db.ledger[i] == more[i - |s.db.ledger|];
    if p.call.Approve? { LogsExactly(s.db, p.call.key, p.call.user, p.call.role, p.call.actorType, step.at); }
  }

  /** The n-th step logged the i-th event of the run's ledger, and was entitled to. */
  predicate LoggedBy(steps: seq<Step>, n: nat, i: nat) {
    && n < |steps|
    && |Execute(INITIAL, steps[..n]).db.ledger| <= i < |Execute(INITIAL, steps[..n + 1]).db.ledger|
    && i < |Execute(INITIAL, steps).db.ledger|
    && Entitled(Execute(INITIAL, steps[..n]), steps[n], Execute(INITIAL, steps).db.ledger[i])
  }

  predicate Holds(steps: seq<Step>, i: nat) { IsRun(INITIAL, steps) && i < |Execute(INITIAL, steps).db.ledger| }

  lemma LoggedEarlier(steps: seq<Step>, n: nat, i: nat)
    requires IsRun(INITIAL, steps) && steps != [] && LoggedBy(steps[..|steps| - 1], n, i)
    ensures LoggedBy(steps, n, i)
  {
    var before := steps[..|steps| - 1];
    LedgerOnlyGrows(INITIAL, before, steps);
    assert before[..n] == steps[..n] && before[..n + 1] == steps[..n + 1];
  }

  lemma LoggedLast(steps: seq<Step>, i: nat)
    requires Holds(steps, i) && steps != [] && |Execute(INITIAL, steps[..|steps| - 1]).db.ledger| <= i
    ensures LoggedBy(steps, |steps| - 1, i)
  {
    assert steps[..|steps| - 1 + 1] == steps;
    StepIsEntitled(Execute(INITIAL, steps[..|steps| - 1]), steps[|steps| - 1], i);
  }

  /** Every event of every run was logged by a call entitled to it on the tables it found: an
    * approval by somebody permitted to approve the draft then stored. */
  lemma {:induction false} EveryEventIsEntitled(steps: seq<Step>, i: nat) returns (n: nat)
    requires Holds(steps, i)
    ensures LoggedBy(steps, n, i)
    decreases |steps|
  {
    assert steps != [];
    var before := steps[..|steps| - 1];
    if i < |Execute(INITIAL, before).db.ledger| {
      n := EveryEventIsEntitled(before, i);
      LoggedEarlier(steps, n, i);
    } else {
      n := |steps| - 1;
      LoggedLast(steps, i);
    }
  }

  /** An approval that is not older than the row's latest proposal was given by somebody
    * permitted to approve the draft the row holds now. */
  lemma CurrentApprovalsArePermitted(steps: seq<Step>, k: Key, i: nat) returns (n: nat)
    requires Holds(steps, i) && k in Execute(INITIAL, steps).db.rows
    requires var ledger := Execute(INITIAL, steps).db.ledger; Current(ledger, k, i) && IsApproval(ledger[i], k)
    ensures LoggedBy(steps, n, i)
    ensures var p := Execute(INITIAL, steps[..n]).calls[steps[n].id];
            p.call.Approve? && Permitted(Execute(INITIAL, steps).db.rows[k].draft, p.call.role, p.call.actorType)
  {
    n := EveryEventIsEntitled(steps, i);
    var s := Execute(INITIAL, steps[..n]);
    var ledger := Execute(INITIAL, steps).db.ledger;
    SuffixIsRun(steps, n);
    LedgerOnlyGrows(INITIAL, steps[..n], steps);
    LoggedAlone(steps, n, i);
    forall j | |s.db.ledger| <= j < |ledger| ensures !IsProposal(ledger[j], k) { assert j >= i; }
    UnsavedKeepsDraft(s, steps[n..], k);
  }

  lemma ApprovalIsAlone(s: System, step: Step, e: Event)
    requires Entitled(s, step, e) && e.kind == ApprovalGiven
    ensures |Next(s, step).db.ledger| == |s.db.ledger| + 1
  {
    var p := s.calls[step.id];
    LogsExactly(s.db, p.call.key, p.call.user, p.call.role, p.call.actorType, step.at);
  }

  lemma LoggedAlone(steps: seq<Step>, n: nat, i: nat)
    requires LoggedBy(steps, n, i) && Execute(INITIAL, steps).db.ledger[i].kind == ApprovalGiven
    ensures i == |Execute(INITIAL, steps[..n]).db.ledger|
  {
    assert steps[..n + 1][..n] == steps[..n];
    ApprovalIsAlone(Execute(INITIAL, steps[..n]), steps[n], Execute(INITIAL, steps).db.ledger[i]);
  }

  predicate TwoApprovals(db: Db, k: Key, i: nat, j: nat) {
    && k in db.rows && i < |db.ledger| && j < |db.ledger|
    && IsApproval(db.ledger[i], k) && IsApproval(db.ledger[j], k)
    && (NeedsTwo(db.rows[k].draft) ==> db.ledger[i].actor != db.ledger[j].actor)
  }

  lemma ApprovedByTwo(db: Db, k: Key) returns (i: nat, j: nat)
    requires k in db.rows && db.rows[k].status == Approved && ApprovalIsSound(db, k)
    ensures TwoApprovals(db, k, i, j) && Current(db.ledger, k, i) && Current(db.ledger, k, j)
  {
    i, j :| && 0 <= i < |db.ledger| && 0 <= j < |db.ledger|
            && Current(db.ledger, k, i) && Current(db.ledger, k, j)
            && IsApproval(db.ledger[i], k) && IsApproval(db.ledger[j], k)
            && (db.rows[k].draft.Action() == DualApproval ==> db.ledger[i].actor != db.ledger[j].actor);
  }

  predicate IsRisky(d: Draft) { d.decision.None? || d.decision.value.risk == High || d.decision.value.blastRadius > 0 }

  /** The n-th step logged the i-th event, an approval by a human admin. */
  predicate ByAdmin(steps: seq<Step>, n: nat, i: nat) {
    && LoggedBy(steps, n, i)
    && var call := Execute(INITIAL, steps[..n]).calls[steps[n].id].call;
    call.Approve? && call.role == "admin" && call.actorType == "human"
  }

  lemma RiskyIsByAdmin(steps: seq<Step>, k: Key, i: nat) returns (n: nat)
    requires Holds(steps, i) && k in Execute(INITIAL, steps).db.rows && IsRisky(Execute(INITIAL, steps).db.rows[k].draft)
    requires var ledger := Execute(INITIAL, steps).db.ledger; Current(ledger, k, i) && IsApproval(ledger[i], k)
    ensures ByAdmin(steps, n, i)
  {
    n := CurrentApprovalsArePermitted(steps, k, i);
  }

  /** Where saves keep apart, what is undecided, of high risk, or reaches other devices is approved
    * by admins only: the approvals its quorum rests on were all given by one. */
  lemma RiskyNeedsAdmins(steps: seq<Step>, k: Key) returns (i: nat, j: nat, n: nat, m: nat)
    requires IsDisciplinedRun(INITIAL, steps) && k in Execute(INITIAL, steps).db.rows
    requires Execute(INITIAL, steps).db.rows[k].status == Approved && IsRisky(Execute(INITIAL, steps).db.rows[k].draft)
    ensures TwoApprovals(Execute(INITIAL, steps).db, k, i, j)
    ensures ByAdmin(steps, n, i) && ByAdmin(steps, m, j)
  {
    QuorumSafety(steps, k);
    DisciplinedIsRun(steps);
    i, j := ApprovedByTwo(Execute(INITIAL, steps).db, k);
    n := RiskyIsByAdmin(steps, k, i);
    m := RiskyIsByAdmin(steps, k, j);
  }

  lemma {:induction false} DisciplinedIsRun(steps: seq<Step>)
    requires IsDisciplinedRun(INITIAL, steps)
    ensures IsRun(INITIAL, steps)
  {
    if steps == [] {
    } else {
      DisciplinedIsRun(steps[..|steps| - 1]);
    }
  }
}
