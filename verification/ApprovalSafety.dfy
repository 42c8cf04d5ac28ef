/** Quorum safety and lifecycle of every remediation row, over all runs. */
module ApprovalSafety {
  import opened Common
  import opened ApprovalMatrix
  import opened RemediationDb
  import opened ApprovalProtocol

  // ------------------------------------------------------- the inductive invariant

  /** Approvals given to an older version of k carry a timestamp below t. */
  ghost predicate StaleBefore(ledger: seq<Event>, k: Key, t: Time) {
    forall i :: 0 <= i < |ledger| && IsApproval(ledger[i], k) && !Current(ledger, k, i) ==> ledger[i].at < t
  }

  ghost predicate AllApprovalsBefore(ledger: seq<Event>, k: Key, t: Time) {
    forall i :: 0 <= i < |ledger| && IsApproval(ledger[i], k) ==> ledger[i].at < t
  }

  ghost predicate HasProposal(ledger: seq<Event>, k: Key) {
    exists i :: 0 <= i < |ledger| && IsProposal(ledger[i], k)
  }

  ghost predicate RowInv(db: Db, k: Key)
    requires k in db.rows
  {
    var row := db.rows[k];
    && HasProposal(db.ledger, k)
    && ApprovalIsSound(db, k)
    && LifecycleIsSound(db, k)
    && (|| Sanctioned(db.ledger, k, row.draft.Action(), |db.ledger|)
        || StaleBefore(db.ledger, k, row.updatedAt))
  }

  ghost predicate CallInv(db: Db, p: InFlight) {
    match p.call
    case Save(k, _) => AllApprovalsBefore(db.ledger, k, p.now)
    case Reject(k, _, _) => StaleBefore(db.ledger, k, p.now)
    case Approve(k, user, _, _, _) =>
      && user != ""
      && (p.counted && k in db.rows ==>
            && db.rows[k].draft.preflight == Safe
            && db.rows[k].draft.Action() != Block
            && Sanctioned(db.ledger, k, db.rows[k].draft.Action(), |db.ledger|))
    case _ => true
  }

  ghost predicate ClockInv(s: System) {
    && (forall i :: 0 <= i < |s.db.ledger| ==> s.db.ledger[i].at <= s.clock)
    && (forall k :: k in s.db.rows ==> s.db.rows[k].updatedAt <= s.clock)
    && (forall id :: id in s.calls ==> s.calls[id].now <= s.clock)
  }

  ghost predicate SavesApart(calls: map<nat, InFlight>) {
    forall i, j :: i in calls && j in calls && calls[i].call.Save? && Decides(calls[j].call)
                   ==> calls[i].call.key != calls[j].call.key
  }

  ghost predicate Inv(s: System) {
    && ClockInv(s)
    && SavesApart(s.calls)
    && (forall k :: k in s.db.rows ==> RowInv(s.db, k))
    && (forall id :: id in s.calls ==> CallInv(s.db, s.calls[id]))
  }

  // ------------------------------------------------------------- ledger reasoning

  ghost predicate NoProposal(events: seq<Event>, k: Key) {
    forall i :: 0 <= i < |events| ==> !IsProposal(events[i], k)
  }

  lemma CurrentGrows(ledger: seq<Event>, more: seq<Event>, k: Key, i: int)
    requires NoProposal(more, k)
    requires 0 <= i < |ledger|
    ensures Current(ledger, k, i) <==> Current(ledger + more, k, i)
  {
    var all := ledger + more;
    if Current(ledger, k, i) {
      forall j | i < j < |all| ensures !IsProposal(all[j], k) {
        if j < |ledger| { assert all[j] == ledger[j]; } else { assert all[j] == more[j - |ledger|]; }
      }
    }
    if Current(all, k, i) {
      forall j | i < j < |ledger| ensures !IsProposal(ledger[j], k) { assert all[j] == ledger[j]; }
    }
  }

  lemma SanctionedGrows(ledger: seq<Event>, more: seq<Event>, k: Key, action: Action, upto: nat, upto': nat)
    requires NoProposal(more, k)
    requires upto <= upto' && upto <= |ledger|
    requires Sanctioned(ledger, k, action, upto)
    ensures Sanctioned(ledger + more, k, action, upto')
  {
    var i, j :|
      && 0 <= i < upto && 0 <= j < upto
      && Current(ledger, k, i) && Current(ledger, k, j)
      && IsApproval(ledger[i], k) && IsApproval(ledger[j], k)
      && (action == DualApproval ==> ledger[i].actor != ledger[j].actor);
    CurrentGrows(ledger, more, k, i);
    CurrentGrows(ledger, more, k, j);
    assert (ledger + more)[i] == ledger[i] && (ledger + more)[j] == ledger[j];
  }

  lemma StaleGrows(ledger: seq<Event>, more: seq<Event>, k: Key, t: Time)
    requires NoProposal(more, k)
    requires StaleBefore(ledger, k, t)
    ensures StaleBefore(ledger + more, k, t)
  {
    var all := ledger + more;
    forall i | 0 <= i < |all| && IsApproval(all[i], k) && !Current(all, k, i) ensures all[i].at < t {
      assert i < |ledger| by {
        assert forall j :: |ledger| <= j < |all| ==> all[j] == more[j - |ledger|];
      }
      CurrentGrows(ledger, more, k, i);
      assert all[i] == ledger[i];
    }
  }

  lemma AppliedGrows(ledger: seq<Event>, more: seq<Event>, k: Key, action: Action)
    requires NoProposal(more, k)
    requires AppliedAfterApproval(ledger, k, action)
    ensures AppliedAfterApproval(ledger + more, k, action)
    ensures Sanctioned(ledger + more, k, action, |ledger + more|)
  {
    var a :| Current(ledger, k, a) && IsApplication(ledger[a], k) && Sanctioned(ledger, k, action, a);
    CurrentGrows(ledger, more, k, a);
    SanctionedGrows(ledger, more, k, action, a, a);
    SanctionedGrows(ledger, more, k, action, a, |ledger + more|);
    assert (ledger + more)[a] == ledger[a];
  }

  lemma AppliedNow(ledger: seq<Event>, e: Event, k: Key, action: Action)
    requires IsApplication(e, k)
    requires Sanctioned(ledger, k, action, |ledger|)
    ensures AppliedAfterApproval(ledger + [e], k, action)
  {
    var n := |ledger|;
    SanctionedGrows(ledger, [e], k, action, n, n);
    assert (ledger + [e])[n] == e && Current(ledger + [e], k, n);
  }

  /** What k's row may rely on after its ledger grew without a proposal of k. */
  lemma LedgerGrows(ledger: seq<Event>, more: seq<Event>, k: Key, action: Action, t: Time)
    requires NoProposal(more, k)
    ensures HasProposal(ledger, k) ==> HasProposal(ledger + more, k)
    ensures Sanctioned(ledger, k, action, |ledger|) ==> Sanctioned(ledger + more, k, action, |ledger + more|)
    ensures AppliedAfterApproval(ledger, k, action) ==>
              && AppliedAfterApproval(ledger + more, k, action)
              && Sanctioned(ledger + more, k, action, |ledger + more|)
    ensures StaleBefore(ledger, k, t) ==> StaleBefore(ledger + more, k, t)
  {
    if HasProposal(ledger, k) {
      var i :| 0 <= i < |ledger| && IsProposal(ledger[i], k);
      assert IsProposal((ledger + more)[i], k);
    }
    if Sanctioned(ledger, k, action, |ledger|) { SanctionedGrows(ledger, more, k, action, |ledger|, |ledger + more|); }
    if AppliedAfterApproval(ledger, k, action) { AppliedGrows(ledger, more, k, action); }
    if StaleBefore(ledger, k, t) { StaleGrows(ledger, more, k, t); }
  }

  /** Growing the ledger without a proposal of k keeps k's row sound. */
  lemma RowGrows(db: Db, db': Db, more: seq<Event>, k: Key)
    requires NoProposal(more, k)
    requires db'.ledger == db.ledger + more
    requires k in db.rows && k in db'.rows && db'.rows[k] == db.rows[k]
    requires RowInv(db, k)
    ensures RowInv(db', k)
  {
    LedgerGrows(db.ledger, more, k, db.rows[k].draft.Action(), db.rows[k].updatedAt);
  }

  lemma CallGrows(db: Db, db': Db, more: seq<Event>, p: InFlight)
    requires Decides(p.call) ==> NoProposal(more, p.call.key)
    requires db'.ledger == db.ledger + more
    requires p.call.Save? ==> forall i :: 0 <= i < |more| ==> !IsApproval(more[i], p.call.key)
    requires Decides(p.call) && p.call.key in db'.rows ==>
               p.call.key in db.rows && db'.rows[p.call.key].draft == db.rows[p.call.key].draft
    requires CallInv(db, p)
    ensures CallInv(db', p)
  {
    match p.call
    case Save(k, _) =>
      forall i | 0 <= i < |db'.ledger| && IsApproval(db'.ledger[i], k) ensures db'.ledger[i].at < p.now {
        assert db'.ledger[i] == db.ledger[i];
      }
    case Reject(k, _, _) => StaleGrows(db.ledger, more, k, p.now);
    case Approve(k, _, _, _, _) =>
      if p.counted && k in db'.rows {
        SanctionedGrows(db.ledger, more, k, db.rows[k].draft.Action(), |db.ledger|, |db'.ledger|);
      }
    case _ =>
  }

  // -------------------------------------------------------- one transaction at a time

  lemma SaveKeepsRow(s: System, p: InFlight, at: Time, at2: Time)
    requires p.call.Save? && CallInv(s.db, p)
    ensures RowInv(SaveTx(s.db, p.call.key, p.call.draft, p.now, at, at2), p.call.key)
  {
    var k, d := p.call.key, p.call.draft;
    var db' := SaveTx(s.db, k, d, p.now, at, at2);
    assert IsProposal(db'.ledger[|s.db.ledger|], k);
    forall i | 0 <= i < |db'.ledger| && IsApproval(db'.ledger[i], k) ensures db'.ledger[i].at < p.now {
      assert i < |s.db.ledger|;
      assert db'.ledger[i] == s.db.ledger[i];
    }
  }

  /** Two approvers of the current version are a quorum of any kind. */
  lemma TwoSanction(ledger: seq<Event>, k: Key, action: Action, i: int, j: int)
    requires Current(ledger, k, i) && Current(ledger, k, j) && IsApproval(ledger[i], k) && IsApproval(ledger[j], k)
    requires action == DualApproval ==> ledger[i].actor != ledger[j].actor
    ensures Sanctioned(ledger, k, action, |ledger|)
  {
  }

  /** Somebody counted besides the caller approved the current version. */
  lemma CountedIsCurrent(db: Db, k: Key, user: string) returns (i: int)
    requires k in db.rows && StaleBefore(db.ledger, k, db.rows[k].updatedAt)
    requires DualApprovalSatisfied(DualApproval, PriorActors(db.ledger, k, db.rows[k].updatedAt), user)
    ensures Current(db.ledger, k, i) && IsApproval(db.ledger[i], k) && db.ledger[i].actor != user
  {
    var prior := PriorActors(db.ledger, k, db.rows[k].updatedAt);
    QuorumNamesAnother(prior, user);
    var a :| a in prior && a != user;
    i :| 0 <= i < |db.ledger| && IsApproval(db.ledger[i], k) && db.ledger[i].actor == a
         && db.ledger[i].at >= db.rows[k].updatedAt;
  }

  /** The counted quorum is a real one, unless the row already had it. */
  lemma RecordFindsQuorum(db: Db, k: Key, user: string, role: string, actorType: string, at: Time)
    requires k in db.rows && RowInv(db, k) && user != ""
    ensures var (db', outcome) := RecordTx(db, k, user, role, actorType, at);
            outcome.Recorded? && DualApprovalSatisfied(outcome.draft.Action(), outcome.prior, user) ==>
              && db.rows[k].draft.preflight == Safe
              && db.rows[k].draft.Action() != Block
              && Sanctioned(db'.ledger, k, db.rows[k].draft.Action(), |db'.ledger|)
  {
    var (db', outcome) := RecordTx(db, k, user, role, actorType, at);
    var action := db.rows[k].draft.Action();
    if outcome.Recorded? && DualApprovalSatisfied(action, outcome.prior, user) {
      var e, n := Event(k, ApprovalGiven, user, at), |db.ledger|;
      assert db'.ledger == db.ledger + [e] && db'.ledger[n] == e && Current(db'.ledger, k, n);
      if Sanctioned(db.ledger, k, action, n) {
        SanctionedGrows(db.ledger, [e], k, action, n, n + 1);
      } else if action == DualApproval {
        var i := CountedIsCurrent(db, k, user);
        CurrentGrows(db.ledger, [e], k, i);
        assert db'.ledger[i] == db.ledger[i];
        TwoSanction(db'.ledger, k, action, i, n);
      } else {
        TwoSanction(db'.ledger, k, action, n, n);
      }
    }
  }

  lemma FinalizeKeepsRow(db: Db, k: Key, user: string, comment: Option<string>, now: Time, at: Time)
    requires k in db.rows && RowInv(db, k)
    requires db.rows[k].draft.preflight == Safe && db.rows[k].draft.Action() != Block
    requires Sanctioned(db.ledger, k, db.rows[k].draft.Action(), |db.ledger|)
    ensures RowInv(FinalizeTx(db, k, true, user, comment, now, at).0, k)
  {
    assert db.ledger + [] == db.ledger;
  }

  lemma RejectKeepsRow(db: Db, k: Key, user: string, comment: Option<string>, now: Time, at: Time)
    requires k in db.rows && RowInv(db, k) && StaleBefore(db.ledger, k, now)
    ensures RowInv(FinalizeTx(db, k, false, user, comment, now, at).0, k)
  {
    var more := [Event(k, RejectionGiven, RecordedActor(user), at)];
    LedgerGrows(db.ledger, more, k, db.rows[k].draft.Action(), now);
  }

  lemma ApplyKeepsRow(db: Db, k: Key, user: string, now: Time, at: Time)
    requires k in db.rows && RowInv(db, k)
    ensures RowInv(ApplyTx(db, k, user, now, at).0, k)
  {
    if db.rows[k].status == Approved {
      var e := Event(k, ScriptApplied, RecordedActor(user), at);
      LedgerGrows(db.ledger, [e], k, db.rows[k].draft.Action(), now);
      AppliedNow(db.ledger, e, k, db.rows[k].draft.Action());
    }
  }

  lemma UndoKeepsRow(db: Db, k: Key, user: string, now: Time, at: Time, at2: Time)
    requires k in db.rows && RowInv(db, k) && db.rows[k].appliedAt.Some?
    ensures RowInv(RollbackTx(db, k, user, false, now, at, at2).0, k)
  {
    var undone := Event(k, ScriptRolledBack(db.rows[k].preChange), RecordedActor(user), at2);
    LedgerGrows(db.ledger, [undone], k, db.rows[k].draft.Action(), now);
    assert db.ledger + [] == db.ledger;
  }

  lemma RollbackKeepsRow(db: Db, k: Key, user: string, failed: bool, now: Time, at: Time, at2: Time)
    requires k in db.rows && RowInv(db, k)
    ensures RowInv(RollbackTx(db, k, user, failed, now, at, at2).0, k)
  {
    var e := if failed then [Event(k, VerificationFailed, RecordedActor(user), at)] else [];
    var logged := db.(ledger := db.ledger + e);
    RowGrows(db, logged, e, k);
    assert logged.ledger + [] == logged.ledger;
    if db.rows[k].appliedAt.Some? { UndoKeepsRow(logged, k, user, now, at, at2); }
  }

  /** What any transaction may write: events of its own key, its own row. */
  lemma TransactionFrame(db: Db, p: InFlight, at: Time, at2: Time) returns (more: seq<Event>)
    requires at < at2
    ensures var db' := RunTransaction(db, p, at, at2).0;
            && db'.ledger == db.ledger + more
            && db'.evaluations == db.evaluations
            && (forall k :: k != p.call.key ==>
                  (k in db'.rows <==> k in db.rows) && (k in db.rows ==> db'.rows[k] == db.rows[k]))
            && (p.call.key in db'.rows ==> p.call.key in db.rows || p.call.Save?)
            && (p.call.key in db.rows ==> p.call.key in db'.rows)
            && (p.call.key in db.rows && !p.call.Save? ==> db'.rows[p.call.key].draft == db.rows[p.call.key].draft)
            && (p.call.key in db'.rows ==>
                  db'.rows[p.call.key].updatedAt == p.now
                  || (p.call.key in db.rows && db'.rows[p.call.key] == db.rows[p.call.key]))
    ensures forall i :: 0 <= i < |more| ==> more[i].key == p.call.key && at <= more[i].at <= at2
    ensures forall i :: 0 <= i < |more| ==> (more[i].kind == RemediationProposed ==> p.call.Save?)
    ensures forall i :: 0 <= i < |more| ==> (more[i].kind == ApprovalGiven ==> p.call.Approve?)
  {
    var db' := RunTransaction(db, p, at, at2).0;
    var k := p.call.key;
    match p.call
    case Save(_, d) =>
      more := [Event(k, RemediationProposed, "system", at)]
              + if d.decision.Some? then [Event(k, DecisionMade, "system", at2)] else [];
    case Approve(_, user, _, _, _) =>
      more := if db'.ledger == db.ledger then [] else [Event(k, ApprovalGiven, RecordedActor(user), at)];
    case Reject(_, user, _) =>
      more := if k in db.rows then [Event(k, RejectionGiven, RecordedActor(user), at)] else [];
    case Apply(_, user) =>
      more := if db'.ledger == db.ledger then [] else [Event(k, ScriptApplied, RecordedActor(user), at)];
    case Rollback(_, user, failed) =>
      more := if failed then [Event(k, VerificationFailed, RecordedActor(user), at)] else [];
      if k in db.rows && db.rows[k].appliedAt.Some? {
        more := more + [Event(k, ScriptRolledBack(db.rows[k].preChange), RecordedActor(user), at2)];
      }
  }

  lemma CommitKeepsRow(s: System, id: nat, at: Time, at2: Time, k: Key)
    requires Inv(s) && id in s.calls && s.clock < at < at2
    requires k in Next(s, Commit(id, at, at2)).db.rows
    ensures RowInv(Next(s, Commit(id, at, at2)).db, k)
  {
    var p := s.calls[id];
    var db' := RunTransaction(s.db, p, at, at2).0;
    var more := TransactionFrame(s.db, p, at, at2);
    if k != p.call.key {
      RowGrows(s.db, db', more, k);
    } else {
      match p.call
      case Save(_, _) => SaveKeepsRow(s, p, at, at2);
      case Approve(_, user, comment, _, _) =>
        if p.counted { FinalizeKeepsRow(s.db, k, user, comment, p.now, at); } else { RowGrows(s.db, db', more, k); }
      case Reject(_, user, comment) => RejectKeepsRow(s.db, k, user, comment, p.now, at);
      case Apply(_, user) => ApplyKeepsRow(s.db, k, user, p.now, at);
      case Rollback(_, user, failed) => RollbackKeepsRow(s.db, k, user, failed, p.now, at, at2);
    }
  }

  lemma CommitKeepsCall(s: System, id: nat, at: Time, at2: Time, other: nat)
    requires Inv(s) && id in s.calls && s.clock < at < at2
    requires other in Next(s, Commit(id, at, at2)).calls
    ensures CallInv(Next(s, Commit(id, at, at2)).db, Next(s, Commit(id, at, at2)).calls[other])
  {
    var p := s.calls[id];
    var (db', rest) := RunTransaction(s.db, p, at, at2);
    var more := TransactionFrame(s.db, p, at, at2);
    if other == id {
      var Approve(k, user, _, role, actorType) := p.call;
      RecordFindsQuorum(s.db, k, user, role, actorType, at);
    } else {
      var q := s.calls[other];
      CallGrows(s.db, db', more, q);
    }
  }

  lemma CommitKeepsClock(s: System, id: nat, at: Time, at2: Time)
    requires ClockInv(s) && id in s.calls && s.clock < at < at2
    ensures ClockInv(Next(s, Commit(id, at, at2)))
  {
    var s' := Next(s, Commit(id, at, at2));
    var more := TransactionFrame(s.db, s.calls[id], at, at2);
    forall i | 0 <= i < |s'.db.ledger| ensures s'.db.ledger[i].at <= s'.clock {
      if i < |s.db.ledger| {
        assert s'.db.ledger[i] == s.db.ledger[i];
      } else {
        assert s'.db.ledger[i] == more[i - |s.db.ledger|];
      }
    }
  }

  lemma BeginKeepsInv(s: System, id: nat, call: Call, now: Time)
    requires var step := Begin(id, call, now);
             Inv(s) && Enabled(s, step) && KeepsSavesApart(s, step) && NamesItsActor(step)
    ensures Inv(Next(s, Begin(id, call, now)))
  {
    var s' := Next(s, Begin(id, call, now));
    forall i | i in s'.calls ensures CallInv(s'.db, s'.calls[i]) {
      if i != id { assert s'.calls[i] == s.calls[i]; }
    }
  }

  lemma StepKeepsInv(s: System, step: Step)
    requires Inv(s) && Enabled(s, step) && KeepsSavesApart(s, step) && NamesItsActor(step)
    ensures Inv(Next(s, step))
  {
    var s' := Next(s, step);
    match step
    case Begin(id, call, now) => BeginKeepsInv(s, id, call, now);
    case Evaluate(run, hash, time) =>
      forall k | k in s'.db.rows ensures RowInv(s'.db, k) {
        assert s'.db.ledger == s.db.ledger + [];
        RowGrows(s.db, s'.db, [], k);
      }
      forall i | i in s'.calls ensures CallInv(s'.db, s'.calls[i]) {
        assert s'.db.ledger == s.db.ledger + [];
        CallGrows(s.db, s'.db, [], s.calls[i]);
      }
    case Commit(id, at, at2) =>
      CommitKeepsClock(s, id, at, at2);
      forall k | k in s'.db.rows ensures RowInv(s'.db, k) { CommitKeepsRow(s, id, at, at2, k); }
      forall i | i in s'.calls ensures CallInv(s'.db, s'.calls[i]) { CommitKeepsCall(s, id, at, at2, i); }
  }

  lemma {:induction false} RunKeepsInv(s: System, steps: seq<Step>)
    requires Inv(s) && IsDisciplinedRun(s, steps)
    ensures Inv(Execute(s, steps))
  {
    if steps == [] {
    } else {
      var before := steps[..|steps| - 1];
      RunKeepsInv(s, before);
      StepKeepsInv(Execute(s, before), steps[|steps| - 1]);
    }
  }

  // ------------------------------------------------------------------ main results

  /** Every row of every reachable state is soundly approved and applied. */
  lemma QuorumSafety(steps: seq<Step>, k: Key)
    requires IsDisciplinedRun(INITIAL, steps)
    requires k in Execute(INITIAL, steps).db.rows
    ensures ApprovalIsSound(Execute(INITIAL, steps).db, k)
    ensures LifecycleIsSound(Execute(INITIAL, steps).db, k)
  {
    RunKeepsInv(INITIAL, steps);
  }

  /** The ledger only ever grows, and a step writes the row of its own key only; an
    * evaluation touches the rows of its own run only. No hypothesis on the run is needed. */
  lemma StepsAreLocal(s: System, step: Step, k: Key)
    requires Enabled(s, step)
    requires step.Commit? ==> s.calls[step.id].call.key != k
    requires step.Evaluate? ==> step.run != k.run
    ensures s.db.ledger <= Next(s, step).db.ledger
    ensures k in s.db.rows <==> k in Next(s, step).db.rows
    ensures k in s.db.rows ==> Next(s, step).db.rows[k] == s.db.rows[k]
    ensures forall i :: |s.db.ledger| <= i < |Next(s, step).db.ledger| ==> Next(s, step).db.ledger[i].key != k
  {
    if step.Commit? {
      var more := TransactionFrame(s.db, s.calls[step.id], step.at, step.at2);
    }
  }

  lemma {:induction false} LedgerOnlyGrows(s: System, earlier: seq<Step>, later: seq<Step>)
    requires IsRun(s, later) && earlier <= later
    ensures Execute(s, earlier).db.ledger <= Execute(s, later).db.ledger
    decreases |later|
  {
    if earlier != later {
      var before := later[..|later| - 1];
      assert earlier <= before;
      LedgerOnlyGrows(s, earlier, before);
      var t, step := Execute(s, before), later[|later| - 1];
      if step.Commit? {
        var more := TransactionFrame(t.db, t.calls[step.id], step.at, step.at2);
      }
    } else {
      assert earlier == later;
    }
  }
}
