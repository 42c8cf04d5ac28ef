/** When exactly overlapping calls break the two-person rule. */
module ApprovalConditions {
  import opened Common
  import opened ApprovalMatrix
  import opened RemediationDb
  import opened ApprovalProtocol
  import opened ApprovalSafety
  import opened ApprovalConcurrency
  import opened ApprovalStore

  // ------------------------------------------------------- one caller after the fact

  /** Somebody else's approval of k is on record that is not older than the given instant. */
  ghost predicate CountsAnother(ledger: seq<Event>, k: Key, since: Time, user: string) {
    exists e :: e in ledger && IsApproval(e, k) && e.at >= since && e.actor != user
  }

  /** Nobody but this caller approved the current version of k. */
  ghost predicate NobodyElse(ledger: seq<Event>, k: Key, user: string) {
    forall i :: Current(ledger, k, i) && IsApproval(ledger[i], k) ==> ledger[i].actor == RecordedActor(user)
  }

  lemma CompletesExactly(db: Db, k: Key, user: string, role: string, actorType: string, at: Time)
    requires k in db.rows && db.rows[k].draft.Action() == DualApproval
    requires RecordTx(db, k, user, role, actorType, at).1.Recorded?
    ensures DualApprovalSatisfied(DualApproval, RecordTx(db, k, user, role, actorType, at).1.prior, user)
            <==> CountsAnother(db.ledger, k, db.rows[k].updatedAt, user)
  {
    var prior := PriorActors(db.ledger, k, db.rows[k].updatedAt);
    QuorumNamesAnother(prior, user);
    if CountsAnother(db.ledger, k, db.rows[k].updatedAt, user) {
      var e :| e in db.ledger && IsApproval(e, k) && e.at >= db.rows[k].updatedAt && e.actor != user;
      assert e.actor in prior;
    }
  }

  /** The row waits for two people and only this caller approved its version. */
  ghost predicate AwaitsAnother(db: Db, k: Key, user: string) {
    && k in db.rows
    && db.rows[k].draft.preflight == Safe && db.rows[k].draft.Action() == DualApproval
    && db.rows[k].status != Approved
    && HasProposal(db.ledger, k) && NobodyElse(db.ledger, k, user)
  }

  predicate MayApprove(d: Draft, role: string, actorType: string) {
    CheckPermission(role, d.Action(), d.Risk(), d.BlastRadius(), actorType).None?
  }

  /** A further approval by that caller alone completes the rule, and then without a second
    * approver, exactly when somebody else's approval is stamped at or after updated_at. */
  lemma OneCallerBreaksItExactly(db: Db, k: Key, user: string, comment: Option<string>, role: string, actorType: string,
                                 now: Time, at: Time)
    requires AwaitsAnother(db, k, user) && MayApprove(db.rows[k].draft, role, actorType)
    ensures var db' := ApproveCall(db, k, true, user, comment, role, actorType, now, at).0;
            k in db'.rows && (ApprovalIsSound(db', k) <==> !CountsAnother(db.ledger, k, db.rows[k].updatedAt, user))
  {
    var e := Event(k, ApprovalGiven, RecordedActor(user), at);
    var db' := ApproveCall(db, k, true, user, comment, role, actorType, now, at).0;
    CompletesExactly(db, k, user, role, actorType, at);
    assert db'.ledger == db.ledger + [e] + [] == db.ledger + [e];
    OnlyOneApprover(db.ledger, e, k, user);
  }

  lemma OnlyOneApprover(ledger: seq<Event>, e: Event, k: Key, user: string)
    requires NobodyElse(ledger, k, user) && IsApproval(e, k) && e.actor == RecordedActor(user)
    ensures !Sanctioned(ledger + [e], k, DualApproval, |ledger + [e]|)
  {
    forall i | Current(ledger + [e], k, i) && IsApproval((ledger + [e])[i], k)
      ensures (ledger + [e])[i].actor == RecordedActor(user)
    {
      if i < |ledger| { CurrentGrows(ledger, [e], k, i); }
    }
  }

  /** So after a save: it leaves a version that one caller alone gets approved exactly when the
    * ledger already holds somebody else's approval stamped at or after the save's updated_at. */
  lemma SaveIsUnsafeExactly(db: Db, k: Key, d: Draft, updatedAt: Time, savedAt: Time, savedAt2: Time,
                            user: string, comment: Option<string>, role: string, actorType: string, now: Time, at: Time)
    requires d.preflight == Safe && d.Action() == DualApproval && MayApprove(d, role, actorType)
    ensures var saved := SaveTx(db, k, d, updatedAt, savedAt, savedAt2);
            var db' := ApproveCall(saved, k, true, user, comment, role, actorType, now, at).0;
            k in db'.rows && (ApprovalIsSound(db', k) <==> !CountsAnother(db.ledger, k, updatedAt, user))
  {
    var saved := SaveTx(db, k, d, updatedAt, savedAt, savedAt2);
    SavedIsUnapproved(db, k, d, updatedAt, savedAt, savedAt2, user);
    OneCallerBreaksItExactly(saved, k, user, comment, role, actorType, now, at);
  }

  lemma SavedIsUnapproved(db: Db, k: Key, d: Draft, updatedAt: Time, savedAt: Time, savedAt2: Time, user: string)
    ensures var saved := SaveTx(db, k, d, updatedAt, savedAt, savedAt2);
            && HasProposal(saved.ledger, k)
            && (forall i :: Current(saved.ledger, k, i) ==> i >= |db.ledger| && !IsApproval(saved.ledger[i], k))
            && (CountsAnother(saved.ledger, k, updatedAt, user) <==> CountsAnother(db.ledger, k, updatedAt, user))
  {
    var saved := SaveTx(db, k, d, updatedAt, savedAt, savedAt2);
    var n := |db.ledger|;
    assert IsProposal(saved.ledger[n], k);
    forall i | Current(saved.ledger, k, i) ensures i >= n && !IsApproval(saved.ledger[i], k) {}
    var more := saved.ledger[n..];
    assert saved.ledger == db.ledger + more;
    assert forall e :: e in saved.ledger <==> e in db.ledger || e in more;
    assert forall e :: e in more ==> !IsApproval(e, k);
  }

  /** And after a reject, which sets updated_at to the instant its call began. */
  lemma RejectIsUnsafeExactly(db: Db, k: Key, rejecter: string, reason: Option<string>, began: Time, rejectedAt: Time,
                              user: string, comment: Option<string>, role: string, actorType: string, now: Time, at: Time)
    requires k in db.rows && db.rows[k].draft.preflight == Safe && db.rows[k].draft.Action() == DualApproval
    requires HasProposal(db.ledger, k) && NobodyElse(db.ledger, k, user) && MayApprove(db.rows[k].draft, role, actorType)
    ensures var rejected := FinalizeTx(db, k, false, rejecter, reason, began, rejectedAt).0;
            var db' := ApproveCall(rejected, k, true, user, comment, role, actorType, now, at).0;
            k in db'.rows && (ApprovalIsSound(db', k) <==> !CountsAnother(db.ledger, k, began, user))
  {
    var rejected := FinalizeTx(db, k, false, rejecter, reason, began, rejectedAt).0;
    var e := Event(k, RejectionGiven, RecordedActor(rejecter), rejectedAt);
    assert rejected.ledger == db.ledger + [e];
    LedgerGrows(db.ledger, [e], k, DualApproval, began);
    forall i | Current(rejected.ledger, k, i) && IsApproval(rejected.ledger[i], k)
      ensures rejected.ledger[i].actor == RecordedActor(user)
    {
      CurrentGrows(db.ledger, [e], k, i);
    }
    assert CountsAnother(rejected.ledger, k, began, user) <==> CountsAnother(db.ledger, k, began, user) by {
      assert forall x :: x in rejected.ledger <==> x in db.ledger || x == e;
    }
    OneCallerBreaksItExactly(rejected, k, user, comment, role, actorType, now, at);
  }

  // ------------------------------------------------------------- which approvals count

  /** On a strictly increasing clock the events stamped at or after the instant a call began
    * are exactly those recorded since: only an approval that overlaps a save or reject is
    * counted for the wrong version. */
  lemma {:induction false} StampedSinceIsRecordedSince(steps: seq<Step>, n: nat, i: nat)
    requires IsRun(INITIAL, steps) && n < |steps| && steps[n].Begin?
    requires i < |Execute(INITIAL, steps).db.ledger|
    ensures Execute(INITIAL, steps).db.ledger[i].at >= steps[n].now
            <==> i >= |Execute(INITIAL, steps[..n]).db.ledger|
    decreases |steps|
  {
    var before, step := steps[..|steps| - 1], steps[|steps| - 1];
    var s, t := Execute(INITIAL, before), Execute(INITIAL, steps);
    PrefixIsRun(INITIAL, steps, n);
    RunKeepsClock(INITIAL, before);
    if n == |before| {
      assert steps[..n] == before;
    } else {
      assert before[..n] == steps[..n] && before[n] == steps[n];
      ClockSince(before, n);
      if i < |s.db.ledger| {
        StampedSinceIsRecordedSince(before, n, i);
        if step.Commit? { var more := TransactionFrame(s.db, s.calls[step.id], step.at, step.at2); }
      } else {
        var more := TransactionFrame(s.db, s.calls[step.id], step.at, step.at2);
        assert t.db.ledger[i] == more[i - |s.db.ledger|];
        assert steps[..n] <= before;
        LedgerOnlyGrows(INITIAL, steps[..n], before);
      }
    }
  }

  lemma {:induction false} ClockSince(steps: seq<Step>, n: nat)
    requires IsRun(INITIAL, steps) && n < |steps| && steps[n].Begin?
    ensures steps[n].now <= Execute(INITIAL, steps).clock
    decreases |steps|
  {
    var before := steps[..|steps| - 1];
    if n < |before| {
      assert before[n] == steps[n];
      ClockSince(before, n);
    }
  }

  // ------------------------------------------------ a finalisation that comes too late

  ghost predicate SavedSince(earlier: seq<Event>, later: seq<Event>, k: Key) {
    exists i :: |earlier| <= i < |later| && IsProposal(later[i], k)
  }

  /** No row is approved that did not pass its preflight. */
  ghost predicate ApprovedIsSafe(db: Db) {
    forall k :: k in db.rows && db.rows[k].status == Approved ==> db.rows[k].draft.preflight == Safe
  }

  lemma StepApprovesSafe(s: System, step: Step)
    requires ApprovedIsSafe(s.db) && Enabled(s, step)
    ensures ApprovedIsSafe(Next(s, step).db)
  {
  }

  lemma {:induction false} RunApprovesSafe(s: System, steps: seq<Step>)
    requires ApprovedIsSafe(s.db) && IsRun(s, steps)
    ensures ApprovedIsSafe(Execute(s, steps).db)
  {
    if steps == [] {
    } else {
      var before := steps[..|steps| - 1];
      RunApprovesSafe(s, before);
      StepApprovesSafe(Execute(s, before), steps[|steps| - 1]);
    }
  }

  /** From db on, nothing proposed k anew and k's row, if it is still there, kept its draft. */
  ghost predicate KeptDraft(db: Db, db': Db, k: Key) {
    && db.ledger <= db'.ledger && !SavedSince(db.ledger, db'.ledger, k)
    && (k in db'.rows ==> k in db.rows && db'.rows[k].draft == db.rows[k].draft)
  }

  lemma {:induction false} UnsavedKeepsDraft(s: System, steps: seq<Step>, k: Key)
    requires IsRun(s, steps) && !SavedSince(s.db.ledger, Execute(s, steps).db.ledger, k)
    ensures KeptDraft(s.db, Execute(s, steps).db, k)
  {
    if steps == [] {
    } else {
      var before, step := steps[..|steps| - 1], steps[|steps| - 1];
      var t := Execute(s, before);
      var more := StepLedger(t, step);
      LedgerOnlyGrows(s, [], before);
      UnsavedEarlier(s.db.ledger, t.db.ledger, more, k);
      UnsavedKeepsDraft(s, before, k);
      StepKeepsDraft(t, step, more, k);
    }
  }

  lemma UnsavedEarlier(first: seq<Event>, second: seq<Event>, more: seq<Event>, k: Key)
    requires first <= second && !SavedSince(first, second + more, k)
    ensures !SavedSince(first, second, k) && NoProposal(more, k)
  {
    var all := second + more;
    forall i | |first| <= i < |second| ensures !IsProposal(second[i], k) { assert all[i] == second[i]; }
    forall i | 0 <= i < |more| ensures !IsProposal(more[i], k) { assert all[|second| + i] == more[i]; }
  }

  lemma StepLedger(s: System, step: Step) returns (more: seq<Event>)
    requires Enabled(s, step)
    ensures Next(s, step).db.ledger == s.db.ledger + more
    ensures step.Commit? && s.calls[step.id].call.Save? ==>
              exists i :: 0 <= i < |more| && IsProposal(more[i], s.calls[step.id].call.key)
  {
    if step.Commit? {
      var p := s.calls[step.id];
      more := TransactionFrame(s.db, p, step.at, step.at2);
      if p.call.Save? {
        assert IsProposal(Next(s, step).db.ledger[|s.db.ledger|], p.call.key);
        assert more[0] == Next(s, step).db.ledger[|s.db.ledger|];
      }
    } else {
      more := [];
    }
  }

  lemma StepKeepsDraft(s: System, step: Step, more: seq<Event>, k: Key)
    requires Enabled(s, step) && Next(s, step).db.ledger == s.db.ledger + more && NoProposal(more, k)
    requires step.Commit? && s.calls[step.id].call.Save? ==>
               exists i :: 0 <= i < |more| && IsProposal(more[i], s.calls[step.id].call.key)
    ensures k in Next(s, step).db.rows ==> k in s.db.rows && Next(s, step).db.rows[k].draft == s.db.rows[k].draft
  {
    if step.Commit? {
      var more' := TransactionFrame(s.db, s.calls[step.id], step.at, step.at2);
    }
  }

  /** An approval that counted its quorum is in flight, and from there on anything may
    * happen, as long as nobody approves a version saved meanwhile. Its finalisation leaves a
    * sound row exactly unless a version that passed its preflight was saved meanwhile. */
  lemma LateFinalisationIsSoundExactly(steps: seq<Step>, n: nat, id: nat, at: Time, at2: Time)
    requires n <= |steps| && IsRun(INITIAL, steps) && IsDisciplinedRun(INITIAL, steps[..n])
    requires var s, t := Execute(INITIAL, steps[..n]), Execute(INITIAL, steps);
             && id in s.calls && s.calls[id].call.Approve? && s.calls[id].counted
             && id in t.calls && t.calls[id] == s.calls[id] && Enabled(t, Commit(id, at, at2))
             && var k := s.calls[id].call.key;
             && k in t.db.rows
             && (SavedSince(s.db.ledger, t.db.ledger, k) ==>
                   forall i :: Current(t.db.ledger, k, i) ==> !IsApproval(t.db.ledger[i], k))
    ensures var s, t := Execute(INITIAL, steps[..n]), Execute(INITIAL, steps);
            var k, db' := s.calls[id].call.key, Next(t, Commit(id, at, at2)).db;
            k in db'.rows
            && (ApprovalIsSound(db', k) <==>
                !(SavedSince(s.db.ledger, t.db.ledger, k) && t.db.rows[k].draft.preflight == Safe))
  {
    var s, t := Execute(INITIAL, steps[..n]), Execute(INITIAL, steps);
    var p := s.calls[id];
    var k := p.call.key;
    RunKeepsInv(INITIAL, steps[..n]);
    RunApprovesSafe(INITIAL, steps);
    assert CallInv(s.db, p);
    assert Next(t, Commit(id, at, at2)).db == FinalizeTx(t.db, k, true, p.call.user, p.call.comment, p.now, at).0;
    if !SavedSince(s.db.ledger, t.db.ledger, k) {
      SuffixIsRun(steps, n);
      UnsavedKeepsDraft(s, steps[n..], k);
      UnsavedFinalisationIsSound(s.db, t.db, k, p.call.user, p.call.comment, p.now, at);
    } else {
      SavedFinalisationExactly(t.db, k, p.call.user, p.call.comment, p.now, at);
    }
  }

  lemma UnsavedFinalisationIsSound(db: Db, later: Db, k: Key, user: string, comment: Option<string>, now: Time, at: Time)
    requires KeptDraft(db, later, k) && k in later.rows
    requires db.rows[k].draft.preflight == Safe && db.rows[k].draft.Action() != Block
    requires Sanctioned(db.ledger, k, db.rows[k].draft.Action(), |db.ledger|)
    ensures var db' := FinalizeTx(later, k, true, user, comment, now, at).0;
            k in db'.rows && ApprovalIsSound(db', k)
  {
    var more := later.ledger[|db.ledger|..];
    assert later.ledger == db.ledger + more;
    forall i | 0 <= i < |more| ensures !IsProposal(more[i], k) { assert later.ledger[|db.ledger| + i] == more[i]; }
    SanctionedGrows(db.ledger, more, k, db.rows[k].draft.Action(), |db.ledger|, |later.ledger|);
    assert later.ledger + [] == later.ledger;
  }

  lemma SavedFinalisationExactly(db: Db, k: Key, user: string, comment: Option<string>, now: Time, at: Time)
    requires ApprovedIsSafe(db) && k in db.rows
    requires forall i :: Current(db.ledger, k, i) ==> !IsApproval(db.ledger[i], k)
    ensures var db' := FinalizeTx(db, k, true, user, comment, now, at).0;
            k in db'.rows && (ApprovalIsSound(db', k) <==> db.rows[k].draft.preflight != Safe)
  {
    assert db.ledger + [] == db.ledger;
  }

  lemma {:induction false} SuffixIsRun(steps: seq<Step>, n: nat)
    requires IsRun(INITIAL, steps) && n <= |steps|
    ensures IsRun(Execute(INITIAL, steps[..n]), steps[n..])
    ensures Execute(Execute(INITIAL, steps[..n]), steps[n..]) == Execute(INITIAL, steps)
    decreases |steps|
  {
    if n == |steps| {
      assert steps[..n] == steps && steps[n..] == [];
    } else {
      var before := steps[..|steps| - 1];
      assert before[..n] == steps[..n];
      assert steps[n..][..|steps[n..]| - 1] == before[n..];
      SuffixIsRun(before, n);
    }
  }

  /** In particular a finalisation right after a save is sound exactly if the saved version
    * did not pass its preflight, whatever was approved before. */
  lemma FinalisedAfterSaveExactly(db: Db, k: Key, d: Draft, updatedAt: Time, savedAt: Time, savedAt2: Time,
                                  user: string, comment: Option<string>, now: Time, at: Time)
    ensures var saved := SaveTx(db, k, d, updatedAt, savedAt, savedAt2);
            var db' := FinalizeTx(saved, k, true, user, comment, now, at).0;
            k in db'.rows && (ApprovalIsSound(db', k) <==> d.preflight != Safe)
  {
    var saved := SaveTx(db, k, d, updatedAt, savedAt, savedAt2);
    SavedIsUnapproved(db, k, d, updatedAt, savedAt, savedAt2, user);
    assert saved.ledger + [] == saved.ledger;
  }
}
