/** What a rollback restores, over all runs. */
module ApprovalLifecycle {
  import opened Common
  import opened RemediationDb
  import opened ApprovalProtocol
  import opened ApprovalSafety

  /** The step commits the finalising transaction of an approval of k. */
  predicate Finalises(s: System, step: Step, k: Key) {
    && step.Commit? && step.id in s.calls
    && s.calls[step.id].call.Approve? && s.calls[step.id].counted && s.calls[step.id].call.key == k
    && k in s.db.rows && s.db.rows[k].draft.preflight == Safe
  }

  /** The step evaluates k's run anew, which deletes the proposal. */
  predicate Reevaluates(step: Step, k: Key) { step.Evaluate? && step.run == k.run }

  /** The position at which an approval of k was last finalised, if the run was not
    * evaluated since. */
  function LastFinalised(steps: seq<Step>, k: Key): (i: int)
    ensures -1 <= i < |steps|
  {
    if steps == [] || Reevaluates(steps[|steps| - 1], k) then -1
    else
      var n := |steps| - 1;
      if Finalises(Execute(INITIAL, steps[..n]), steps[n], k) then n else LastFinalised(steps[..n], k)
  }

  /** The i-th step finalises k, and nothing after it finalises k or evaluates k's run. */
  ghost predicate FinalisesLast(steps: seq<Step>, k: Key, i: int) {
    && 0 <= i < |steps| && Finalises(Execute(INITIAL, steps[..i]), steps[i], k)
    && forall j :: i < j < |steps| ==> !Touches(steps, k, j)
  }

  predicate Touches(steps: seq<Step>, k: Key, j: nat)
    requires j < |steps|
  {
    Finalises(Execute(INITIAL, steps[..j]), steps[j], k) || Reevaluates(steps[j], k)
  }

  lemma TouchesBefore(steps: seq<Step>, k: Key, j: nat)
    requires j < |steps| - 1
    ensures Touches(steps[..|steps| - 1], k, j) <==> Touches(steps, k, j)
    ensures steps[..|steps| - 1][..j] == steps[..j] && steps[..|steps| - 1][j] == steps[j]
  {
    assert steps[..|steps| - 1][..j] == steps[..j];
  }

  lemma {:induction false} LastFinalisedIsLast(steps: seq<Step>, k: Key)
    ensures LastFinalised(steps, k) >= 0 ==> FinalisesLast(steps, k, LastFinalised(steps, k))
  {
    if steps == [] || Reevaluates(steps[|steps| - 1], k) {
    } else {
      var n := |steps| - 1;
      LastFinalisedIsLast(steps[..n], k);
      var i := LastFinalised(steps[..n], k);
      if !Finalises(Execute(INITIAL, steps[..n]), steps[n], k) && i >= 0 {
        TouchesBefore(steps, k, i);
        forall j | i < j < |steps| ensures !Touches(steps, k, j) {
          if j < n { TouchesBefore(steps, k, j); }
        }
      }
    }
  }

  /** The hash that approval pinned: the newest evaluation at that moment. */
  function Pinned(steps: seq<Step>, k: Key): Option<Hash> {
    var i := LastFinalised(steps, k);
    if i < 0 then None else NewestHash(Execute(INITIAL, steps[..i]).db.evaluations, k.run)
  }

  lemma PinnedStep(steps: seq<Step>, k: Key)
    requires steps != []
    ensures var before, step := steps[..|steps| - 1], steps[|steps| - 1];
            && (Finalises(Execute(INITIAL, before), step, k) ==>
                  Pinned(steps, k) == NewestHash(Execute(INITIAL, before).db.evaluations, k.run))
            && (Reevaluates(step, k) ==> LastFinalised(steps, k) < 0)
            && (!Finalises(Execute(INITIAL, before), step, k) && !Reevaluates(step, k) ==>
                  Pinned(steps, k) == Pinned(before, k)
                  && (LastFinalised(steps, k) < 0 <==> LastFinalised(before, k) < 0))
  {
    var before := steps[..|steps| - 1];
    var i := LastFinalised(before, k);
    if i >= 0 { assert before[..i] == steps[..i]; }
  }

  /** The row always carries the hash its last finalised approval pinned, even
    * across rejections and regenerations. */
  lemma {:induction false} RowCarriesPinned(steps: seq<Step>, k: Key)
    requires IsRun(INITIAL, steps)
    requires k in Execute(INITIAL, steps).db.rows
    ensures Execute(INITIAL, steps).db.rows[k].preChange == Pinned(steps, k)
    ensures Execute(INITIAL, steps).db.rows[k].status == Approved ==> LastFinalised(steps, k) >= 0
    ensures Execute(INITIAL, steps).db.rows[k].appliedAt.Some? ==> LastFinalised(steps, k) >= 0
  {
    var before, step := steps[..|steps| - 1], steps[|steps| - 1];
    var s := Execute(INITIAL, before);
    PinnedStep(steps, k);
    if k in s.db.rows {
      RowCarriesPinned(before, k);
    } else {
      NoRowNoPin(before, k);
    }
    if (step.Commit? && s.calls[step.id].call.key != k) || step.Evaluate? { StepsAreLocal(s, step, k); }
  }

  lemma {:induction false} NoRowNoPin(steps: seq<Step>, k: Key)
    requires IsRun(INITIAL, steps)
    requires k !in Execute(INITIAL, steps).db.rows
    ensures LastFinalised(steps, k) < 0
  {
    if steps == [] {
    } else {
      var before, step := steps[..|steps| - 1], steps[|steps| - 1];
      var s := Execute(INITIAL, before);
      PinnedStep(steps, k);
      if !Reevaluates(step, k) {
        if step.Commit? { var more := TransactionFrame(s.db, s.calls[step.id], step.at, step.at2); }
        NoRowNoPin(before, k);
      }
    }
  }

  lemma NewestOfOthers(evaluations: seq<Evaluation>, other: string, hash: Option<Hash>, at: Time, run: string)
    requires other != run
    ensures NewestHash(evaluations + Appended(other, hash, at), run) == NewestHash(evaluations, run)
  {
    if hash.None? {
      assert evaluations + [] == evaluations;
    } else {
      assert (evaluations + Appended(other, hash, at))[..|evaluations|] == evaluations;
    }
  }

  /** As every evaluation of the run deletes the proposal, the pinned hash is still that of
    * the run's newest evaluation. */
  lemma {:induction false} PinnedIsNewest(steps: seq<Step>, k: Key)
    requires IsRun(INITIAL, steps) && LastFinalised(steps, k) >= 0
    ensures Pinned(steps, k) == NewestHash(Execute(INITIAL, steps).db.evaluations, k.run)
  {
    var before, step := steps[..|steps| - 1], steps[|steps| - 1];
    var s := Execute(INITIAL, before);
    PinnedStep(steps, k);
    if step.Commit? { var more := TransactionFrame(s.db, s.calls[step.id], step.at, step.at2); }
    if !Finalises(s, step, k) {
      PinnedIsNewest(before, k);
      if step.Evaluate? { NewestOfOthers(s.db.evaluations, step.run, step.hash, step.time, k.run); }
    }
  }

  /** The event of a rollback that takes effect carries the hash pinned by the row's latest
    * finalised approval. */
  lemma RollbackCommit(steps: seq<Step>, id: nat, at: Time, at2: Time)
    requires var s := Execute(INITIAL, steps);
             && IsRun(INITIAL, steps) && Enabled(s, Commit(id, at, at2))
             && s.calls[id].call.Rollback?
    ensures var s, s' := Execute(INITIAL, steps), Next(Execute(INITIAL, steps), Commit(id, at, at2));
            var k := s.calls[id].call.key;
            forall i :: |s.db.ledger| <= i < |s'.db.ledger| && s'.db.ledger[i].kind.ScriptRolledBack? ==>
              && LastFinalised(steps, k) >= 0
              && s'.db.ledger[i].key == k
              && s'.db.ledger[i].kind.restore == Pinned(steps, k)
              && s'.db.ledger[i].kind.restore == NewestHash(s.db.evaluations, k.run)
  {
    var s := Execute(INITIAL, steps);
    var p := s.calls[id];
    var k := p.call.key;
    if k in s.db.rows { RowCarriesPinned(steps, k); }
    if LastFinalised(steps, k) >= 0 { PinnedIsNewest(steps, k); }
    var db' := RollbackTx(s.db, k, p.call.user, p.call.verificationFailed, p.now, at, at2).0;
    assert Next(s, Commit(id, at, at2)).db == db';
    forall i | |s.db.ledger| <= i < |db'.ledger| && db'.ledger[i].kind.ScriptRolledBack?
      ensures k in s.db.rows && s.db.rows[k].appliedAt.Some?
      ensures db'.ledger[i].key == k && db'.ledger[i].kind.restore == s.db.rows[k].preChange
    {
      RollbackEvents(s.db, k, p.call.user, p.call.verificationFailed, p.now, at, at2, i);
    }
  }

  lemma RollbackEvents(db: Db, k: Key, user: string, failed: bool, now: Time, at: Time, at2: Time, i: int)
    requires var db' := RollbackTx(db, k, user, failed, now, at, at2).0;
             |db.ledger| <= i < |db'.ledger| && db'.ledger[i].kind.ScriptRolledBack?
    ensures k in db.rows && db.rows[k].appliedAt.Some?
    ensures var e := RollbackTx(db, k, user, failed, now, at, at2).0.ledger[i];
            e.key == k && e.kind.restore == db.rows[k].preChange
  {
  }

  lemma OnlyRollbackRestores(s: System, step: Step, i: nat)
    requires Enabled(s, step)
    requires |s.db.ledger| <= i < |Next(s, step).db.ledger|
    requires Next(s, step).db.ledger[i].kind.ScriptRolledBack?
    ensures step.Commit? && s.calls[step.id].call.Rollback?
  {
  }

  /** The n-th step commits a rollback that logs e, with the hash its row's latest finalised
    * approval pinned, which is that of the newest evaluation then. */
  predicate RestoresPinned(steps: seq<Step>, n: nat, e: Event)
    requires n < |steps|
  {
    var s, step, k := Execute(INITIAL, steps[..n]), steps[n], e.key;
    && step.Commit? && step.id in s.calls
    && s.calls[step.id].call.Rollback? && s.calls[step.id].call.key == k
    && LastFinalised(steps[..n], k) >= 0
    && e.kind.ScriptRolledBack?
    && e.kind.restore == Pinned(steps[..n], k) == NewestHash(s.db.evaluations, k.run)
  }

  /** The n-th step wrote the i-th event of the ledger, and it restores the pinned hash. */
  predicate Wrote(steps: seq<Step>, n: nat, i: nat) {
    && n < |steps|
    && |Execute(INITIAL, steps[..n]).db.ledger| <= i < |Execute(INITIAL, steps[..n + 1]).db.ledger|
    && i < |Execute(INITIAL, steps).db.ledger|
    && RestoresPinned(steps, n, Execute(INITIAL, steps).db.ledger[i])
  }

  /** The i-th event of the run's ledger is that of a rollback. */
  predicate LogsRollback(steps: seq<Step>, i: nat) {
    && IsRun(INITIAL, steps) && i < |Execute(INITIAL, steps).db.ledger|
    && Execute(INITIAL, steps).db.ledger[i].kind.ScriptRolledBack?
  }

  /** The last step of the run wrote the i-th event of the ledger. */
  predicate WritesLast(steps: seq<Step>, i: nat) {
    steps != [] && |Execute(INITIAL, steps[..|steps| - 1]).db.ledger| <= i
  }

  lemma LogsEarlier(steps: seq<Step>, i: nat)
    requires LogsRollback(steps, i) && !WritesLast(steps, i)
    ensures steps != [] && LogsRollback(steps[..|steps| - 1], i)
  {
    if steps != [] { LedgerOnlyGrows(INITIAL, steps[..|steps| - 1], steps); }
  }

  lemma WroteEarlier(steps: seq<Step>, n: nat, i: nat)
    requires IsRun(INITIAL, steps) && steps != [] && Wrote(steps[..|steps| - 1], n, i)
    ensures Wrote(steps, n, i)
  {
    var before := steps[..|steps| - 1];
    LedgerOnlyGrows(INITIAL, before, steps);
    assert before[..n] == steps[..n] && before[..n + 1] == steps[..n + 1];
  }

  lemma WroteLast(steps: seq<Step>, i: nat)
    requires LogsRollback(steps, i) && WritesLast(steps, i)
    ensures Wrote(steps, |steps| - 1, i)
  {
    var before, step := steps[..|steps| - 1], steps[|steps| - 1];
    assert steps[..|steps| - 1 + 1] == steps;
    OnlyRollbackRestores(Execute(INITIAL, before), step, i);
    RollbackCommit(before, step.id, step.at, step.at2);
  }

  /** Every rollback in the ledger of a run was logged by the commit of one, when an approval of
    * its row had been finalised, and restores the hash the latest such approval pinned: that of
    * the run's newest evaluation at that moment. */
  lemma {:induction false} RollbackRestoresPinnedHash(steps: seq<Step>, i: nat) returns (n: nat)
    requires LogsRollback(steps, i)
    ensures Wrote(steps, n, i)
    decreases |steps|
  {
    if WritesLast(steps, i) {
      n := |steps| - 1;
      WroteLast(steps, i);
    } else {
      LogsEarlier(steps, i);
      n := RollbackRestoresPinnedHash(steps[..|steps| - 1], i);
      WroteEarlier(steps, n, i);
    }
  }
}
