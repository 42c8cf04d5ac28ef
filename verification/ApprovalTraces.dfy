/** Runs in which calls that overlap break the two-person rule or revive voided approvals. */
module ApprovalTraces {
  import opened Common
  import opened ApprovalMatrix
  import opened RemediationDb
  import opened ApprovalProtocol
  import opened ApprovalSafety
  import opened ApprovalConcurrency
  import opened ApprovalStore
  import opened ApprovalConditions
  import opened ApprovalRejection

  // ------------------------------------------------------------------- building runs

  lemma Starts(steps: seq<Step>, s: System, id: nat, call: Call) returns (longer: seq<Step>)
    requires IsRun(INITIAL, steps) && Execute(INITIAL, steps) == s && id !in s.calls
    ensures IsRun(INITIAL, longer)
    ensures Execute(INITIAL, longer)
            == System(s.db, s.clock + 1, s.calls[id := InFlight(call, s.clock + 1, false)])
  {
    longer := Extend(steps, Begin(id, call, s.clock + 1));
  }

  /** The last transaction of a call, which takes the clock two instants on. */
  lemma Ends(steps: seq<Step>, db: Db, clock: Time, others: map<nat, InFlight>, id: nat, p: InFlight, db': Db)
    returns (longer: seq<Step>)
    requires IsRun(INITIAL, steps) && id !in others && Execute(INITIAL, steps) == System(db, clock, others[id := p])
    requires RunTransaction(db, p, clock + 1, clock + 2) == (db', None)
    ensures IsRun(INITIAL, longer) && Execute(INITIAL, longer) == System(db', clock + 2, others)
  {
    longer := Extend(steps, Commit(id, clock + 1, clock + 2));
    TakenOut(others, id, p);
  }

  lemma TakenOut<T>(others: map<nat, T>, id: nat, p: T)
    requires id !in others
    ensures others[id := p] - {id} == others
  {
  }

  /** The transaction of an approval that counts its quorum. */
  lemma Counts(steps: seq<Step>, db: Db, clock: Time, id: nat, p: InFlight, db': Db) returns (longer: seq<Step>)
    requires IsRun(INITIAL, steps) && Execute(INITIAL, steps) == System(db, clock, map[id := p])
    requires RunTransaction(db, p, clock + 1, clock + 2) == (db', Some(p.(counted := true)))
    ensures IsRun(INITIAL, longer)
    ensures Execute(INITIAL, longer) == System(db', clock + 2, map[id := p.(counted := true)])
  {
    longer := Extend(steps, Commit(id, clock + 1, clock + 2));
    PutBack(id, p, p.(counted := true));
  }

  lemma PutBack<T>(id: nat, p: T, q: T)
    ensures map[id := p][id := q] == map[id := q]
  {
  }

  /** A call of one transaction, begun and ended while others wait. */
  lemma Serves(steps: seq<Step>, s: System, id: nat, call: Call, db': Db) returns (longer: seq<Step>)
    requires IsRun(INITIAL, steps) && Execute(INITIAL, steps) == s && id !in s.calls
    requires RunTransaction(s.db, InFlight(call, s.clock + 1, false), s.clock + 2, s.clock + 3) == (db', None)
    ensures IsRun(INITIAL, longer) && Execute(INITIAL, longer) == System(db', s.clock + 3, s.calls)
  {
    longer := Starts(steps, s, id, call);
    longer := Ends(longer, s.db, s.clock + 1, s.calls, id, InFlight(call, s.clock + 1, false), db');
  }

  // ------------------------------------------------------------------- approvals of K

  function With(db: Db, user: string, at: Time): Db {
    db.(ledger := db.ledger + [Event(K, ApprovalGiven, RecordedActor(user), at)])
  }

  /** An approval's recording transaction on the row. */
  lemma Records(db: Db, user: string, now: Time, at: Time, at2: Time)
    requires K in db.rows && db.rows[K].draft in {FIRST, SECOND}
    ensures RunTransaction(db, InFlight(Asks(user), now, false), at, at2)
            == (With(db, user, at),
                if CountsAnother(db.ledger, K, db.rows[K].updatedAt, user) then Some(InFlight(Asks(user), now, true)) else None)
  {
    CompletesExactly(db, K, user, "admin", "human", at);
  }

  /** admin-2 approves on their own, which somebody else's earlier approval completes. */
  lemma ApprovesAlone(steps: seq<Step>, db: Db, clock: Time) returns (longer: seq<Step>)
    requires IsRun(INITIAL, steps) && Execute(INITIAL, steps) == System(db, clock, map[])
    requires K in db.rows && db.rows[K].draft in {FIRST, SECOND}
    requires CountsAnother(db.ledger, K, db.rows[K].updatedAt, "admin-2")
    ensures IsRun(INITIAL, longer)
    ensures Execute(INITIAL, longer).db
            == ApproveCall(db, K, true, "admin-2", None, "admin", "human", clock + 1, clock + 2).0
  {
    var p := InFlight(Asks("admin-2"), clock + 1, false);
    longer := Starts(steps, System(db, clock, map[]), 9, p.call);
    Records(db, "admin-2", p.now, clock + 2, clock + 3);
    longer := Counts(longer, db, clock + 1, 9, p, With(db, "admin-2", clock + 2));
    longer := Finalises(longer, With(db, "admin-2", clock + 2), clock + 3, p.(counted := true));
    CompletesExactly(db, K, "admin-2", "admin", "human", clock + 2);
  }

  lemma Finalises(steps: seq<Step>, db: Db, clock: Time, p: InFlight) returns (longer: seq<Step>)
    requires IsRun(INITIAL, steps) && Execute(INITIAL, steps) == System(db, clock, map[9 := p])
    requires p.call == Asks("admin-2") && p.counted
    ensures IsRun(INITIAL, longer)
    ensures Execute(INITIAL, longer)
            == System(FinalizeTx(db, K, true, "admin-2", None, p.now, clock + 1).0, clock + 2, map[])
  {
    longer := Ends(steps, db, clock, map[], 9, p, FinalizeTx(db, K, true, "admin-2", None, p.now, clock + 1).0);
  }

  const PROPOSED: seq<Event> := [Event(K, RemediationProposed, "system", 2), Event(K, DecisionMade, "system", 3)]
  const WAITING: Db := Db(map[K := Proposed(FIRST, 1)], PROPOSED, [])

  lemma NobodyCounts(user: string)
    ensures !CountsAnother(PROPOSED, K, 1, user)
  {
  }

  /** FIRST is proposed and half approved by admin-1 at 6, while another call waits that read
    * the clock before, at 4. */
  lemma Overtaken(call: Call) returns (steps: seq<Step>)
    ensures IsRun(INITIAL, steps)
    ensures Execute(INITIAL, steps) == System(With(WAITING, "admin-1", 6), 7, map[1 := InFlight(call, 4, false)])
  {
    assert SaveTx(INITIAL.db, K, FIRST, 1, 2, 3) == WAITING;
    steps := Serves([], INITIAL, 0, Save(K, FIRST), WAITING);
    steps := Starts(steps, System(WAITING, 3, map[]), 1, call);
    NobodyCounts("admin-1");
    Records(WAITING, "admin-1", 5, 6, 7);
    steps := Serves(steps, System(WAITING, 4, map[1 := InFlight(call, 4, false)]), 2, Asks("admin-1"),
                    With(WAITING, "admin-1", 6));
  }

  lemma AdminOneCounts(since: Time)
    requires since <= 6
    ensures CountsAnother(With(WAITING, "admin-1", 6).ledger, K, since, "admin-2")
  {
    assert With(WAITING, "admin-1", 6).ledger[2] == Event(K, ApprovalGiven, "admin-1", 6);
  }

  lemma StillCounts(db: Db, later: Db, since: Time)
    requires db.ledger <= later.ledger && CountsAnother(db.ledger, K, since, "admin-2")
    ensures CountsAnother(later.ledger, K, since, "admin-2")
  {
    var e :| e in db.ledger && IsApproval(e, K) && e.at >= since && e.actor != "admin-2";
    assert e in later.ledger;
  }

  lemma Rejected(db: Db, now: Time, at: Time)
    requires K in db.rows && CountsAnother(db.ledger, K, now, "admin-2")
    ensures var rejected := FinalizeTx(db, K, false, "admin-3", None, now, at).0;
            && K in rejected.rows && rejected.rows[K].draft == db.rows[K].draft && rejected.rows[K].updatedAt == now
            && CountsAnother(rejected.ledger, K, now, "admin-2")
  {
    StillCounts(db, FinalizeTx(db, K, false, "admin-3", None, now, at).0, now);
  }

  /** admin-3's reject commits, and then admin-2 approves on their own. */
  lemma RejectedThenAlone(before: seq<Step>, db: Db, clock: Time, p: InFlight) returns (steps: seq<Step>)
    requires p == InFlight(Reject(K, "admin-3", None), p.now, false)
    requires IsRun(INITIAL, before) && Execute(INITIAL, before) == System(db, clock, map[1 := p])
    requires K in db.rows && db.rows[K].draft in {FIRST, SECOND} && CountsAnother(db.ledger, K, p.now, "admin-2")
    ensures IsRun(INITIAL, steps)
    ensures Execute(INITIAL, steps).db
            == ApproveCall(FinalizeTx(db, K, false, "admin-3", None, p.now, clock + 1).0,
                           K, true, "admin-2", None, "admin", "human", clock + 3, clock + 4).0
  {
    var rejected := FinalizeTx(db, K, false, "admin-3", None, p.now, clock + 1).0;
    steps := Ends(before, db, clock, map[], 1, p, rejected);
    Rejected(db, p.now, clock + 1);
    steps := ApprovesAlone(steps, rejected, clock + 2);
  }

  // -------------------------------------------------- approvals of an older version

  /** A save that read the clock before an approval of the old version and commits after it
    * lets that approval count for the new version. */
  lemma LateSaveBreaksQuorum() returns (steps: seq<Step>)
    ensures IsRun(INITIAL, steps)
    ensures K in Execute(INITIAL, steps).db.rows && Execute(INITIAL, steps).db.rows[K].draft == SECOND
    ensures !ApprovalIsSound(Execute(INITIAL, steps).db, K)
  {
    steps := Overtaken(Save(K, SECOND));
    AdminOneCounts(4);
    steps := SavedLate(steps, With(WAITING, "admin-1", 6));
  }

  lemma SavedLate(before: seq<Step>, half: Db) returns (steps: seq<Step>)
    requires IsRun(INITIAL, before)
    requires Execute(INITIAL, before) == System(half, 7, map[1 := InFlight(Save(K, SECOND), 4, false)])
    requires CountsAnother(half.ledger, K, 4, "admin-2")
    ensures IsRun(INITIAL, steps)
    ensures K in Execute(INITIAL, steps).db.rows && Execute(INITIAL, steps).db.rows[K].draft == SECOND
    ensures !ApprovalIsSound(Execute(INITIAL, steps).db, K)
  {
    var saved := SaveTx(half, K, SECOND, 4, 8, 9);
    steps := Ends(before, half, 7, map[], 1, InFlight(Save(K, SECOND), 4, false), saved);
    SavedIsUnapproved(half, K, SECOND, 4, 8, 9, "admin-2");
    steps := ApprovesAlone(steps, saved, 9);
    SaveIsUnsafeExactly(half, K, SECOND, 4, 8, 9, "admin-2", None, "admin", "human", 10, 11);
    KeepsDraft(saved, 10, 11);
  }

  lemma KeepsDraft(db: Db, now: Time, at: Time)
    requires K in db.rows
    ensures var db' := ApproveCall(db, K, true, "admin-2", None, "admin", "human", now, at).0;
            K in db'.rows && db'.rows[K].draft == db.rows[K].draft
  {
  }

  /** A reject that read the clock before such an approval and commits after a save winds
    * updated_at back, with the same effect. */
  lemma LateRejectBreaksQuorum() returns (steps: seq<Step>)
    ensures IsRun(INITIAL, steps)
    ensures K in Execute(INITIAL, steps).db.rows && Execute(INITIAL, steps).db.rows[K].draft == SECOND
    ensures !ApprovalIsSound(Execute(INITIAL, steps).db, K)
  {
    var p := InFlight(Reject(K, "admin-3", None), 4, false);
    steps := Overtaken(p.call);
    AdminOneCounts(4);
    steps := SavedFirst(steps, With(WAITING, "admin-1", 6), p);
  }

  lemma SavedFirst(before: seq<Step>, half: Db, p: InFlight) returns (steps: seq<Step>)
    requires p == InFlight(Reject(K, "admin-3", None), 4, false)
    requires IsRun(INITIAL, before) && Execute(INITIAL, before) == System(half, 7, map[1 := p])
    requires CountsAnother(half.ledger, K, 4, "admin-2")
    ensures IsRun(INITIAL, steps)
    ensures K in Execute(INITIAL, steps).db.rows && Execute(INITIAL, steps).db.rows[K].draft == SECOND
    ensures !ApprovalIsSound(Execute(INITIAL, steps).db, K)
  {
    var saved := SaveTx(half, K, SECOND, 8, 9, 10);
    steps := Serves(before, System(half, 7, map[1 := p]), 3, Save(K, SECOND), saved);
    SavedIsUnapproved(half, K, SECOND, 8, 9, 10, "admin-2");
    StillCounts(half, saved, 4);
    steps := RejectedLate(steps, saved, p);
  }

  lemma RejectedLate(before: seq<Step>, saved: Db, p: InFlight) returns (steps: seq<Step>)
    requires p == InFlight(Reject(K, "admin-3", None), 4, false)
    requires IsRun(INITIAL, before) && Execute(INITIAL, before) == System(saved, 10, map[1 := p])
    requires K in saved.rows && saved.rows[K].draft == SECOND && HasProposal(saved.ledger, K)
    requires forall i :: Current(saved.ledger, K, i) ==> !IsApproval(saved.ledger[i], K)
    requires CountsAnother(saved.ledger, K, 4, "admin-2")
    ensures IsRun(INITIAL, steps)
    ensures K in Execute(INITIAL, steps).db.rows && Execute(INITIAL, steps).db.rows[K].draft == SECOND
    ensures !ApprovalIsSound(Execute(INITIAL, steps).db, K)
  {
    steps := RejectedThenAlone(before, saved, 10, p);
    UnsafeAfterReject(saved);
  }

  lemma UnsafeAfterReject(saved: Db)
    requires K in saved.rows && saved.rows[K].draft == SECOND && HasProposal(saved.ledger, K)
    requires forall i :: Current(saved.ledger, K, i) ==> !IsApproval(saved.ledger[i], K)
    requires CountsAnother(saved.ledger, K, 4, "admin-2")
    ensures var rejected := FinalizeTx(saved, K, false, "admin-3", None, 4, 11).0;
            var db' := ApproveCall(rejected, K, true, "admin-2", None, "admin", "human", 13, 14).0;
            K in db'.rows && db'.rows[K].draft == SECOND && !ApprovalIsSound(db', K)
  {
    RejectIsUnsafeExactly(saved, K, "admin-3", None, 4, 11, "admin-2", None, "admin", "human", 13, 14);
    KeepsDraft(FinalizeTx(saved, K, false, "admin-3", None, 4, 11).0, 13, 14);
  }

  // ------------------------------------------------------- approvals that were voided

  /** A reject that read the clock before an approval and commits after it does not void it:
    * admin-2 alone gets the rejected script approved. */
  lemma LateRejectVoidsNothing() returns (steps: seq<Step>)
    ensures IsRun(INITIAL, steps)
    ensures K in Execute(INITIAL, steps).db.rows && !ApprovalIsBacked(Execute(INITIAL, steps).db, K)
  {
    var half, p := With(WAITING, "admin-1", 6), InFlight(Reject(K, "admin-3", None), 4, false);
    steps := Overtaken(p.call);
    AdminOneCounts(4);
    steps := RejectedThenAlone(steps, half, 7, p);
    LateRejectExactly(half, K, "admin-3", None, 4, 8, "admin-2", None, "admin", "human", 10, 11);
  }

  /** K's row is approved and applied, and no approval of it is stamped after updated_at. */
  ghost predicate IsApplied(s: System) {
    && s.calls == map[] && K in s.db.rows && s.db.rows[K].draft == FIRST
    && s.db.rows[K].appliedAt.Some? && s.db.rows[K].updatedAt <= s.clock
    && AllApprovalsBefore(s.db.ledger, K, s.db.rows[K].updatedAt)
  }

  lemma Applies() returns (steps: seq<Step>)
    ensures IsRun(INITIAL, steps) && IsApplied(Execute(INITIAL, steps))
  {
    steps := CountedBy("admin-1", "admin-2");
    steps := AppliesCounted(steps, Execute(INITIAL, steps).db);
  }

  lemma AppliesCounted(before: seq<Step>, full: Db) returns (steps: seq<Step>)
    requires IsRun(INITIAL, before)
    requires Execute(INITIAL, before) == System(full, 9, map[1 := InFlight(Asks("admin-2"), 7, true)])
    requires full.rows == map[K := Proposed(FIRST, 1)] && AllApprovalsBefore(full.ledger, K, 12)
    ensures IsRun(INITIAL, steps) && IsApplied(Execute(INITIAL, steps))
  {
    var approved := FinalizeTx(full, K, true, "admin-2", None, 7, 10).0;
    steps := Ends(before, full, 9, map[], 1, InFlight(Asks("admin-2"), 7, true), approved);
    var applied := ApplyTx(approved, K, "admin-2", 12, 13).0;
    assert approved.ledger == full.ledger + [] == full.ledger;
    steps := Serves(steps, System(approved, 11, map[]), 2, Apply(K, "admin-2"), applied);
    var e := Event(K, ScriptApplied, RecordedActor("admin-2"), 13);
    assert applied.ledger == full.ledger + [e];
    NoApprovalAdded(full.ledger, [e], K, 12);
  }

  /** A rollback that read the clock before an approval and commits after that was rejected
    * winds updated_at back, so that the voided approval counts. */
  lemma LateRollbackRevives() returns (steps: seq<Step>)
    ensures IsRun(INITIAL, steps)
    ensures K in Execute(INITIAL, steps).db.rows && !ApprovalIsBacked(Execute(INITIAL, steps).db, K)
  {
    steps := Applies();
    var s := Execute(INITIAL, steps);
    var p := InFlight(Rollback(K, "admin-3", false), s.clock + 1, false);
    steps := Starts(steps, s, 1, p.call);
    steps := ApprovedAndRejected(steps, s.db, s.clock + 1, p);
    var rejected := FinalizeTx(With(s.db, "admin-1", s.clock + 3), K, false, "admin-3", None, s.clock + 5, s.clock + 6).0;
    AwaitsAfterReject(s.db, p.now, s.clock + 3, s.clock + 5, s.clock + 6);
    steps := RolledBackLate(steps, rejected, s.clock + 7, p);
  }

  lemma AwaitsAfterReject(db: Db, since: Time, approvedAt: Time, now: Time, at: Time)
    requires K in db.rows && db.rows[K].draft == FIRST && since <= approvedAt
    ensures var rejected := FinalizeTx(With(db, "admin-1", approvedAt), K, false, "admin-3", None, now, at).0;
            && AwaitsBacking(rejected, K, "admin-2") && rejected.rows[K].draft == FIRST
            && rejected.rows[K].appliedAt == db.rows[K].appliedAt
            && CountsAnother(rejected.ledger, K, since, "admin-2")
  {
    var half := With(db, "admin-1", approvedAt);
    var e := Event(K, RejectionGiven, RecordedActor("admin-3"), at);
    assert half.ledger[|db.ledger|] == Event(K, ApprovalGiven, "admin-1", approvedAt);
    assert FinalizeTx(half, K, false, "admin-3", None, now, at).0.ledger == half.ledger + [e];
    RejectedWaits(half.ledger, e, K, since, "admin-2");
  }

  lemma ApprovedAndRejected(before: seq<Step>, db: Db, clock: Time, p: InFlight) returns (steps: seq<Step>)
    requires IsRun(INITIAL, before) && Execute(INITIAL, before) == System(db, clock, map[1 := p])
    requires K in db.rows && db.rows[K].draft == FIRST && AllApprovalsBefore(db.ledger, K, db.rows[K].updatedAt)
    ensures IsRun(INITIAL, steps)
    ensures Execute(INITIAL, steps)
            == System(FinalizeTx(With(db, "admin-1", clock + 2), K, false, "admin-3", None, clock + 4, clock + 5).0,
                      clock + 6, map[1 := p])
  {
    var half := With(db, "admin-1", clock + 2);
    Records(db, "admin-1", clock + 1, clock + 2, clock + 3);
    steps := Serves(before, System(db, clock, map[1 := p]), 2, Asks("admin-1"), half);
    steps := Serves(steps, System(half, clock + 3, map[1 := p]), 3, Reject(K, "admin-3", None),
                    FinalizeTx(half, K, false, "admin-3", None, clock + 4, clock + 5).0);
  }

  lemma RolledBackLate(before: seq<Step>, rejected: Db, clock: Time, p: InFlight) returns (steps: seq<Step>)
    requires IsRun(INITIAL, before) && Execute(INITIAL, before) == System(rejected, clock, map[1 := p])
    requires p == InFlight(Rollback(K, "admin-3", false), p.now, false)
    requires AwaitsBacking(rejected, K, "admin-2") && rejected.rows[K].appliedAt.Some? && rejected.rows[K].draft == FIRST
    requires CountsAnother(rejected.ledger, K, p.now, "admin-2")
    ensures IsRun(INITIAL, steps)
    ensures K in Execute(INITIAL, steps).db.rows && !ApprovalIsBacked(Execute(INITIAL, steps).db, K)
  {
    var undone := RollbackTx(rejected, K, "admin-3", false, p.now, clock + 1, clock + 2).0;
    steps := Ends(before, rejected, clock, map[], 1, p, undone);
    RolledBack(rejected, p.now, clock + 1, clock + 2);
    steps := ApprovesAlone(steps, undone, clock + 2);
    LateRollbackExactly(rejected, K, "admin-3", false, p.now, clock + 1, clock + 2,
                        "admin-2", None, "admin", "human", clock + 3, clock + 4);
  }

  lemma RolledBack(rejected: Db, now: Time, at: Time, at2: Time)
    requires K in rejected.rows && rejected.rows[K].appliedAt.Some? && CountsAnother(rejected.ledger, K, now, "admin-2")
    ensures var undone := RollbackTx(rejected, K, "admin-3", false, now, at, at2).0;
            && K in undone.rows && undone.rows[K].draft == rejected.rows[K].draft && undone.rows[K].updatedAt == now
            && CountsAnother(undone.ledger, K, now, "admin-2")
  {
    StillCounts(rejected, RollbackTx(rejected, K, "admin-3", false, now, at, at2).0, now);
  }

  // ----------------------------------------------------------- a rejection overwritten

  /** admin-2's approval of FIRST, counted before admin-3 rejects it, approves it afterwards. */
  lemma RejectInBetween() returns (steps: seq<Step>)
    ensures IsRun(INITIAL, steps)
    ensures var db := Execute(INITIAL, steps).db;
            && K in db.rows && db.rows[K].status == Approved && !ApprovalIsBacked(db, K)
            && db.ledger != [] && db.ledger[|db.ledger| - 1].kind == RejectionGiven
  {
    var p := InFlight(Asks("admin-2"), 7, true);
    steps := CountedBy("admin-1", "admin-2");
    var full := Execute(INITIAL, steps).db;
    var rejected := FinalizeTx(full, K, false, "admin-3", None, 10, 11).0;
    steps := Serves(steps, System(full, 9, map[1 := p]), 3, Reject(K, "admin-3", None), rejected);
    steps := FinalisedAnyway(steps, rejected, p);
  }

  lemma FinalisedAnyway(before: seq<Step>, rejected: Db, p: InFlight) returns (steps: seq<Step>)
    requires p == InFlight(Asks("admin-2"), 7, true)
    requires IsRun(INITIAL, before) && Execute(INITIAL, before) == System(rejected, 12, map[1 := p])
    requires K in rejected.rows && rejected.rows[K].draft == FIRST
    requires rejected.ledger != [] && rejected.ledger[|rejected.ledger| - 1] == Event(K, RejectionGiven, "admin-3", 11)
    ensures IsRun(INITIAL, steps)
    ensures var db := Execute(INITIAL, steps).db;
            && K in db.rows && db.rows[K].status == Approved && !ApprovalIsBacked(db, K)
            && db.ledger != [] && db.ledger[|db.ledger| - 1].kind == RejectionGiven
  {
    steps := Ends(before, rejected, 12, map[], 1, p, FinalizeTx(rejected, K, true, "admin-2", None, 7, 13).0);
    FinalisedBacking(rejected, K, "admin-2", None, 7, 13);
    assert rejected.ledger + [] == rejected.ledger;
    NothingStands(rejected.ledger, K);
  }
}
