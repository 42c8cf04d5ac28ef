/** Overlapping calls: no approval is lost, and what the hypotheses exclude. */
module ApprovalConcurrency {
  import opened Common
  import opened ApprovalMatrix
  import opened RemediationDb
  import opened ApprovalProtocol
  import opened ApprovalSafety

  /** The step is the lock-and-record transaction of an approval of k by user. */
  ghost predicate RecordsApproval(s: System, step: Step, k: Key, user: string) {
    && step.Commit? && step.id in s.calls
    && s.calls[step.id].call.Approve? && !s.calls[step.id].counted
    && s.calls[step.id].call.key == k && s.calls[step.id].call.user == user
    && RecordTx(s.db, k, user, s.calls[step.id].call.role, s.calls[step.id].call.actorType, step.at).1.Recorded?
  }

  lemma {:induction false} RunKeepsClock(s: System, steps: seq<Step>)
    requires ClockInv(s) && IsRun(s, steps)
    ensures ClockInv(Execute(s, steps))
  {
    if steps == [] {
    } else {
      var before := steps[..|steps| - 1];
      RunKeepsClock(s, before);
      var step := steps[|steps| - 1];
      if step.Commit? { CommitKeepsClock(Execute(s, before), step.id, step.at, step.at2); }
    }
  }

  lemma {:induction false} PrefixIsRun(s: System, steps: seq<Step>, n: nat)
    requires IsRun(s, steps) && n <= |steps|
    ensures IsRun(s, steps[..n])
    ensures n < |steps| ==> Enabled(Execute(s, steps[..n]), steps[n])
    ensures n < |steps| ==> Execute(s, steps[..n + 1]) == Next(Execute(s, steps[..n]), steps[n])
    decreases |steps|
  {
    if n < |steps| {
      var before := steps[..|steps| - 1];
      if n < |before| {
        PrefixIsRun(s, before, n);
        assert before[..n] == steps[..n] && before[..n + 1] == steps[..n + 1];
      }
      assert steps[..n + 1][..n] == steps[..n];
      assert before == steps[..n] || n < |before|;
    } else {
      assert steps[..n] == steps;
    }
  }

  /** Of two distinct actors who approve the same version, the later one finds
    * the quorum, whatever the other calls do in between. */
  lemma NoApprovalIsLost(steps: seq<Step>, i: nat, j: nat, k: Key, first: string, second: string)
    requires IsRun(INITIAL, steps) && i < j < |steps|
    requires var s, t := Execute(INITIAL, steps[..i]), Execute(INITIAL, steps[..j]);
             && RecordsApproval(s, steps[i], k, first)
             && RecordsApproval(t, steps[j], k, second)
             && t.db.rows[k].draft.Action() == DualApproval
             && s.db.rows[k].updatedAt == t.db.rows[k].updatedAt
    requires RecordedActor(first) != second
    ensures var after := Execute(INITIAL, steps[..j + 1]);
            steps[j].id in after.calls && after.calls[steps[j].id].counted
  {
    var s, t := Execute(INITIAL, steps[..i]), Execute(INITIAL, steps[..j]);
    PrefixIsRun(INITIAL, steps, i);
    PrefixIsRun(INITIAL, steps, j);
    RunKeepsClock(INITIAL, steps[..i]);
    var s' := Execute(INITIAL, steps[..i + 1]);
    var e := Event(k, ApprovalGiven, RecordedActor(first), steps[i].at);
    assert s'.db.ledger[|s.db.ledger|] == e;
    assert steps[..i + 1] <= steps[..j];
    LedgerOnlyGrows(INITIAL, steps[..i + 1], steps[..j]);
    assert t.db.ledger[|s.db.ledger|] == e;
    var prior := PriorActors(t.db.ledger, k, t.db.rows[k].updatedAt);
    assert e.actor in prior;
    QuorumNamesAnother(prior, second);
  }

  /** The two-person count is genuine exactly when the caller is named, or
    * somebody other than "system" approved before. */
  lemma EmptyActorCountsTwice(db: Db, k: Key, user: string, role: string, actorType: string, at: Time)
    requires k in db.rows && db.rows[k].updatedAt <= at && db.rows[k].draft.Action() == DualApproval
    requires var outcome := RecordTx(db, k, user, role, actorType, at).1;
             outcome.Recorded? && DualApprovalSatisfied(DualApproval, outcome.prior, user)
    ensures var (db', outcome) := RecordTx(db, k, user, role, actorType, at);
            |PriorActors(db'.ledger, k, db.rows[k].updatedAt)| >= 2
            <==> user != "" || exists a :: a in outcome.prior && a != "system"
  {
    var (db', outcome) := RecordTx(db, k, user, role, actorType, at);
    var e := Event(k, ApprovalGiven, RecordedActor(user), at);
    assert db'.ledger == db.ledger + [e];
    var now := PriorActors(db'.ledger, k, db.rows[k].updatedAt);
    assert now == outcome.prior + {RecordedActor(user)} by {
      assert forall x :: x in db'.ledger <==> x in db.ledger || x == e;
    }
    QuorumNamesAnother(outcome.prior, user);
    QuorumNamesAnother(outcome.prior, RecordedActor(user));
    if user == "" {
      assert DualApprovalSatisfied(DualApproval, outcome.prior, "system") <==> |now| >= 2;
    }
  }

  // -------------------------------------------------------------------- traces

  const K: Key := Key("run-1", "CIS-NET-1.1.2")
  const FIRST: Draft := Draft("no transport input telnet", Safe, Some(Decision(DualApproval, High, 3)))
  const SECOND: Draft := Draft("transport input ssh", Safe, Some(Decision(DualApproval, High, 3)))

  function Asks(user: string): Call { Approve(K, user, None, "admin", "human") }

  lemma Extend(steps: seq<Step>, step: Step) returns (longer: seq<Step>)
    requires IsRun(INITIAL, steps) && Enabled(Execute(INITIAL, steps), step)
    ensures IsRun(INITIAL, longer)
    ensures Execute(INITIAL, longer) == Next(Execute(INITIAL, steps), step)
  {
    longer := steps + [step];
    assert longer[..|steps|] == steps;
  }

  lemma FirstApproval(db: Db, user: string)
    requires db == Db(map[K := Proposed(FIRST, 1)],
                      [Event(K, RemediationProposed, "system", 2), Event(K, DecisionMade, "system", 3)], [])
    ensures RunTransaction(db, InFlight(Asks(user), 4, false), 5, 6)
            == (db.(ledger := db.ledger + [Event(K, ApprovalGiven, RecordedActor(user), 5)]), None)
  {
    assert PriorActors(db.ledger, K, 1) == {};
    assert |{} + {user}| == 1;
  }

  /** One of two approvals of FIRST is on record, given at time 5. */
  lemma HalfApprovedBy(user: string) returns (steps: seq<Step>)
    ensures IsRun(INITIAL, steps)
    ensures var s := Execute(INITIAL, steps);
            && s.clock == 6 && s.calls == map[]
            && s.db == Db(map[K := Proposed(FIRST, 1)],
                          [Event(K, RemediationProposed, "system", 2), Event(K, DecisionMade, "system", 3),
                           Event(K, ApprovalGiven, RecordedActor(user), 5)],
                          [])
  {
    steps := Extend([], Begin(0, Save(K, FIRST), 1));
    steps := Extend(steps, Commit(0, 2, 3));
    var saved := Execute(INITIAL, steps).db;
    assert saved == Db(map[K := Proposed(FIRST, 1)],
                       [Event(K, RemediationProposed, "system", 2), Event(K, DecisionMade, "system", 3)], []);
    steps := Extend(steps, Begin(0, Asks(user), 4));
    FirstApproval(saved, user);
    steps := Extend(steps, Commit(0, 5, 6));
  }

  /** After the proposal at p, at most one actor approved. */
  lemma OneActorIsNoQuorum(ledger: seq<Event>, k: Key, p: nat, actor: string)
    requires p < |ledger| && IsProposal(ledger[p], k)
    requires forall i :: p < i < |ledger| && IsApproval(ledger[i], k) ==> ledger[i].actor == actor
    ensures !Sanctioned(ledger, k, DualApproval, |ledger|)
  {
    forall i | Current(ledger, k, i) ensures p <= i {}
  }

  /** The row after a save of FIRST or SECOND. */
  function Proposed(d: Draft, t: Time): Row {
    Row(d, Status.Pending, None, None, None, None, None, NotApplied, t)
  }

  /** One approval transaction that completes the two-person rule. */
  lemma SecondApproval(db: Db, user: string, at: Time, i: nat)
    requires K in db.rows && db.rows[K].draft in {FIRST, SECOND}
    requires i < |db.ledger| && IsApproval(db.ledger[i], K)
    requires db.ledger[i].at >= db.rows[K].updatedAt && db.ledger[i].actor != user
    ensures var (db', outcome) := RecordTx(db, K, user, "admin", "human", at);
            && outcome.Recorded?
            && DualApprovalSatisfied(outcome.draft.Action(), outcome.prior, user)
            && db' == db.(ledger := db.ledger + [Event(K, ApprovalGiven, RecordedActor(user), at)])
  {
    var prior := PriorActors(db.ledger, K, db.rows[K].updatedAt);
    assert db.ledger[i].actor in prior;
    QuorumNamesAnother(prior, user);
  }

  /** A save that slips between the two transactions of an approval gets the new
    * script approved by nobody: the non-overlap hypothesis is needed. */
  lemma OverlappingSaveBreaksQuorum() returns (steps: seq<Step>)
    ensures IsRun(INITIAL, steps)
    ensures K in Execute(INITIAL, steps).db.rows
    ensures Execute(INITIAL, steps).db.rows[K].draft == SECOND
    ensures !ApprovalIsSound(Execute(INITIAL, steps).db, K)
  {
    steps := CountedBy("admin-1", "admin-2");
    steps := SaveInBetween(steps, Execute(INITIAL, steps).db);
  }

  /** Two approvals of FIRST are on record and the second found the quorum. */
  lemma CountedBy(first: string, second: string) returns (steps: seq<Step>)
    requires RecordedActor(first) != second
    ensures IsRun(INITIAL, steps)
    ensures var s := Execute(INITIAL, steps);
            && s.clock == 9 && s.calls == map[1 := InFlight(Asks(second), 7, true)]
            && s.db == Db(map[K := Proposed(FIRST, 1)],
                          [Event(K, RemediationProposed, "system", 2), Event(K, DecisionMade, "system", 3),
                           Event(K, ApprovalGiven, RecordedActor(first), 5),
                           Event(K, ApprovalGiven, RecordedActor(second), 8)],
                          [])
  {
    steps := HalfApprovedBy(first);
    var half := Execute(INITIAL, steps).db;
    steps := Extend(steps, Begin(1, Asks(second), 7));
    SecondApproval(half, second, 8, 2);
    steps := Extend(steps, Commit(1, 8, 9));
  }

  lemma SaveInBetween(before: seq<Step>, full: Db) returns (steps: seq<Step>)
    requires IsRun(INITIAL, before)
    requires Execute(INITIAL, before) == System(full, 9, map[1 := InFlight(Asks("admin-2"), 7, true)])
    requires full.rows == map[K := Proposed(FIRST, 1)]
    ensures IsRun(INITIAL, steps)
    ensures K in Execute(INITIAL, steps).db.rows
    ensures Execute(INITIAL, steps).db.rows[K].draft == SECOND
    ensures !ApprovalIsSound(Execute(INITIAL, steps).db, K)
  {
    steps := Extend(before, Begin(2, Save(K, SECOND), 10));
    steps := Extend(steps, Commit(2, 11, 12));
    var saved := SaveTx(full, K, SECOND, 10, 11, 12);
    assert Execute(INITIAL, steps) == System(saved, 12, map[1 := InFlight(Asks("admin-2"), 7, true)]);
    steps := Extend(steps, Commit(1, 13, 14));
    var db := Execute(INITIAL, steps).db;
    assert db.ledger == saved.ledger && db.rows[K].status == Approved;
    OneActorIsNoQuorum(db.ledger, K, |full.ledger|, "");
  }

  /** With the same two transactions back to back, but a clock that reads the
    * same instant for a save and for the approval before it, admin-2 alone
    * approves the new script: the strictly increasing clock is needed. */
  lemma ClockTieBreaksQuorum() returns (steps: seq<Step>, s: System)
    ensures IsRun(INITIAL, steps)
    ensures var t := Next(Next(Execute(INITIAL, steps), Begin(1, Save(K, SECOND), 5)), Commit(1, 7, 8));
            && s == Next(Next(Next(t, Begin(2, Asks("admin-2"), 9)), Commit(2, 10, 11)), Commit(2, 12, 13))
            && K in s.db.rows && !ApprovalIsSound(s.db, K)
  {
    steps := HalfApprovedBy("admin-1");
    var half := Execute(INITIAL, steps).db;
    var t := Next(Next(Execute(INITIAL, steps), Begin(1, Save(K, SECOND), 5)), Commit(1, 7, 8));
    var saved := SaveTx(half, K, SECOND, 5, 7, 8);
    assert t == System(saved, 8, map[]);
    s := ApproveAlone(t, saved);
  }

  lemma ApproveAlone(t: System, saved: Db) returns (s: System)
    requires t == System(saved, 8, map[])
    requires saved.rows == map[K := Proposed(SECOND, 5)]
    requires |saved.ledger| == 5 && saved.ledger[2] == Event(K, ApprovalGiven, "admin-1", 5)
    requires IsProposal(saved.ledger[3], K) && !IsApproval(saved.ledger[4], K)
    ensures s == Next(Next(Next(t, Begin(2, Asks("admin-2"), 9)), Commit(2, 10, 11)), Commit(2, 12, 13))
    ensures K in s.db.rows && !ApprovalIsSound(s.db, K)
  {
    SecondApproval(saved, "admin-2", 10, 2);
    var u := Next(Next(t, Begin(2, Asks("admin-2"), 9)), Commit(2, 10, 11));
    var full := saved.(ledger := saved.ledger + [Event(K, ApprovalGiven, "admin-2", 10)]);
    assert u == System(full, 11, map[2 := InFlight(Asks("admin-2"), 9, true)]);
    s := Next(u, Commit(2, 12, 13));
    assert s.db.ledger == full.ledger && s.db.rows[K].status == Approved;
    OneActorIsNoQuorum(s.db.ledger, K, 3, "admin-2");
  }

  /** One caller without a name approves twice and satisfies the two-person rule. */
  lemma EmptyActorBreaksQuorum() returns (steps: seq<Step>)
    ensures IsRun(INITIAL, steps)
    ensures K in Execute(INITIAL, steps).db.rows
    ensures !ApprovalIsSound(Execute(INITIAL, steps).db, K)
  {
    steps := CountedBy("", "");
    steps := FinaliseAlone(steps, Execute(INITIAL, steps).db);
  }

  lemma FinaliseAlone(before: seq<Step>, full: Db) returns (steps: seq<Step>)
    requires IsRun(INITIAL, before)
    requires Execute(INITIAL, before) == System(full, 9, map[1 := InFlight(Asks(""), 7, true)])
    requires full.rows == map[K := Proposed(FIRST, 1)]
    requires |full.ledger| > 0 && IsProposal(full.ledger[0], K)
    requires forall i :: 0 <= i < |full.ledger| ==> full.ledger[i].actor == "system"
    ensures IsRun(INITIAL, steps)
    ensures K in Execute(INITIAL, steps).db.rows
    ensures !ApprovalIsSound(Execute(INITIAL, steps).db, K)
  {
    steps := Extend(before, Commit(1, 10, 11));
    var db := Execute(INITIAL, steps).db;
    assert db.ledger == full.ledger && db.rows[K].status == Approved;
    OneActorIsNoQuorum(db.ledger, K, 0, "system");
  }
}
