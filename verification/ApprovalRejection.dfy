/** A rejection voids the approvals before it, as long as it does not overlap one. */
module ApprovalRejection {
  import opened Common
  import opened ApprovalMatrix
  import opened RemediationDb
  import opened ApprovalProtocol
  import opened ApprovalSafety
  import opened ApprovalConcurrency
  import opened ApprovalStore
  import opened ApprovalConditions

  // ------------------------------------------------------------- what is claimed

  predicate Resets(e: Event, k: Key) {
    e.key == k && (e.kind == RemediationProposed || e.kind == RejectionGiven)
  }

  /** The i-th event is not older than the latest proposal or rejection of k. */
  ghost predicate Stands(ledger: seq<Event>, k: Key, i: int) {
    0 <= i < |ledger| && forall j :: i < j < |ledger| ==> !Resets(ledger[j], k)
  }

  /** The approvals this classification asks for were given since then. */
  ghost predicate Backed(ledger: seq<Event>, k: Key, action: Action) {
    exists i, j ::
      && Stands(ledger, k, i) && Stands(ledger, k, j)
      && IsApproval(ledger[i], k) && IsApproval(ledger[j], k)
      && (action == DualApproval ==> ledger[i].actor != ledger[j].actor)
  }

  ghost predicate ApprovalIsBacked(db: Db, k: Key)
    requires k in db.rows
  {
    db.rows[k].status == Approved ==> Backed(db.ledger, k, db.rows[k].draft.Action())
  }

  // ------------------------------------------------------------- the hypothesis

  /** No save or reject of a row overlaps an approval or a rollback of it. */
  predicate KeepsResetsApart(s: System, step: Step) {
    step.Begin? ==>
      forall id :: id in s.calls && s.calls[id].call.key == step.call.key ==>
        Apart(s.calls[id].call, step.call) && Apart(step.call, s.calls[id].call)
  }

  predicate Apart(one: Call, other: Call) {
    !((one.Save? || one.Reject?) && (other.Approve? || other.Rollback?))
  }

  predicate IsGuardedRun(s: System, steps: seq<Step>) {
    steps != [] ==>
      && var before := steps[..|steps| - 1];
      && IsGuardedRun(s, before)
      && Enabled(Execute(s, before), steps[|steps| - 1])
      && KeepsResetsApart(Execute(s, before), steps[|steps| - 1])
      && NamesItsActor(steps[|steps| - 1])
  }

  // -------------------------------------------------------------- the invariant

  /** Voided approvals of k carry a timestamp below t. */
  ghost predicate VoidedBefore(ledger: seq<Event>, k: Key, t: Time) {
    forall i :: 0 <= i < |ledger| && IsApproval(ledger[i], k) && !Stands(ledger, k, i) ==> ledger[i].at < t
  }

  ghost predicate RowHolds(db: Db, k: Key)
    requires k in db.rows
  {
    && ApprovalIsBacked(db, k)
    && (Backed(db.ledger, k, db.rows[k].draft.Action()) || VoidedBefore(db.ledger, k, db.rows[k].updatedAt))
  }

  ghost predicate CallHolds(db: Db, p: InFlight) {
    match p.call
    case Save(k, _) => AllApprovalsBefore(db.ledger, k, p.now)
    case Reject(k, _, _) => AllApprovalsBefore(db.ledger, k, p.now)
    case Rollback(k, _, _) => VoidedBefore(db.ledger, k, p.now)
    case Approve(k, user, _, _, _) =>
      user != "" && (p.counted && k in db.rows ==> Backed(db.ledger, k, db.rows[k].draft.Action()))
    case Apply(_, _) => true
  }

  ghost predicate CallsApart(calls: map<nat, InFlight>) {
    forall i, j :: i in calls && j in calls && calls[i].call.key == calls[j].call.key ==> Apart(calls[i].call, calls[j].call)
  }

  ghost predicate Holds(s: System) {
    && ClockInv(s)
    && CallsApart(s.calls)
    && (forall k :: k in s.db.rows ==> RowHolds(s.db, k))
    && (forall id :: id in s.calls ==> CallHolds(s.db, s.calls[id]))
  }

  // ------------------------------------------------------------ ledger reasoning

  ghost predicate NoReset(events: seq<Event>, k: Key) {
    forall i :: 0 <= i < |events| ==> !Resets(events[i], k)
  }

  lemma StandsGrows(ledger: seq<Event>, more: seq<Event>, k: Key, i: int)
    requires NoReset(more, k) && 0 <= i < |ledger|
    ensures Stands(ledger, k, i) <==> Stands(ledger + more, k, i)
  {
    var all := ledger + more;
    if Stands(ledger, k, i) {
      forall j | i < j < |all| ensures !Resets(all[j], k) {
        if j < |ledger| { assert all[j] == ledger[j]; } else { assert all[j] == more[j - |ledger|]; }
      }
    }
    if Stands(all, k, i) {
      forall j | i < j < |ledger| ensures !Resets(ledger[j], k) { assert all[j] == ledger[j]; }
    }
  }

  lemma BackedGrows(ledger: seq<Event>, more: seq<Event>, k: Key, action: Action)
    requires NoReset(more, k) && Backed(ledger, k, action)
    ensures Backed(ledger + more, k, action)
  {
    var i, j :|
      && Stands(ledger, k, i) && Stands(ledger, k, j)
      && IsApproval(ledger[i], k) && IsApproval(ledger[j], k)
      && (action == DualApproval ==> ledger[i].actor != ledger[j].actor);
    StandsGrows(ledger, more, k, i);
    StandsGrows(ledger, more, k, j);
    assert (ledger + more)[i] == ledger[i] && (ledger + more)[j] == ledger[j];
  }

  lemma VoidedGrows(ledger: seq<Event>, more: seq<Event>, k: Key, t: Time)
    requires NoReset(more, k) && VoidedBefore(ledger, k, t)
    ensures VoidedBefore(ledger + more, k, t)
  {
    var all := ledger + more;
    forall i | 0 <= i < |all| && IsApproval(all[i], k) && !Stands(all, k, i) ensures all[i].at < t {
      assert i < |ledger| by {
        assert forall j :: |ledger| <= j < |all| ==> all[j] == more[j - |ledger|];
      }
      StandsGrows(ledger, more, k, i);
      assert all[i] == ledger[i];
    }
  }

  lemma LedgerHolds(ledger: seq<Event>, more: seq<Event>, k: Key, action: Action, t: Time)
    requires NoReset(more, k)
    ensures Backed(ledger, k, action) ==> Backed(ledger + more, k, action)
    ensures VoidedBefore(ledger, k, t) ==> VoidedBefore(ledger + more, k, t)
  {
    if Backed(ledger, k, action) { BackedGrows(ledger, more, k, action); }
    if VoidedBefore(ledger, k, t) { VoidedGrows(ledger, more, k, t); }
  }

  lemma NoApprovalAdded(ledger: seq<Event>, more: seq<Event>, k: Key, t: Time)
    requires AllApprovalsBefore(ledger, k, t) && forall i :: 0 <= i < |more| ==> !IsApproval(more[i], k)
    ensures AllApprovalsBefore(ledger + more, k, t)
  {
    var all := ledger + more;
    assert forall i :: 0 <= i < |ledger| ==> all[i] == ledger[i];
    assert forall i :: |ledger| <= i < |all| ==> all[i] == more[i - |ledger|];
  }

  // -------------------------------------------------------- one transaction at a time

  lemma RowStays(db: Db, db': Db, more: seq<Event>, k: Key)
    requires NoReset(more, k) && db'.ledger == db.ledger + more
    requires k in db.rows && k in db'.rows && db'.rows[k] == db.rows[k]
    requires RowHolds(db, k)
    ensures RowHolds(db', k)
  {
    LedgerHolds(db.ledger, more, k, db.rows[k].draft.Action(), db.rows[k].updatedAt);
  }

  lemma CallStays(db: Db, db': Db, more: seq<Event>, p: InFlight)
    requires db'.ledger == db.ledger + more && CallHolds(db, p)
    requires var k := p.call.key;
             && (p.call.Approve? || p.call.Rollback? ==> NoReset(more, k))
             && (p.call.Save? || p.call.Reject? ==> forall i :: 0 <= i < |more| ==> !IsApproval(more[i], k))
             && (p.call.Approve? && k in db'.rows ==> k in db.rows && db'.rows[k].draft == db.rows[k].draft)
    ensures CallHolds(db', p)
  {
    var k := p.call.key;
    if p.call.Save? || p.call.Reject? {
      NoApprovalAdded(db.ledger, more, k, p.now);
    } else if p.call.Rollback? {
      VoidedGrows(db.ledger, more, k, p.now);
    } else if p.call.Approve? && p.counted && k in db'.rows {
      BackedGrows(db.ledger, more, k, db.rows[k].draft.Action());
    }
  }

  lemma TwoBack(ledger: seq<Event>, k: Key, action: Action, i: int, j: int)
    requires Stands(ledger, k, i) && Stands(ledger, k, j) && IsApproval(ledger[i], k) && IsApproval(ledger[j], k)
    requires action == DualApproval ==> ledger[i].actor != ledger[j].actor
    ensures Backed(ledger, k, action)
  {
  }

  /** Somebody counted besides the caller has an approval that stands. */
  lemma CountedStands(db: Db, k: Key, user: string) returns (i: int)
    requires k in db.rows && VoidedBefore(db.ledger, k, db.rows[k].updatedAt)
    requires DualApprovalSatisfied(DualApproval, PriorActors(db.ledger, k, db.rows[k].updatedAt), user)
    ensures Stands(db.ledger, k, i) && IsApproval(db.ledger[i], k) && db.ledger[i].actor != user
  {
    var prior := PriorActors(db.ledger, k, db.rows[k].updatedAt);
    QuorumNamesAnother(prior, user);
    var a :| a in prior && a != user;
    i :| 0 <= i < |db.ledger| && IsApproval(db.ledger[i], k) && db.ledger[i].actor == a
         && db.ledger[i].at >= db.rows[k].updatedAt;
  }

  /** A counted quorum stands, unless the row already had one. */
  lemma RecordIsBacked(db: Db, k: Key, user: string, role: string, actorType: string, at: Time)
    requires k in db.rows && RowHolds(db, k) && user != ""
    ensures var (db', outcome) := RecordTx(db, k, user, role, actorType, at);
            outcome.Recorded? && DualApprovalSatisfied(outcome.draft.Action(), outcome.prior, user) ==>
              Backed(db'.ledger, k, db.rows[k].draft.Action())
  {
    var (db', outcome) := RecordTx(db, k, user, role, actorType, at);
    var action := db.rows[k].draft.Action();
    if outcome.Recorded? && DualApprovalSatisfied(action, outcome.prior, user) {
      var e, n := Event(k, ApprovalGiven, user, at), |db.ledger|;
      assert db'.ledger == db.ledger + [e] && db'.ledger[n] == e && Stands(db'.ledger, k, n);
      if Backed(db.ledger, k, action) {
        BackedGrows(db.ledger, [e], k, action);
      } else if action == DualApproval {
        var i := CountedStands(db, k, user);
        StandsGrows(db.ledger, [e], k, i);
        assert db'.ledger[i] == db.ledger[i];
        TwoBack(db'.ledger, k, action, i, n);
      } else {
        TwoBack(db'.ledger, k, action, n, n);
      }
    }
  }

  lemma ResetHolds(db: Db, p: InFlight, at: Time, at2: Time)
    requires p.call.Save? || (p.call.Reject? && p.call.key in db.rows)
    requires CallHolds(db, p)
    ensures RowHolds(RunTransaction(db, p, at, at2).0, p.call.key)
  {
    var k, db' := p.call.key, RunTransaction(db, p, at, at2).0;
    var more := if p.call.Save? then [Event(k, RemediationProposed, "system", at)]
                                     + if p.call.draft.decision.Some? then [Event(k, DecisionMade, "system", at2)] else []
                else [Event(k, RejectionGiven, RecordedActor(p.call.user), at)];
    assert db'.ledger == db.ledger + more;
    NoApprovalAdded(db.ledger, more, k, p.now);
  }

  lemma WrittenRowHolds(db: Db, db': Db, more: seq<Event>, k: Key, now: Time)
    requires k in db.rows && k in db'.rows && RowHolds(db, k)
    requires NoReset(more, k) && db'.ledger == db.ledger + more
    requires db'.rows[k].draft == db.rows[k].draft && db'.rows[k].updatedAt == now
    requires (db'.rows[k].status == Approved || !VoidedBefore(db.ledger, k, now)) ==>
               Backed(db.ledger, k, db.rows[k].draft.Action())
    ensures RowHolds(db', k)
  {
    LedgerHolds(db.ledger, more, k, db.rows[k].draft.Action(), now);
  }

  lemma CommitRow(s: System, id: nat, at: Time, at2: Time, k: Key)
    requires Holds(s) && id in s.calls && s.clock < at < at2
    requires k in Next(s, Commit(id, at, at2)).db.rows
    ensures RowHolds(Next(s, Commit(id, at, at2)).db, k)
  {
    var p := s.calls[id];
    var db' := RunTransaction(s.db, p, at, at2).0;
    var more := TransactionFrame(s.db, p, at, at2);
    if k != p.call.key {
      RowStays(s.db, db', more, k);
    } else if p.call.Save? || p.call.Reject? {
      ResetHolds(s.db, p, at, at2);
    } else {
      OtherEvents(s.db, p, at, at2, more);
      if db'.rows[k] == s.db.rows[k] {
        RowStays(s.db, db', more, k);
      } else {
        WrittenRowHolds(s.db, db', more, k, p.now);
      }
    }
  }

  /** Approvals, applications and rollbacks reset nothing, and approve only what is backed. */
  lemma OtherEvents(db: Db, p: InFlight, at: Time, at2: Time, more: seq<Event>)
    requires !p.call.Save? && !p.call.Reject? && p.call.key in db.rows && RowHolds(db, p.call.key) && CallHolds(db, p)
    requires RunTransaction(db, p, at, at2).0.ledger == db.ledger + more
    ensures NoReset(more, p.call.key)
    ensures var k, db' := p.call.key, RunTransaction(db, p, at, at2).0;
            k in db'.rows && db'.rows[k] != db.rows[k] && (db'.rows[k].status == Approved || !VoidedBefore(db.ledger, k, p.now))
            ==> Backed(db.ledger, k, db.rows[k].draft.Action())
  {
    var db' := RunTransaction(db, p, at, at2).0;
    assert more == db'.ledger[|db.ledger|..];
  }

  lemma CommitCall(s: System, id: nat, at: Time, at2: Time, other: nat)
    requires Holds(s) && id in s.calls && s.clock < at < at2
    requires other in Next(s, Commit(id, at, at2)).calls
    ensures CallHolds(Next(s, Commit(id, at, at2)).db, Next(s, Commit(id, at, at2)).calls[other])
  {
    var p := s.calls[id];
    var (db', rest) := RunTransaction(s.db, p, at, at2);
    var more := TransactionFrame(s.db, p, at, at2);
    if other == id {
      var Approve(k, user, _, role, actorType) := p.call;
      RecordIsBacked(s.db, k, user, role, actorType, at);
    } else {
      var q := s.calls[other];
      assert CallHolds(s.db, q);
      if q.call.key == p.call.key {
        assert Apart(p.call, q.call) && Apart(q.call, p.call);
        if q.call.Approve? || q.call.Rollback? { ResetsNothing(s.db, p, at, at2, more); }
      }
      CallStays(s.db, db', more, q);
    }
  }

  lemma ResetsNothing(db: Db, p: InFlight, at: Time, at2: Time, more: seq<Event>)
    requires !p.call.Save? && !p.call.Reject?
    requires RunTransaction(db, p, at, at2).0.ledger == db.ledger + more
    ensures NoReset(more, p.call.key)
  {
    assert more == RunTransaction(db, p, at, at2).0.ledger[|db.ledger|..];
  }

  lemma BeginHolds(s: System, id: nat, call: Call, now: Time)
    requires var step := Begin(id, call, now);
             Holds(s) && Enabled(s, step) && KeepsResetsApart(s, step) && NamesItsActor(step)
    ensures Holds(Next(s, Begin(id, call, now)))
  {
    var s' := Next(s, Begin(id, call, now));
    forall i | i in s'.calls ensures CallHolds(s'.db, s'.calls[i]) {
      if i != id { assert s'.calls[i] == s.calls[i]; }
    }
  }

  lemma StepHolds(s: System, step: Step)
    requires Holds(s) && Enabled(s, step) && KeepsResetsApart(s, step) && NamesItsActor(step)
    ensures Holds(Next(s, step))
  {
    var s' := Next(s, step);
    match step
    case Begin(id, call, now) => BeginHolds(s, id, call, now);
    case Evaluate(run, hash, time) =>
      assert s'.db.ledger == s.db.ledger + [];
      forall k | k in s'.db.rows ensures RowHolds(s'.db, k) { RowStays(s.db, s'.db, [], k); }
      forall i | i in s'.calls ensures CallHolds(s'.db, s'.calls[i]) { CallStays(s.db, s'.db, [], s.calls[i]); }
    case Commit(id, at, at2) =>
      CommitKeepsClock(s, id, at, at2);
      forall k | k in s'.db.rows ensures RowHolds(s'.db, k) { CommitRow(s, id, at, at2, k); }
      forall i | i in s'.calls ensures CallHolds(s'.db, s'.calls[i]) { CommitCall(s, id, at, at2, i); }
  }

  lemma {:induction false} RunHolds(s: System, steps: seq<Step>)
    requires Holds(s) && IsGuardedRun(s, steps)
    ensures Holds(Execute(s, steps))
  {
    if steps == [] {
    } else {
      var before := steps[..|steps| - 1];
      RunHolds(s, before);
      StepHolds(Execute(s, before), steps[|steps| - 1]);
    }
  }

  // ------------------------------------------------------------------ main results

  /** In every run where no save or reject overlaps an approval or rollback of its row, an
    * approved row has its approvals, by two people if it needs two, since it was last
    * proposed or rejected. */
  lemma RejectionVoidsApprovals(steps: seq<Step>, k: Key)
    requires IsGuardedRun(INITIAL, steps) && k in Execute(INITIAL, steps).db.rows
    ensures ApprovalIsBacked(Execute(INITIAL, steps).db, k)
  {
    RunHolds(INITIAL, steps);
  }

  // ---------------------------------------------------------------- whole calls

  ghost predicate Settled(db: Db, clock: Time) { Holds(System(db, clock, map[])) }

  lemma AloneHolds(db: Db, clock: Time, call: Call, now: Time, at: Time, at2: Time)
    requires Settled(db, clock) && clock < now < at < at2
    requires call.Approve? ==> call.user != ""
    ensures var (db', rest) := RunTransaction(db, InFlight(call, now, false), at, at2);
            if rest.None? then Settled(db', at2)
            else Settled(RunTransaction(db', rest.value, at2 + 1, at2 + 2).0, at2 + 2)
  {
    var s0 := System(db, clock, map[]);
    StepHolds(s0, Begin(0, call, now));
    var s1 := Next(s0, Begin(0, call, now));
    StepHolds(s1, Commit(0, at, at2));
    var s2 := Next(s1, Commit(0, at, at2));
    var (db', rest) := RunTransaction(db, InFlight(call, now, false), at, at2);
    if rest.None? {
      assert s2 == System(db', at2, map[]);
    } else {
      StepHolds(s2, Commit(0, at2 + 1, at2 + 2));
      assert Next(s2, Commit(0, at2 + 1, at2 + 2))
             == System(RunTransaction(db', rest.value, at2 + 1, at2 + 2).0, at2 + 2, map[]);
    }
  }

  lemma ApproveCallHolds(db: Db, clock: Time, k: Key, approved: bool, user: string, comment: Option<string>,
                         role: string, actorType: string, now: Time, at: Time)
    requires Settled(db, clock) && clock < now < at
    requires approved ==> user != ""
    ensures Settled(ApproveCall(db, k, approved, user, comment, role, actorType, now, at).0, at)
  {
    var call := if approved then Approve(k, user, comment, role, actorType) else Reject(k, user, comment);
    AloneHolds(db, clock, call, now, at, at + 1);
    var db' := ApproveCall(db, k, approved, user, comment, role, actorType, now, at).0;
    var later :| Settled(db', later);
    StampsBounded(db, clock, k, approved, user, comment, role, actorType, now, at);
  }

  lemma SettledEarlier(db: Db, clock: Time, at: Time)
    requires Settled(db, clock) && ClockInv(System(db, at, map[]))
    ensures Settled(db, at)
  {
  }

  lemma OneTransactionHolds(db: Db, clock: Time, call: Call, now: Time, at: Time, at2: Time)
    requires Settled(db, clock) && clock < now < at < at2 && !call.Approve?
    ensures Settled(RunTransaction(db, InFlight(call, now, false), at, at2).0, at2)
  {
    AloneHolds(db, clock, call, now, at, at2);
  }

  lemma HandleHolds(db: Db, clock: Time, r: Request)
    requires Settled(db, clock) && Follows(clock, r) && Named(r)
    ensures Settled(Handle(db, r), Ends(r))
  {
    match r
    case Evaluated(run, hash, at) => StepHolds(System(db, clock, map[]), Evaluate(run, hash, at));
    case Ask(call, now, at, at2) =>
      match call
      case Approve(k, user, comment, role, actorType) =>
        ApproveCallHolds(db, clock, k, true, user, comment, role, actorType, now, at);
      case Reject(k, user, comment) =>
        ApproveCallHolds(db, clock, k, false, user, comment, "", "", now, at);
      case Apply(k, user) =>
        OneTransactionHolds(db, clock, call, now, at, at2);
        SettledEarlier(Handle(db, r), at2, at);
      case _ => OneTransactionHolds(db, clock, call, now, at, at2);
  }

  lemma {:induction false} ServingHolds(requests: seq<Request>)
    requires OnTime(requests) && AllNamed(requests)
    ensures Settled(ServeAll(requests), EndOf(requests))
  {
    if requests == [] {
    } else {
      var before, last := requests[..|requests| - 1], requests[|requests| - 1];
      ServingHolds(before);
      HandleHolds(ServeAll(before), EndOf(before), last);
    }
  }

  /** So it is in any history of whole calls, one at a time. */
  lemma WholeCallsVoidApprovals(requests: seq<Request>, k: Key)
    requires OnTime(requests) && AllNamed(requests) && k in ServeAll(requests).rows
    ensures ApprovalIsBacked(ServeAll(requests), k)
  {
    ServingHolds(requests);
  }

  // ------------------------------------------------- a rejection that comes in between

  ghost predicate ResetSince(earlier: seq<Event>, later: seq<Event>, k: Key) {
    exists i :: |earlier| <= i < |later| && Resets(later[i], k)
  }

  /** An approval that counted its quorum is in flight, and from there on anything may happen,
    * as long as nobody approves anew what was reset meanwhile. Its finalisation leaves an
    * approved row that has its approvals since the latest proposal or rejection exactly if
    * neither came in between: it overwrites a rejection that did. */
  lemma OverwritesRejectionExactly(steps: seq<Step>, n: nat, id: nat, at: Time, at2: Time)
    requires n <= |steps| && IsRun(INITIAL, steps) && IsGuardedRun(INITIAL, steps[..n])
    requires var s, t := Execute(INITIAL, steps[..n]), Execute(INITIAL, steps);
             && id in s.calls && s.calls[id].call.Approve? && s.calls[id].counted
             && id in t.calls && t.calls[id] == s.calls[id] && Enabled(t, Commit(id, at, at2))
             && var k := s.calls[id].call.key;
             && k in t.db.rows && t.db.rows[k].draft.preflight == Safe
             && (ResetSince(s.db.ledger, t.db.ledger, k) ==>
                   forall i :: Stands(t.db.ledger, k, i) ==> !IsApproval(t.db.ledger[i], k))
    ensures var s, t := Execute(INITIAL, steps[..n]), Execute(INITIAL, steps);
            var k, db' := s.calls[id].call.key, Next(t, Commit(id, at, at2)).db;
            k in db'.rows && db'.rows[k].status == Approved
            && (ApprovalIsBacked(db', k) <==> !ResetSince(s.db.ledger, t.db.ledger, k))
  {
    var s, t := Execute(INITIAL, steps[..n]), Execute(INITIAL, steps);
    var p := s.calls[id];
    var k := p.call.key;
    RunHolds(INITIAL, steps[..n]);
    assert CallHolds(s.db, p);
    assert Next(t, Commit(id, at, at2)).db == FinalizeTx(t.db, k, true, p.call.user, p.call.comment, p.now, at).0;
    if !ResetSince(s.db.ledger, t.db.ledger, k) {
      SuffixIsRun(steps, n);
      assert !SavedSince(s.db.ledger, t.db.ledger, k) by { NotSaved(s.db.ledger, t.db.ledger, k); }
      UnsavedKeepsDraft(s, steps[n..], k);
      BackedUntil(s.db.ledger, t.db.ledger, k, t.db.rows[k].draft.Action());
    }
    FinalisedBacking(t.db, k, p.call.user, p.call.comment, p.now, at);
  }

  lemma NotSaved(earlier: seq<Event>, later: seq<Event>, k: Key)
    requires !ResetSince(earlier, later, k)
    ensures !SavedSince(earlier, later, k)
  {
    forall i | |earlier| <= i < |later| ensures !IsProposal(later[i], k) { assert !Resets(later[i], k); }
  }

  lemma BackedUntil(earlier: seq<Event>, later: seq<Event>, k: Key, action: Action)
    requires earlier <= later && Backed(earlier, k, action) && !ResetSince(earlier, later, k)
    ensures Backed(later, k, action)
  {
    var more := later[|earlier|..];
    assert later == earlier + more;
    forall i | 0 <= i < |more| ensures !Resets(more[i], k) { assert later[|earlier| + i] == more[i]; }
    BackedGrows(earlier, more, k, action);
  }

  lemma FinalisedBacking(db: Db, k: Key, user: string, comment: Option<string>, now: Time, at: Time)
    requires k in db.rows && db.rows[k].draft.preflight == Safe
    ensures var db' := FinalizeTx(db, k, true, user, comment, now, at).0;
            && k in db'.rows && db'.rows[k].status == Approved
            && (ApprovalIsBacked(db', k) <==> Backed(db.ledger, k, db.rows[k].draft.Action()))
  {
    assert db.ledger + [] == db.ledger;
  }

  // --------------------------------------------- a rejection or rollback that comes late

  /** Nobody but this caller has an approval that stands. */
  ghost predicate NobodyElseStands(ledger: seq<Event>, k: Key, user: string) {
    forall i :: Stands(ledger, k, i) && IsApproval(ledger[i], k) ==> ledger[i].actor == RecordedActor(user)
  }

  /** The row waits for two people and only this caller's approvals stand. */
  ghost predicate AwaitsBacking(db: Db, k: Key, user: string) {
    && k in db.rows
    && db.rows[k].draft.preflight == Safe && db.rows[k].draft.Action() == DualApproval
    && db.rows[k].status != Approved
    && NobodyElseStands(db.ledger, k, user)
  }

  /** A further approval by that caller alone completes the rule, without a second approval
    * that stands, exactly when somebody else's is stamped at or after updated_at. */
  lemma OneCallerUnbacksItExactly(db: Db, k: Key, user: string, comment: Option<string>, role: string, actorType: string,
                                  now: Time, at: Time)
    requires AwaitsBacking(db, k, user) && MayApprove(db.rows[k].draft, role, actorType)
    ensures var db' := ApproveCall(db, k, true, user, comment, role, actorType, now, at).0;
            k in db'.rows && (ApprovalIsBacked(db', k) <==> !CountsAnother(db.ledger, k, db.rows[k].updatedAt, user))
  {
    var e := Event(k, ApprovalGiven, RecordedActor(user), at);
    var db' := ApproveCall(db, k, true, user, comment, role, actorType, now, at).0;
    CompletesExactly(db, k, user, role, actorType, at);
    assert db'.ledger == db.ledger + [e] + [] == db.ledger + [e];
    OnlyOneStands(db.ledger, e, k, user);
  }

  lemma OnlyOneStands(ledger: seq<Event>, e: Event, k: Key, user: string)
    requires NobodyElseStands(ledger, k, user) && IsApproval(e, k) && e.actor == RecordedActor(user)
    ensures !Backed(ledger + [e], k, DualApproval)
  {
    forall i | Stands(ledger + [e], k, i) && IsApproval((ledger + [e])[i], k)
      ensures (ledger + [e])[i].actor == RecordedActor(user)
    {
      if i < |ledger| { StandsGrows(ledger, [e], k, i); }
    }
  }

  /** So after any rejection: one caller alone gets the row approved exactly when somebody
    * else's approval is stamped at or after the instant at which the reject began. */
  lemma LateRejectExactly(db: Db, k: Key, rejecter: string, reason: Option<string>, began: Time, rejectedAt: Time,
                          user: string, comment: Option<string>, role: string, actorType: string, now: Time, at: Time)
    requires k in db.rows && db.rows[k].draft.preflight == Safe && db.rows[k].draft.Action() == DualApproval
    requires MayApprove(db.rows[k].draft, role, actorType)
    ensures var rejected := FinalizeTx(db, k, false, rejecter, reason, began, rejectedAt).0;
            var db' := ApproveCall(rejected, k, true, user, comment, role, actorType, now, at).0;
            k in db'.rows && (ApprovalIsBacked(db', k) <==> !CountsAnother(db.ledger, k, began, user))
  {
    var rejected := FinalizeTx(db, k, false, rejecter, reason, began, rejectedAt).0;
    var e := Event(k, RejectionGiven, RecordedActor(rejecter), rejectedAt);
    assert rejected.ledger == db.ledger + [e];
    RejectedWaits(db.ledger, e, k, began, user);
    OneCallerUnbacksItExactly(rejected, k, user, comment, role, actorType, now, at);
  }

  lemma RejectedWaits(ledger: seq<Event>, e: Event, k: Key, since: Time, user: string)
    requires Resets(e, k) && !IsApproval(e, k)
    ensures NobodyElseStands(ledger + [e], k, user)
    ensures CountsAnother(ledger + [e], k, since, user) <==> CountsAnother(ledger, k, since, user)
  {
    assert (ledger + [e])[|ledger|] == e;
    forall i | Stands(ledger + [e], k, i) ensures i == |ledger| {}
    assert forall x :: x in ledger + [e] <==> x in ledger || x == e;
  }

  /** And after the rollback of an applied row that is no longer approved, which sets updated_at
    * to the instant at which it began. */
  lemma LateRollbackExactly(db: Db, k: Key, undoer: string, failed: bool, began: Time, undoneAt: Time, undoneAt2: Time,
                            user: string, comment: Option<string>, role: string, actorType: string, now: Time, at: Time)
    requires AwaitsBacking(db, k, user) && db.rows[k].appliedAt.Some? && MayApprove(db.rows[k].draft, role, actorType)
    ensures var undone := RollbackTx(db, k, undoer, failed, began, undoneAt, undoneAt2).0;
            var db' := ApproveCall(undone, k, true, user, comment, role, actorType, now, at).0;
            k in db'.rows && (ApprovalIsBacked(db', k) <==> !CountsAnother(db.ledger, k, began, user))
  {
    var undone := RollbackTx(db, k, undoer, failed, began, undoneAt, undoneAt2).0;
    var more := (if failed then [Event(k, VerificationFailed, RecordedActor(undoer), undoneAt)] else [])
                + [Event(k, ScriptRolledBack(db.rows[k].preChange), RecordedActor(undoer), undoneAt2)];
    assert undone.ledger == db.ledger + more;
    StillWaits(db.ledger, more, k, began, user);
    OneCallerUnbacksItExactly(undone, k, user, comment, role, actorType, now, at);
  }

  lemma StillWaits(ledger: seq<Event>, more: seq<Event>, k: Key, since: Time, user: string)
    requires NobodyElseStands(ledger, k, user) && NoReset(more, k)
    requires forall i :: 0 <= i < |more| ==> !IsApproval(more[i], k)
    ensures NobodyElseStands(ledger + more, k, user)
    ensures CountsAnother(ledger + more, k, since, user) <==> CountsAnother(ledger, k, since, user)
  {
    var all := ledger + more;
    forall i | Stands(all, k, i) && IsApproval(all[i], k) ensures all[i].actor == RecordedActor(user) {
      assert i < |ledger| by { assert forall j :: |ledger| <= j < |all| ==> all[j] == more[j - |ledger|]; }
      StandsGrows(ledger, more, k, i);
    }
    assert forall x :: x in all <==> x in ledger || x in more;
    assert forall x :: x in more ==> !IsApproval(x, k);
  }

  lemma NothingStands(ledger: seq<Event>, k: Key)
    requires ledger != [] && Resets(ledger[|ledger| - 1], k)
    ensures forall action :: !Backed(ledger, k, action)
  {
    forall i | Stands(ledger, k, i) ensures i == |ledger| - 1 {}
  }
}
