/** The remediation store as the service uses it: whole calls, one at a time. */
module ApprovalStore {
  import opened Common
  import opened ApprovalMatrix
  import opened RemediationDb
  import opened ApprovalProtocol
  import opened ApprovalSafety

  datatype ApproveResult =
    | NotFound
    | Refused(reason: Denial)
    | Awaiting(row: Row, received: nat)
    | Finalised(row: Row, quorum: Option<nat>)
    | TurnedDown(row: Row)

  /** The two transactions of approve run back to back. */
  function ApproveCall(db: Db, k: Key, approved: bool, user: string, comment: Option<string>,
                       role: string, actorType: string, now: Time, at: Time): (Db, ApproveResult)
  {
    if !approved then
      var (db', row) := FinalizeTx(db, k, false, user, comment, now, at);
      (db', if row.None? then NotFound else TurnedDown(row.value))
    else
      var (db', outcome) := RecordTx(db, k, user, role, actorType, at);
      match outcome
      case NotApprovable => (db', NotFound)
      case Denied(reason) => (db', Refused(reason))
      case Recorded(draft, prior) =>
        var received := |prior + {user}|;
        if !DualApprovalSatisfied(draft.Action(), prior, user) then
          (db', if k in db'.rows then Awaiting(db'.rows[k], received) else NotFound)
        else
          var (db'', row) := FinalizeTx(db', k, true, user, comment, now, at);
          (db'', if row.None? then NotFound
                 else Finalised(row.value, if draft.Action() == DualApproval then Some(received) else None))
  }

  /** A store between calls. */
  ghost predicate Quiescent(db: Db, clock: Time) {
    Inv(System(db, clock, map[]))
  }

  lemma AloneKeepsInv(db: Db, clock: Time, call: Call, now: Time, at: Time, at2: Time)
    requires Quiescent(db, clock) && clock < now < at < at2
    requires call.Approve? ==> call.user != ""
    ensures var (db', rest) := RunTransaction(db, InFlight(call, now, false), at, at2);
            if rest.None? then Quiescent(db', at2)
            else Quiescent(RunTransaction(db', rest.value, at2 + 1, at2 + 2).0, at2 + 2)
  {
    var s0 := System(db, clock, map[]);
    StepKeepsInv(s0, Begin(0, call, now));
    var s1 := Next(s0, Begin(0, call, now));
    StepKeepsInv(s1, Commit(0, at, at2));
    var s2 := Next(s1, Commit(0, at, at2));
    var (db', rest) := RunTransaction(db, InFlight(call, now, false), at, at2);
    if rest.None? {
      assert s2 == System(db', at2, map[]);
    } else {
      StepKeepsInv(s2, Commit(0, at2 + 1, at2 + 2));
      assert Next(s2, Commit(0, at2 + 1, at2 + 2))
             == System(RunTransaction(db', rest.value, at2 + 1, at2 + 2).0, at2 + 2, map[]);
    }
  }

  lemma EvaluateAlone(db: Db, clock: Time, run: string, hash: Option<Hash>, at: Time)
    requires Quiescent(db, clock) && clock < at
    ensures Quiescent(EvaluateTx(db, run, hash, at), at)
  {
    StepKeepsInv(System(db, clock, map[]), Evaluate(run, hash, at));
  }

  lemma ApproveKeepsQuiescent(db: Db, clock: Time, k: Key, approved: bool, user: string, comment: Option<string>,
                              role: string, actorType: string, now: Time, at: Time)
    requires Quiescent(db, clock) && clock < now < at
    requires approved ==> user != ""
    ensures Quiescent(ApproveCall(db, k, approved, user, comment, role, actorType, now, at).0, at)
  {
    var call := if approved then Approve(k, user, comment, role, actorType) else Reject(k, user, comment);
    AloneKeepsInv(db, clock, call, now, at, at + 1);
    var db' := ApproveCall(db, k, approved, user, comment, role, actorType, now, at).0;
    var later :| Quiescent(db', later);
    StampsBounded(db, clock, k, approved, user, comment, role, actorType, now, at);
  }

  lemma StampsBounded(db: Db, clock: Time, k: Key, approved: bool, user: string, comment: Option<string>,
                      role: string, actorType: string, now: Time, at: Time)
    requires ClockInv(System(db, clock, map[])) && clock < now < at
    ensures ClockInv(System(ApproveCall(db, k, approved, user, comment, role, actorType, now, at).0, at, map[]))
  {
  }

  // ------------------------------------------------------- runs of whole calls

  datatype Request =
    | Ask(call: Call, now: Time, at: Time, at2: Time)
    | Evaluated(run: string, hash: Option<Hash>, at: Time)

  function Handle(db: Db, r: Request): Db {
    match r
    case Evaluated(run, hash, at) => EvaluateTx(db, run, hash, at)
    case Ask(call, now, at, at2) =>
      match call
      case Save(k, d) => SaveTx(db, k, d, now, at, at2)
      case Approve(k, user, comment, role, actorType) =>
        ApproveCall(db, k, true, user, comment, role, actorType, now, at).0
      case Reject(k, user, comment) => ApproveCall(db, k, false, user, comment, "", "", now, at).0
      case Apply(k, user) => ApplyTx(db, k, user, now, at).0
      case Rollback(k, user, failed) => RollbackTx(db, k, user, failed, now, at, at2).0
  }

  function ApproveRequest(k: Key, approved: bool, user: string, comment: Option<string>,
                          role: string, actorType: string, now: Time, at: Time): Request
  {
    Ask(if approved then Approve(k, user, comment, role, actorType) else Reject(k, user, comment), now, at, at + 1)
  }

  /** The last instant a request reads from the clock. */
  function Ends(r: Request): Time {
    if r.Ask? && (r.call.Save? || r.call.Rollback?) then r.at2 else r.at
  }

  function EndOf(requests: seq<Request>): Time {
    if requests == [] then 0 else Ends(requests[|requests| - 1])
  }

  predicate Follows(clock: Time, r: Request) {
    if r.Ask? then clock < r.now < r.at < r.at2 else clock < r.at
  }

  /** Calls one at a time on a strictly increasing clock. */
  predicate OnTime(requests: seq<Request>) {
    requests != [] ==>
      OnTime(requests[..|requests| - 1]) && Follows(EndOf(requests[..|requests| - 1]), requests[|requests| - 1])
  }

  predicate Named(r: Request) { r.Ask? && r.call.Approve? ==> r.call.user != "" }

  ghost predicate AllNamed(requests: seq<Request>) {
    forall i :: 0 <= i < |requests| ==> Named(requests[i])
  }

  const NOTHING := Db(map[], [], [])

  function ServeAll(requests: seq<Request>): Db {
    if requests == [] then NOTHING else Handle(ServeAll(requests[..|requests| - 1]), requests[|requests| - 1])
  }

  lemma EndsEarlier(db: Db, clock: Time, at: Time)
    requires Quiescent(db, clock) && ClockInv(System(db, at, map[]))
    ensures Quiescent(db, at)
  {
  }

  lemma OneTransactionKeepsQuiescent(db: Db, clock: Time, call: Call, now: Time, at: Time, at2: Time)
    requires Quiescent(db, clock) && clock < now < at < at2 && !call.Approve?
    ensures Quiescent(RunTransaction(db, InFlight(call, now, false), at, at2).0, at2)
  {
    AloneKeepsInv(db, clock, call, now, at, at2);
  }

  lemma DecisionKeepsQuiescent(db: Db, clock: Time, call: Call, now: Time, at: Time, at2: Time)
    requires Quiescent(db, clock) && clock < now < at < at2
    requires call.Reject? || (call.Approve? && call.user != "")
    ensures Quiescent(Handle(db, Ask(call, now, at, at2)), at)
  {
    if call.Approve? {
      ApproveKeepsQuiescent(db, clock, call.key, true, call.user, call.comment, call.role, call.actorType, now, at);
    } else {
      ApproveKeepsQuiescent(db, clock, call.key, false, call.user, call.comment, "", "", now, at);
    }
  }

  lemma UpdateKeepsQuiescent(db: Db, clock: Time, call: Call, now: Time, at: Time, at2: Time)
    requires Quiescent(db, clock) && clock < now < at < at2
    requires call.Save? || call.Apply? || call.Rollback?
    ensures Quiescent(Handle(db, Ask(call, now, at, at2)), Ends(Ask(call, now, at, at2)))
  {
    OneTransactionKeepsQuiescent(db, clock, call, now, at, at2);
    if call.Apply? { EndsEarlier(Handle(db, Ask(call, now, at, at2)), at2, at); }
  }

  lemma HandleKeepsQuiescent(db: Db, clock: Time, r: Request)
    requires Quiescent(db, clock) && Follows(clock, r) && Named(r)
    ensures Quiescent(Handle(db, r), Ends(r))
  {
    match r
    case Evaluated(run, hash, at) => EvaluateAlone(db, clock, run, hash, at);
    case Ask(call, now, at, at2) =>
      if call.Approve? || call.Reject? {
        DecisionKeepsQuiescent(db, clock, call, now, at, at2);
      } else {
        UpdateKeepsQuiescent(db, clock, call, now, at, at2);
      }
  }

  lemma {:induction false} ServingKeepsQuiescent(requests: seq<Request>)
    requires OnTime(requests) && AllNamed(requests)
    ensures Quiescent(ServeAll(requests), EndOf(requests))
  {
    if requests == [] {
    } else {
      var before, last := requests[..|requests| - 1], requests[|requests| - 1];
      ServingKeepsQuiescent(before);
      HandleKeepsQuiescent(ServeAll(before), EndOf(before), last);
    }
  }

  /** Quorum safety and lifecycle for any history of whole calls. */
  lemma WholeCallsAreSafe(requests: seq<Request>, k: Key)
    requires OnTime(requests) && AllNamed(requests)
    requires k in ServeAll(requests).rows
    ensures ApprovalIsSound(ServeAll(requests), k)
    ensures LifecycleIsSound(ServeAll(requests), k)
  {
    ServingKeepsQuiescent(requests);
  }

  /** The requests served so far account for the tables and the clock. */
  ghost predicate Explains(history: seq<Request>, db: Db, clock: Time) {
    OnTime(history) && db == ServeAll(history) && clock == EndOf(history)
  }

  lemma ExplainsMore(history: seq<Request>, db: Db, clock: Time, r: Request)
    requires Explains(history, db, clock) && Follows(clock, r)
    ensures Explains(history + [r], Handle(db, r), Ends(r))
  {
    assert (history + [r])[..|history|] == history;
  }

  class Store {
    var proposals: map<Key, Row>
    var ledger: seq<Event>
    var evaluations: seq<Evaluation>
    /** The last instant the system clock returned. */
    var clock: Time
    /** The requests served, in order. */
    ghost var history: seq<Request>

    ghost function State(): Db
      reads this
    {
      Db(proposals, ledger, evaluations)
    }

    ghost predicate Valid()
      reads this
    {
      Explains(history, State(), clock)
    }

    /** With every approver named so far, the stored rows are safe. */
    lemma Safety(k: Key)
      requires Valid() && AllNamed(history) && k in proposals
      ensures Quiescent(State(), clock)
      ensures ApprovalIsSound(State(), k) && LifecycleIsSound(State(), k)
    {
      ServingKeepsQuiescent(history);
    }

    constructor ()
      ensures Valid() && history == [] && clock == 0 && State() == NOTHING
    {
      proposals, ledger, evaluations, clock, history := map[], [], [], 0, [];
    }

    /** Notes the request about to be served; what is left is to do what it asks for. */
    ghost method Remember(r: Request)
      requires Valid() && Follows(clock, r)
      modifies this`history
      ensures history == old(history) + [r]
      ensures Explains(history, Handle(State(), r), Ends(r))
    {
      ExplainsMore(history, State(), clock, r);
      history := history + [r];
    }

    method RecordEvent(k: Key, kind: EventKind, actor: string, at: Time)
      modifies this`ledger
      ensures ledger == old(ledger) + [Event(k, kind, RecordedActor(actor), at)]
    {
      var name := actor;
      if name == "" { name := "system"; }
      ledger := ledger + [Event(k, kind, name, at)];
    }

    method SaveProposal(k: Key, d: Draft, now: Time, at: Time, at2: Time)
      requires Valid() && clock < now < at < at2
      modifies this
      ensures Valid() && history == old(history) + [Ask(Call.Save(k, d), now, at, at2)]
      ensures clock == at2
      ensures State() == SaveTx(old(State()), k, d, now, at, at2)
    {
      Remember(Ask(Call.Save(k, d), now, at, at2));
      var written := Row(d, Status.Pending, None, None, None, None, None, NotApplied, now);
      if k in proposals {
        written := written.(preChange := proposals[k].preChange);
      }
      proposals := proposals[k := written];
      RecordEvent(k, RemediationProposed, "system", at);
      if d.decision.Some? {
        RecordEvent(k, DecisionMade, "system", at2);
      }
      clock := at2;
      assert State() == SaveTx(old(State()), k, d, now, at, at2);
    }

    /** SELECT DISTINCT actor over this version's approvals. */
    method CountPriorActors(k: Key, since: Time) returns (prior: set<string>)
      ensures prior == PriorActors(ledger, k, since)
    {
      prior := {};
      for i := 0 to |ledger|
        invariant prior == PriorActors(ledger[..i], k, since)
      {
        assert ledger[..i + 1] == ledger[..i] + [ledger[i]];
        if ledger[i].key == k && ledger[i].kind == ApprovalGiven && ledger[i].at >= since {
          prior := prior + {ledger[i].actor};
        }
      }
      assert ledger[..|ledger|] == ledger;
    }

    method FinalizeApproval(k: Key, approved: bool, user: string, comment: Option<string>, now: Time, at: Time)
      returns (row: Option<Row>)
      modifies this`proposals, this`ledger
      ensures (State(), row) == FinalizeTx(old(State()), k, approved, user, comment, now, at)
    {
      var pre := NewestHash(evaluations, k.run);
      if k !in proposals || (approved && proposals[k].draft.preflight != Safe) {
        return None;
      }
      var r := proposals[k].(status := if approved then Approved else Rejected, approvedBy := Some(user),
                             comment := comment, approvedAt := Some(now), updatedAt := now,
                             preChange := if approved then pre else proposals[k].preChange);
      proposals := proposals[k := r];
      if !approved {
        RecordEvent(k, RejectionGiven, user, at);
      }
      assert approved ==> ledger + [] == ledger;
      return Some(r);
    }

    method Approve(k: Key, approved: bool, user: string, comment: Option<string>,
                   role: string, actorType: string, now: Time, at: Time)
      returns (result: ApproveResult)
      requires Valid() && clock < now < at
      modifies this
      ensures Valid() && history == old(history) + [ApproveRequest(k, approved, user, comment, role, actorType, now, at)]
      ensures clock == at
      ensures (State(), result) == ApproveCall(old(State()), k, approved, user, comment, role, actorType, now, at)
    {
      Remember(ApproveRequest(k, approved, user, comment, role, actorType, now, at));
      clock := at;
      if !approved {
        var row := FinalizeApproval(k, false, user, comment, now, at);
        return if row.None? then NotFound else TurnedDown(row.value);
      }
      if k !in proposals || proposals[k].draft.preflight != Safe {
        return NotFound;
      }
      var draft := proposals[k].draft;
      var denial := CheckPermission(role, draft.Action(), draft.Risk(), draft.BlastRadius(), actorType);
      if denial.Some? {
        return Refused(denial.value);
      }
      var prior := CountPriorActors(k, proposals[k].updatedAt);
      RecordEvent(k, ApprovalGiven, user, at);
      var received := |prior + {user}|;
      if !DualApprovalSatisfied(draft.Action(), prior, user) {
        return Awaiting(proposals[k], received);
      }
      var row := FinalizeApproval(k, true, user, comment, now, at);
      if row.None? {
        return NotFound;
      }
      return Finalised(row.value, if draft.Action() == DualApproval then Some(received) else None);
    }

    method MarkApplied(k: Key, user: string, now: Time, at: Time) returns (row: Option<Row>)
      requires Valid() && clock < now < at
      modifies this
      ensures Valid() && history == old(history) + [Ask(Call.Apply(k, user), now, at, at + 1)]
      ensures clock == at
      ensures (State(), row) == ApplyTx(old(State()), k, user, now, at)
    {
      Remember(Ask(Call.Apply(k, user), now, at, at + 1));
      clock := at;
      if k !in proposals || proposals[k].status != Approved {
        return None;
      }
      var r := proposals[k].(appliedAt := Some(now), rollback := Applied, updatedAt := now);
      proposals := proposals[k := r];
      RecordEvent(k, ScriptApplied, user, at);
      return Some(r);
    }

    method Rollback(k: Key, user: string, verificationFailed: bool, now: Time, at: Time, at2: Time)
      returns (row: Option<Row>)
      requires Valid() && clock < now < at < at2
      modifies this
      ensures Valid() && history == old(history) + [Ask(Call.Rollback(k, user, verificationFailed), now, at, at2)]
      ensures clock == at2
      ensures (State(), row) == RollbackTx(old(State()), k, user, verificationFailed, now, at, at2)
    {
      Remember(Ask(Call.Rollback(k, user, verificationFailed), now, at, at2));
      clock := at2;
      if verificationFailed {
        RecordEvent(k, VerificationFailed, user, at);
      }
      if k !in proposals || proposals[k].appliedAt.None? {
        assert !verificationFailed ==> ledger + [] == ledger;
        return None;
      }
      var r := proposals[k].(rollback := RolledBack, updatedAt := now);
      proposals := proposals[k := r];
      RecordEvent(k, ScriptRolledBack(r.preChange), user, at2);
      return Some(r);
    }

    /** The compliance service finishing an evaluation: the run's proposals go, and with a
      * baseline its hash enters the history. */
    method RecordEvaluation(run: string, hash: Option<Hash>, at: Time)
      requires Valid() && clock < at
      modifies this
      ensures Valid() && history == old(history) + [Evaluated(run, hash, at)]
      ensures clock == at
      ensures State() == EvaluateTx(old(State()), run, hash, at)
    {
      Remember(Evaluated(run, hash, at));
      proposals := map k | k in proposals && k.run != run :: proposals[k];
      if hash.Some? {
        evaluations := evaluations + [Evaluation(run, hash.value, at)];
      }
      clock := at;
    }
  }
}
