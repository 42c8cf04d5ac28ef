/** Every column of a stored proposal, traced to the calls that wrote it. */
module ApprovalHistory {
  import opened Common
  import opened RemediationDb
  import opened ApprovalProtocol
  import opened ApprovalSafety

  /** What a step may do to a row. */
  datatype Write = Proposal | Verdict | Application | Undoing | Removal

  /** The step commits this kind of write to the row of k. */
  predicate Writes(s: System, step: Step, k: Key, w: Write) {
    if w == Removal then step.Evaluate? && step.run == k.run
    else
      && step.Commit? && step.id in s.calls && s.calls[step.id].call.key == k
      && var p := s.calls[step.id];
      match w
      case Proposal => p.call.Save?
      case Verdict =>
        k in s.db.rows && (p.call.Reject? || (p.call.Approve? && p.counted && s.db.rows[k].draft.preflight == Safe))
      case Application => p.call.Apply? && k in s.db.rows && s.db.rows[k].status == Approved
      case Undoing => p.call.Rollback? && k in s.db.rows && s.db.rows[k].appliedAt.Some?
      case Removal => false
  }

  /** The position of the latest such write, and -1 if there was none. */
  function Latest(steps: seq<Step>, k: Key, w: Write): (i: int)
    ensures -1 <= i < |steps|
  {
    if steps == [] then -1
    else
      var n := |steps| - 1;
      if Writes(Execute(INITIAL, steps[..n]), steps[n], k, w) then n else Latest(steps[..n], k, w)
  }

  ghost predicate WrittenLast(steps: seq<Step>, k: Key, w: Write, i: int) {
    && 0 <= i < |steps| && Writes(Execute(INITIAL, steps[..i]), steps[i], k, w)
    && forall j :: i < j < |steps| ==> !WritesAt(steps, k, w, j)
  }

  predicate WritesAt(steps: seq<Step>, k: Key, w: Write, j: nat)
    requires j < |steps|
  {
    Writes(Execute(INITIAL, steps[..j]), steps[j], k, w)
  }

  lemma SameBefore(steps: seq<Step>, k: Key, w: Write, j: nat)
    requires j < |steps| - 1
    ensures WritesAt(steps[..|steps| - 1], k, w, j) <==> WritesAt(steps, k, w, j)
  {
    assert steps[..|steps| - 1][..j] == steps[..j];
  }

  /** Latest means what it says. */
  lemma {:induction false} LatestIsLast(steps: seq<Step>, k: Key, w: Write)
    ensures Latest(steps, k, w) >= 0 ==> WrittenLast(steps, k, w, Latest(steps, k, w))
    ensures Latest(steps, k, w) < 0 ==> forall j :: 0 <= j < |steps| ==> !WritesAt(steps, k, w, j)
  {
    if steps == [] {
    } else {
      var n := |steps| - 1;
      LatestIsLast(steps[..n], k, w);
      forall j | 0 <= j < n ensures WritesAt(steps[..n], k, w, j) <==> WritesAt(steps, k, w, j) {
        SameBefore(steps, k, w, j);
      }
      if !WritesAt(steps, k, w, n) && Latest(steps, k, w) >= 0 { assert WritesAt(steps[..n], k, w, Latest(steps, k, w)); }
    }
  }

  /** The call whose transaction the i-th step commits. */
  function CallAt(steps: seq<Step>, i: int): Option<InFlight> {
    if 0 <= i < |steps| && steps[i].Commit? && steps[i].id in Execute(INITIAL, steps[..i]).calls
    then Some(Execute(INITIAL, steps[..i]).calls[steps[i].id]) else None
  }

  function Max(a: int, b: int): int { if a < b then b else a }

  /** The row by its latest proposal p, and the latest verdict v, application a and undoing u
    * after it. */
  ghost predicate Explains(row: Row, steps: seq<Step>, p: int, v: int, a: int, u: int) {
    && p >= 0 && CallAt(steps, p).Some? && CallAt(steps, p).value.call.Save?
    && row.draft == CallAt(steps, p).value.call.draft
    && VerdictExplained(row, steps, p, v)
    && ApplicationExplained(row, steps, p, a, u)
    && var last := CallAt(steps, Max(Max(p, v), Max(a, u)));
    last.Some? && row.updatedAt == last.value.now
  }

  ghost predicate VerdictExplained(row: Row, steps: seq<Step>, p: int, v: int) {
    if v <= p then row.status == Pending && row.approvedBy == None && row.comment == None && row.approvedAt == None
    else
      && CallAt(steps, v).Some?
      && var c := CallAt(steps, v).value;
      && row.approvedAt == Some(c.now)
      && match c.call
         case Approve(_, user, comment, _, _) => row.status == Approved && row.approvedBy == Some(user) && row.comment == comment
         case Reject(_, user, comment) => row.status == Rejected && row.approvedBy == Some(user) && row.comment == comment
         case _ => false
  }

  ghost predicate ApplicationExplained(row: Row, steps: seq<Step>, p: int, a: int, u: int) {
    if a <= p then row.appliedAt == None && row.rollback == NotApplied && u <= p
    else
      && CallAt(steps, a).Some? && row.appliedAt == Some(CallAt(steps, a).value.now)
      && row.rollback == if u > a then RolledBack else Applied
  }

  lemma SameCall(steps: seq<Step>, i: int)
    requires steps != [] && i < |steps| - 1
    ensures CallAt(steps[..|steps| - 1], i) == CallAt(steps, i)
  {
    if i >= 0 { assert steps[..|steps| - 1][..i] == steps[..i]; }
  }

  /** What one step leaves of the row. */
  lemma ExplainsOn(row: Row, steps: seq<Step>, p: int, v: int, a: int, u: int)
    requires steps != [] && Explains(row, steps[..|steps| - 1], p, v, a, u)
    requires p < |steps| - 1 && v < |steps| - 1 && a < |steps| - 1 && u < |steps| - 1
    ensures Explains(row, steps, p, v, a, u)
  {
    SameCall(steps, p);
    SameCall(steps, v);
    SameCall(steps, a);
    SameCall(steps, u);
  }

  ghost predicate IsExplained(steps: seq<Step>, k: Key) {
    var p := Latest(steps, k, Proposal);
    var rows := Execute(INITIAL, steps).db.rows;
    && (k in rows <==> p > Latest(steps, k, Removal))
    && (k in rows ==>
        Explains(rows[k], steps, p, Latest(steps, k, Verdict), Latest(steps, k, Application), Latest(steps, k, Undoing)))
  }

  /** The last step writes. */
  predicate WritesNow(steps: seq<Step>, k: Key, w: Write) { steps != [] && WritesAt(steps, k, w, |steps| - 1) }

  /** What the last step adds to the positions. */
  lemma LatestNow(steps: seq<Step>, k: Key, w: Write)
    requires steps != []
    ensures Latest(steps, k, w) == if WritesNow(steps, k, w) then |steps| - 1 else Latest(steps[..|steps| - 1], k, w)
  {
  }

  lemma AllNow(steps: seq<Step>, k: Key)
    requires steps != []
    ensures forall w :: Latest(steps, k, w)
                        == if WritesNow(steps, k, w) then |steps| - 1 else Latest(steps[..|steps| - 1], k, w)
  {
    forall w { LatestNow(steps, k, w); }
  }

  /** A step that writes nothing of the row. */
  lemma Untouched(steps: seq<Step>, k: Key)
    requires steps != [] && IsExplained(steps[..|steps| - 1], k)
    requires forall w :: !WritesNow(steps, k, w)
    requires var rows, rows' := Execute(INITIAL, steps[..|steps| - 1]).db.rows, Execute(INITIAL, steps).db.rows;
             (k in rows' <==> k in rows) && (k in rows ==> rows'[k] == rows[k])
    ensures IsExplained(steps, k)
  {
    var before := steps[..|steps| - 1];
    AllNow(steps, k);
    if k in Execute(INITIAL, steps).db.rows {
      ExplainsOn(Execute(INITIAL, steps).db.rows[k], steps, Latest(before, k, Proposal), Latest(before, k, Verdict),
                 Latest(before, k, Application), Latest(before, k, Undoing));
    }
  }

  lemma Removed(steps: seq<Step>, k: Key)
    requires WritesNow(steps, k, Removal)
    ensures IsExplained(steps, k)
  {
    AllNow(steps, k);
  }

  /** The call that the last step commits. */
  predicate Commits(steps: seq<Step>, p: InFlight) {
    steps != [] && CallAt(steps, |steps| - 1) == Some(p)
  }

  lemma Proposed(steps: seq<Step>, k: Key, p: InFlight)
    requires Commits(steps, p) && p.call.Save? && p.call.key == k
    ensures IsExplained(steps, k)
  {
    AllNow(steps, k);
  }

  /** A row explained as of the step before, by these positions. */
  ghost predicate Explained(row: Row, steps: seq<Step>, p: int, v: int, a: int, u: int) {
    && steps != [] && Explains(row, steps[..|steps| - 1], p, v, a, u)
    && p < |steps| - 1 && v < |steps| - 1 && a < |steps| - 1 && u < |steps| - 1
  }

  lemma JudgedNow(row: Row, row': Row, steps: seq<Step>, c: InFlight, p: int, v: int, a: int, u: int)
    requires Explained(row, steps, p, v, a, u) && Commits(steps, c) && (c.call.Approve? || c.call.Reject?)
    requires row' == row.(status := if c.call.Approve? then Approved else Rejected, approvedBy := Some(c.call.user),
                          comment := c.call.comment, approvedAt := Some(c.now), updatedAt := c.now, preChange := row'.preChange)
    ensures Explains(row', steps, p, |steps| - 1, a, u)
  {
    ExplainsOn(row, steps, p, v, a, u);
  }

  lemma AppliedNow(row: Row, steps: seq<Step>, c: InFlight, p: int, v: int, a: int, u: int)
    requires Explained(row, steps, p, v, a, u) && Commits(steps, c)
    ensures Explains(row.(appliedAt := Some(c.now), rollback := Applied, updatedAt := c.now), steps, p, v, |steps| - 1, u)
  {
    ExplainsOn(row, steps, p, v, a, u);
  }

  lemma UndoneNow(row: Row, steps: seq<Step>, c: InFlight, p: int, v: int, a: int, u: int)
    requires Explained(row, steps, p, v, a, u) && Commits(steps, c) && row.appliedAt.Some?
    ensures Explains(row.(rollback := RolledBack, updatedAt := c.now), steps, p, v, a, |steps| - 1)
  {
    ExplainsOn(row, steps, p, v, a, u);
  }

  /** What such a write makes of the row. */
  predicate Rewrites(row: Row, row': Row, c: InFlight, w: Write) {
    match w
    case Verdict =>
      && (c.call.Approve? || c.call.Reject?)
      && row' == row.(status := if c.call.Approve? then Approved else Rejected, approvedBy := Some(c.call.user),
                      comment := c.call.comment, approvedAt := Some(c.now), updatedAt := c.now, preChange := row'.preChange)
    case Application => row' == row.(appliedAt := Some(c.now), rollback := Applied, updatedAt := c.now)
    case Undoing => row.appliedAt.Some? && row' == row.(rollback := RolledBack, updatedAt := c.now)
    case _ => false
  }

  lemma StepRewrites(s: System, step: Step, k: Key, w: Write)
    requires Writes(s, step, k, w) && w in {Verdict, Application, Undoing}
    ensures k in s.db.rows && k in Next(s, step).db.rows
    ensures Rewrites(s.db.rows[k], Next(s, step).db.rows[k], s.calls[step.id], w)
    ensures forall x :: Writes(s, step, k, x) <==> x == w
  {
  }

  /** A write to a row that stays: everything else is explained as before. */
  lemma Rewritten(steps: seq<Step>, k: Key, c: InFlight, w: Write)
    requires Commits(steps, c) && w in {Verdict, Application, Undoing} && WritesNow(steps, k, w)
    requires IsExplained(steps[..|steps| - 1], k)
    ensures IsExplained(steps, k)
  {
    var before, s := steps[..|steps| - 1], Execute(INITIAL, steps[..|steps| - 1]);
    var p, v := Latest(before, k, Proposal), Latest(before, k, Verdict);
    var a, u := Latest(before, k, Application), Latest(before, k, Undoing);
    StepRewrites(s, steps[|steps| - 1], k, w);
    var row, row' := s.db.rows[k], Next(s, steps[|steps| - 1]).db.rows[k];
    assert Explained(row, steps, p, v, a, u);
    match w {
      case Verdict => JudgedNow(row, row', steps, c, p, v, a, u);
      case Application => AppliedNow(row, steps, c, p, v, a, u);
      case Undoing => UndoneNow(row, steps, c, p, v, a, u);
    }
    AllNow(steps, k);
  }

  lemma UnwrittenRow(s: System, step: Step, k: Key)
    requires step.Commit? && step.id in s.calls && s.calls[step.id].call.key == k
    requires forall w :: !Writes(s, step, k, w)
    ensures var rows, rows' := s.db.rows, Next(s, step).db.rows;
            (k in rows' <==> k in rows) && (k in rows ==> rows'[k] == rows[k])
  {
    assert !Writes(s, step, k, Proposal) && !Writes(s, step, k, Verdict);
    assert !Writes(s, step, k, Application) && !Writes(s, step, k, Undoing);
  }

  lemma CommitExplained(steps: seq<Step>, k: Key, p: InFlight)
    requires Commits(steps, p) && p.call.key == k && IsExplained(steps[..|steps| - 1], k)
    ensures IsExplained(steps, k)
  {
    var s, n := Execute(INITIAL, steps[..|steps| - 1]), |steps| - 1;
    if p.call.Save? {
      Proposed(steps, k, p);
    } else if w :| WritesNow(steps, k, w) {
      Rewritten(steps, k, p, w);
    } else {
      forall x ensures !Writes(s, steps[n], k, x) { assert !WritesNow(steps, k, x); }
      UnwrittenRow(s, steps[n], k);
      Untouched(steps, k);
    }
  }

  /** In every run a row is there exactly if it was proposed since its run was last evaluated, and
    * then its draft is the one proposed last; its status, approver, comment and instant are those
    * of the last verdict on it since; it counts as applied and rolled back as was last done since;
    * and updated_at is the instant at which the last of these calls began. */
  lemma {:induction false} RowIsExplained(steps: seq<Step>, k: Key)
    requires IsRun(INITIAL, steps)
    ensures IsExplained(steps, k)
  {
    if steps == [] {
    } else {
      var before, step := steps[..|steps| - 1], steps[|steps| - 1];
      RowIsExplained(before, k);
      var s := Execute(INITIAL, before);
      if step.Commit? && s.calls[step.id].call.key == k {
        CommitExplained(steps, k, s.calls[step.id]);
      } else if WritesNow(steps, k, Removal) {
        Removed(steps, k);
      } else {
        StepsAreLocal(s, step, k);
        Untouched(steps, k);
      }
    }
  }
}
