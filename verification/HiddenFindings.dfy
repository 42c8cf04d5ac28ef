/** When the report misses failing pairs: the steps that hide a run's findings. */
module HiddenFindings {
  import opened FindingStore
  import opened DetectionLedger
  import opened ExecutiveReport

  predicate Finished(status: Status) { status == Evaluated || status == Complete }

  /** The i-th step saves findings of the run, successfully. */
  predicate Saves(steps: seq<Step>, i: int, run: string) {
    && 0 <= i < |steps| && steps[i].Save? && steps[i].run == run
    && Accepted(After(steps[..i]), run, steps[i].findings, steps[i].hasBaseline)
  }

  ghost predicate SavesLast(steps: seq<Step>, i: int, run: string) {
    Saves(steps, i, run) && forall j :: i < j < |steps| ==> !Saves(steps, j, run)
  }

  predicate Moves(step: Step, run: string) { step.SetStatus? && step.run == run }

  ghost predicate MovesLast(steps: seq<Step>, j: int, run: string) {
    0 <= j < |steps| && Moves(steps[j], run) && forall l :: j < l < |steps| ==> !Moves(steps[l], run)
  }

  /** After the i-th step the run's status is set, and last to an unfinished one. */
  ghost predicate LeavesAfter(steps: seq<Step>, i: int, run: string) {
    exists j :: i < j && MovesLast(steps, j, run) && !Finished(steps[j].status)
  }

  // ---------------------------------------------------------------- what the tables hold

  /** The i-th step saved what the tables hold of the run, and its status is what became of it. */
  ghost predicate Explains(steps: seq<Step>, i: int, run: string, db: Db) {
    && 0 <= i < |steps| && steps[i].Save?
    && run in db.findings && db.findings[run] == steps[i].findings
    && (steps[i].findings != [] ==> run in db.runs && (Finished(db.runs[run]) <==> !LeavesAfter(steps, i, run)))
  }

  lemma EarlierSaves(steps: seq<Step>, i: int, run: string)
    requires steps != [] && i < |steps| - 1
    ensures Saves(steps, i, run) <==> Saves(steps[..|steps| - 1], i, run)
  {
    if i >= 0 { assert steps[..|steps| - 1][..i] == steps[..i]; }
  }

  lemma LaterMove(steps: seq<Step>, i: int, run: string)
    requires steps != [] && 0 <= i < |steps| - 1
    ensures var last := steps[|steps| - 1];
            LeavesAfter(steps, i, run) <==>
            if Moves(last, run) then !Finished(last.status) else LeavesAfter(steps[..|steps| - 1], i, run)
  {
    var n := |steps| - 1;
    var before, last := steps[..n], steps[n];
    assert forall j :: 0 <= j < n ==> before[j] == steps[j];
    if Moves(last, run) {
      assert MovesLast(steps, n, run);
      forall j | j < n ensures !MovesLast(steps, j, run) {}
    } else {
      forall j ensures MovesLast(steps, j, run) <==> MovesLast(before, j, run) {}
    }
  }

  lemma ExplainsOn(steps: seq<Step>, i: int, run: string, db: Db)
    requires steps != [] && Explains(steps[..|steps| - 1], i, run, db)
    requires var last := steps[|steps| - 1];
             last.Save? && last.run == run ==> !Accepted(db, run, last.findings, last.hasBaseline)
    ensures Explains(steps, i, run, Do(db, steps[|steps| - 1]))
  {
    LaterMove(steps, i, run);
  }

  lemma JustSaved(steps: seq<Step>, n: nat, run: string)
    requires n == |steps| - 1 && Saves(steps, n, run)
    ensures SavesLast(steps, n, run) && Explains(steps, n, run, After(steps))
  {
    var db, last := After(steps[..n]), steps[n];
    assert After(steps) == Do(db, last);
    assert SaveTx(db, run, last.findings, last.hasBaseline, last.at).Ok?;
  }

  lemma OthersSaved(db: Db, step: Step, run: string)
    requires step.Save? && step.run == run ==> !Accepted(db, run, step.findings, step.hasBaseline)
    ensures run in Do(db, step).findings <==> run in db.findings
  {
  }

  /** The tables hold what each run's last accepted save wrote. */
  lemma {:induction false} TablesAreExplained(steps: seq<Step>, run: string)
    ensures run in After(steps).findings <==> exists i :: SavesLast(steps, i, run)
    ensures forall i :: SavesLast(steps, i, run) ==> Explains(steps, i, run, After(steps))
  {
    if steps == [] {
    } else {
      var n := |steps| - 1;
      var before, last, db := steps[..n], steps[n], After(steps[..n]);
      TablesAreExplained(before, run);
      forall i | i < n ensures Saves(steps, i, run) <==> Saves(before, i, run) { EarlierSaves(steps, i, run); }
      if Saves(steps, n, run) {
        JustSaved(steps, n, run);
        forall i ensures SavesLast(steps, i, run) <==> i == n {}
      } else {
        OthersSaved(db, last, run);
        forall i ensures SavesLast(steps, i, run) <==> SavesLast(before, i, run) {}
        forall i | SavesLast(before, i, run) ensures Explains(steps, i, run, Do(db, last)) {
          ExplainsOn(steps, i, run, db);
        }
      }
    }
  }

  // ---------------------------------------------------------------------- main result

  /** After any steps, still open counts every pair that fails exactly if, whenever a run was
    * moved to an unfinished status after its last accepted save and not back, that save
    * reported nothing failing. */
  lemma NothingIsHiddenExactly(steps: seq<Step>)
    ensures var db := After(steps);
            |FailingIn(db, FindingsByRun(db).Keys)| == |FailingIn(db, db.findings.Keys)| <==>
            forall run, i :: SavesLast(steps, i, run) && LeavesAfter(steps, i, run) ==> Failing(run, steps[i].findings) == {}
  {
    var db := After(steps);
    AllAreCounted(db);
    forall run, i | SavesLast(steps, i, run)
      ensures Explains(steps, i, run, db)
    {
      TablesAreExplained(steps, run);
    }
    if NothingHidden(db) {
      forall run, i | SavesLast(steps, i, run) && LeavesAfter(steps, i, run)
        ensures Failing(run, steps[i].findings) == {} {}
    }
    if forall run, i :: SavesLast(steps, i, run) && LeavesAfter(steps, i, run) ==> Failing(run, steps[i].findings) == {} {
      forall run | run in db.findings && run !in FindingsByRun(db) ensures Failing(run, db.findings[run]) == {} {
        TablesAreExplained(steps, run);
        var i :| SavesLast(steps, i, run);
        assert Explains(steps, i, run, db);
      }
    }
  }
}
