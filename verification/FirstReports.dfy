/** What the ledger and the history say of a save: severity and time of a first report, and the
  * snapshots that the scores over time are drawn from. */
module FirstReports {
  import opened Common
  import opened Ledger
  import opened FindingStore
  import opened DetectionLedger

  /** A finding about this pair with this severity. */
  predicate Tells(run: string, f: Report, e: Event) {
    f.control == Some(e.about.control) && e.about.control != "" && e.about.run == run && f.severity == e.severity
  }

  ghost predicate SomeTells(run: string, fs: seq<Report>, e: Event) { exists f :: f in fs && Tells(run, f, e) }

  /** What saving a list of findings adds to the ledger. */
  lemma {:induction false} AddedEvents(ledger: seq<Event>, run: string, fs: seq<Report>, at: int, i: nat)
    requires |ledger| <= i < |Detect(ledger, run, fs, at).0|
    ensures var e := Detect(ledger, run, fs, at).0[i];
            e.kind == Detected && e.at == at && e.about !in DetectedPairs(ledger) && SomeTells(run, fs, e)
  {
    if fs == [] {
    } else {
      var n := |fs| - 1;
      var before, f := Detect(ledger, run, fs[..n], at).0, fs[n];
      var e := Detect(ledger, run, fs, at).0[i];
      OldPairsStay(ledger, run, fs[..n], at);
      if i < |before| {
        AddedEvents(ledger, run, fs[..n], at, i);
        var g :| g in fs[..n] && Tells(run, g, e);
        assert g in fs;
      } else {
        assert f in fs && Tells(run, f, e);
      }
    }
  }

  lemma {:induction false} OldPairsStay(ledger: seq<Event>, run: string, fs: seq<Report>, at: int)
    ensures ledger <= Detect(ledger, run, fs, at).0
    ensures DetectedPairs(ledger) <= DetectedPairs(Detect(ledger, run, fs, at).0)
  {
    if fs == [] {
    } else {
      OldPairsStay(ledger, run, fs[..|fs| - 1], at);
    }
  }

  /** The n-th step saves findings successfully. */
  predicate SavesAt(steps: seq<Step>, n: nat) {
    && n < |steps| && steps[n].Save?
    && Accepted(After(steps[..n]), steps[n].run, steps[n].findings, steps[n].hasBaseline)
  }

  /** The n-th step is the first to report the event's pair, with this severity and at this time. */
  ghost predicate FirstReportedAt(steps: seq<Step>, n: nat, e: Event) {
    && SavesAt(steps, n) && e.at == steps[n].at
    && SomeTells(steps[n].run, steps[n].findings, e)
    && e.about !in EverReported(steps[..n])
  }

  /** Every detection carries the severity of the finding that first reported its pair, and the
    * time of that report. */
  lemma {:induction false} DetectionsAreFirstReports(steps: seq<Step>, i: nat) returns (n: nat)
    requires i < |After(steps).ledger| && After(steps).ledger[i].kind == Detected
    ensures FirstReportedAt(steps, n, After(steps).ledger[i])
    decreases |steps|
  {
    var before, s := steps[..|steps| - 1], steps[|steps| - 1];
    var db := After(before);
    LedgerIsExact(before);
    LedgerGrows(db, s);
    if i < |db.ledger| {
      n := DetectionsAreFirstReports(before, i);
      assert before[..n] == steps[..n];
    } else {
      n := |before|;
      assert SavesAt(steps, n) by { OnlySavesDetect(db, s, i); }
      AddedEvents(db.ledger, s.run, s.findings, s.at, i);
    }
  }

  lemma OnlySavesDetect(db: Db, s: Step, i: nat)
    requires |db.ledger| <= i < |Do(db, s).ledger| && Do(db, s).ledger[i].kind == Detected
    ensures s.Save? && Accepted(db, s.run, s.findings, s.hasBaseline)
  {
  }

  /** The step saves, successfully and with a baseline, what the snapshot holds. */
  predicate Keeps(db: Db, s: Step, x: Snapshot) {
    && s.Save? && s.hasBaseline && Accepted(db, s.run, s.findings, s.hasBaseline)
    && x.run == s.run && x.at == s.at && x.findings == s.findings
  }

  lemma StepKeeps(db: Db, s: Step, x: Snapshot)
    ensures x in Do(db, s).evaluations <==> x in db.evaluations || Keeps(db, s, x)
  {
  }

  predicate KeptBy(steps: seq<Step>, n: int, x: Snapshot) { 0 <= n < |steps| && Keeps(After(steps[..n]), steps[n], x) }

  lemma KeptEarlier(steps: seq<Step>, n: int, x: Snapshot)
    requires steps != [] && n < |steps| - 1
    ensures KeptBy(steps[..|steps| - 1], n, x) <==> KeptBy(steps, n, x)
  {
    if n >= 0 { assert steps[..|steps| - 1][..n] == steps[..n]; }
  }

  /** The history holds exactly what the successful saves with a baseline saved, and when. */
  lemma {:induction false} SnapshotsAreSaves(steps: seq<Step>, x: Snapshot)
    ensures x in After(steps).evaluations <==> exists n :: KeptBy(steps, n, x)
  {
    if steps == [] {
    } else {
      var n := |steps| - 1;
      SnapshotsAreSaves(steps[..n], x);
      StepKeeps(After(steps[..n]), steps[n], x);
      forall m | m < n ensures KeptBy(steps[..n], m, x) <==> KeptBy(steps, m, x) { KeptEarlier(steps, m, x); }
      assert KeptBy(steps, n, x) <==> Keeps(After(steps[..n]), steps[n], x);
    }
  }

  // ------------------------------------------------------------------- the status of a run

  /** What the step makes of the run's status: registered anew it is ingested, saved it is evaluated. */
  function Sets(db: Db, s: Step, run: string): Option<Status> {
    match s
    case Register(r) => if r == run && run !in db.runs then Some(Ingested) else None
    case SetStatus(r, status) => if r == run && run in db.runs then Some(status) else None
    case Append(_) => None
    case Save(r, fs, hasBaseline, _) =>
      if r == run && run in db.runs && Accepted(db, r, fs, hasBaseline) then Some(Evaluated) else None
  }

  predicate SetAt(steps: seq<Step>, n: int, run: string, status: Status) {
    0 <= n < |steps| && Sets(After(steps[..n]), steps[n], run) == Some(status)
  }

  /** The n-th step set the run's status so, and none did after it. */
  ghost predicate SetLast(steps: seq<Step>, n: int, run: string, status: Status) {
    SetAt(steps, n, run, status) && forall m, other :: n < m < |steps| ==> !SetAt(steps, m, run, other)
  }

  lemma SetEarlier(steps: seq<Step>, n: int, run: string, status: Status)
    requires steps != [] && n < |steps| - 1
    ensures SetAt(steps[..|steps| - 1], n, run, status) <==> SetAt(steps, n, run, status)
  {
    if n >= 0 { assert steps[..|steps| - 1][..n] == steps[..n]; }
  }

  lemma StepSets(db: Db, s: Step, run: string)
    ensures run in Do(db, s).runs <==> run in db.runs || Sets(db, s, run).Some?
    ensures run in Do(db, s).runs ==>
              Do(db, s).runs[run] == if Sets(db, s, run).Some? then Sets(db, s, run).value else db.runs[run]
  {
  }

  /** A run is known exactly if it was registered, and its status is the one set last. */
  lemma {:induction false} StatusIsTheLastSet(steps: seq<Step>, run: string) returns (n: int)
    ensures run in After(steps).runs ==> SetLast(steps, n, run, After(steps).runs[run])
    ensures run !in After(steps).runs ==> forall m, status :: !SetAt(steps, m, run, status)
  {
    n := -1;
    if steps != [] {
      var last := |steps| - 1;
      var before, s := steps[..last], steps[last];
      n := StatusIsTheLastSet(before, run);
      StepSets(After(before), s, run);
      forall m, status | m < last ensures SetAt(before, m, run, status) <==> SetAt(steps, m, run, status) {
        SetEarlier(steps, m, run, status);
      }
      assert forall status :: SetAt(steps, last, run, status) <==> Sets(After(before), s, run) == Some(status);
      if Sets(After(before), s, run).Some? { n := last; }
    }
  }
}
