/** Over any run of the services that share the ledger: a failing pair is detected exactly
  * once, and the executive counts derived from the ledger are the true ones. */
module DetectionLedger {
  import opened Ledger
  import opened FindingStore

  /** A run is registered by ingestion, its status moved by parsing and reporting, other
    * events are appended by remediation and reporting, and findings saved by compliance. */
  datatype Step =
    | Register(run: string)
    | SetStatus(run: string, status: Status)
    | Append(event: Event)
    | Save(run: string, findings: seq<Report>, hasBaseline: bool, at: int)

  /** What one step does; a step that violates a constraint changes nothing. */
  function Do(db: Db, s: Step): Db {
    match s
    case Register(run) => if run in db.runs then db else db.(runs := db.runs[run := Ingested])
    case SetStatus(run, status) => if run in db.runs then db.(runs := db.runs[run := status]) else db
    case Append(e) => if e.kind != Detected && e.about.run in db.runs then db.(ledger := db.ledger + [e]) else db
    case Save(run, fs, hasBaseline, at) =>
      match SaveTx(db, run, fs, hasBaseline, at)
      case Ok(saved) => saved.0
      case Err(_) => db
  }

  function After(steps: seq<Step>): Db {
    if steps == [] then EMPTY else Do(After(steps[..|steps| - 1]), steps[|steps| - 1])
  }

  /** The pairs a step reports as failing, if it is accepted. */
  function Reported(db: Db, s: Step): set<Pair> {
    if s.Save? && Accepted(db, s.run, s.findings, s.hasBaseline) then Failing(s.run, s.findings) else {}
  }

  /** Every pair ever reported. */
  function EverReported(steps: seq<Step>): set<Pair> {
    if steps == [] then {}
    else EverReported(steps[..|steps| - 1]) + Reported(After(steps[..|steps| - 1]), steps[|steps| - 1])
  }

  /** The pairs failing now, in the runs asked for. */
  function FailingIn(db: Db, runs: set<string>): set<Pair> {
    set run, p | run in runs && run in db.findings && p in Failing(run, db.findings[run]) :: p
  }

  // -------------------------------------------------------------------- one transaction

  /** The detections after saving are those before plus the reported pairs, each once. */
  lemma {:induction false} DetectAddsOnce(ledger: seq<Event>, run: string, fs: seq<Report>, at: int)
    requires DetectedOnce(ledger)
    ensures DetectedOnce(Detect(ledger, run, fs, at).0)
    ensures DetectedPairs(Detect(ledger, run, fs, at).0) == DetectedPairs(ledger) + Failing(run, fs)
    ensures ledger <= Detect(ledger, run, fs, at).0
  {
    if fs == [] {
    } else {
      var before, f := fs[..|fs| - 1], fs[|fs| - 1];
      assert fs == before + [f];
      DetectAddsOnce(ledger, run, before, at);
      FailingSnoc(run, before, f);
      var l := Detect(ledger, run, before, at).0;
      if IsNew(l, run, f) {
        AppendOnce(l, DetectionOf(run, f, at));
      }
    }
  }

  lemma FailingSnoc(run: string, fs: seq<Report>, f: Report)
    ensures Failing(run, fs + [f]) == Failing(run, fs) + if IsTracked(f) then {PairOf(run, f)} else {}
  {
  }

  lemma AppendOnce(ledger: seq<Event>, e: Event)
    requires DetectedOnce(ledger) && (e.kind == Detected ==> e.about !in DetectedPairs(ledger))
    ensures DetectedOnce(ledger + [e])
    ensures DetectedPairs(ledger + [e]) == DetectedPairs(ledger) + if e.kind == Detected then {e.about} else {}
  {
    forall i | 0 <= i < |ledger| && ledger[i].kind == Detected ensures ledger[i].about in DetectedPairs(ledger) {
      assert ledger[i] in ledger;
    }
  }

  /** The findings of fs about pairs not in known, in order. */
  function Unknown(known: set<Pair>, run: string, fs: seq<Report>): seq<Report> {
    if fs == [] then []
    else
      var before, f := Unknown(known, run, fs[..|fs| - 1]), fs[|fs| - 1];
      if IsTracked(f) && PairOf(run, f) !in known then before + [f] else before
  }

  /** What a save returns is exactly the findings never detected before, in order. */
  lemma {:induction false} ReturnsFirstTimeFindings(ledger: seq<Event>, run: string, fs: seq<Report>, at: int)
    requires DetectedOnce(ledger) && FitsTable(fs)
    ensures Detect(ledger, run, fs, at).1 == Unknown(DetectedPairs(ledger), run, fs)
  {
    if fs == [] {
    } else {
      var before, f := fs[..|fs| - 1], fs[|fs| - 1];
      ReturnsFirstTimeFindings(ledger, run, before, at);
      DetectAddsOnce(ledger, run, before, at);
      if IsTracked(f) {
        assert PairOf(run, f) !in Failing(run, before);
      }
    }
  }

  // ----------------------------------------------------------------------- any run

  ghost predicate RowsAreReported(db: Db, ever: set<Pair>) {
    forall run :: run in db.findings ==> Failing(run, db.findings[run]) <= ever
  }

  /** After any steps, the detections are exactly the pairs ever reported, each once, and
    * whatever fails now has been reported. */
  lemma {:induction false} LedgerIsExact(steps: seq<Step>)
    ensures DetectedOnce(After(steps).ledger)
    ensures DetectedPairs(After(steps).ledger) == EverReported(steps)
    ensures RowsAreReported(After(steps), EverReported(steps))
  {
    if steps == [] {
    } else {
      var before, s := steps[..|steps| - 1], steps[|steps| - 1];
      LedgerIsExact(before);
      StepKeepsLedger(After(before), s, EverReported(before));
    }
  }

  lemma StepKeepsLedger(db: Db, s: Step, ever: set<Pair>)
    requires DetectedOnce(db.ledger) && DetectedPairs(db.ledger) == ever && RowsAreReported(db, ever)
    ensures DetectedOnce(Do(db, s).ledger)
    ensures DetectedPairs(Do(db, s).ledger) == ever + Reported(db, s)
    ensures RowsAreReported(Do(db, s), ever + Reported(db, s))
  {
    match s {
      case Append(e) => if e.kind != Detected { AppendOnce(db.ledger, e); }
      case Save(run, fs, hasBaseline, at) => DetectAddsOnce(db.ledger, run, fs, at);
      case _ =>
    }
  }

  /** The ledger is append-only. */
  lemma LedgerGrows(db: Db, s: Step)
    requires DetectedOnce(db.ledger)
    ensures db.ledger <= Do(db, s).ledger
  {
    if s.Save? { DetectAddsOnce(db.ledger, s.run, s.findings, s.at); }
  }
}
