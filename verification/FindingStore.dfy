/** Saving the findings of an evaluation: the rows are replaced, and every pair of run and
  * control enters the ledger the first time it fails. */
module FindingStore {
  import opened Common
  import opened Ledger

  /** A finding, as far as its columns must not be null. */
  datatype Report = Report(control: Option<string>, framework: Option<string>, title: Option<string>,
                           status: Option<string>, severity: Option<string>, riskScore: Option<int>)

  datatype Status = Ingested | NeedsReview | Evaluated | Complete

  datatype Snapshot = Snapshot(run: string, at: int, findings: seq<Report>)

  datatype Db = Db(runs: map<string, Status>, findings: map<string, seq<Report>>, ledger: seq<Event>,
                   evaluations: seq<Snapshot>)

  datatype Error = IntegrityError

  predicate Filled(f: Report) {
    f.control.Some? && f.framework.Some? && f.title.Some? && f.status.Some? && f.severity.Some? && f.riskScore.Some?
  }

  /** No column is null and no control is named twice. */
  predicate FitsTable(fs: seq<Report>) {
    && (forall i :: 0 <= i < |fs| ==> Filled(fs[i]))
    && (forall i, j :: 0 <= i < j < |fs| ==> fs[i].control != fs[j].control)
  }

  /** A finding without a control id, or with an empty one, is stored but never tracked. */
  predicate IsTracked(f: Report) { f.control.Some? && f.control.value != "" }

  function PairOf(run: string, f: Report): Pair
    requires f.control.Some?
  {
    Pair(run, f.control.value)
  }

  /** The pairs a list of findings reports as failing. */
  function Failing(run: string, fs: seq<Report>): set<Pair> { set f | f in fs && IsTracked(f) :: PairOf(run, f) }

  predicate IsNew(ledger: seq<Event>, run: string, f: Report) {
    IsTracked(f) && PairOf(run, f) !in DetectedPairs(ledger)
  }

  function DetectionOf(run: string, f: Report, at: int): Event
    requires f.control.Some?
  {
    Event(PairOf(run, f), Detected, f.severity, at)
  }

  /** INSERT ... WHERE NOT EXISTS, one statement per finding. */
  function Detect(ledger: seq<Event>, run: string, fs: seq<Report>, at: int): (r: (seq<Event>, seq<Report>)) {
    if fs == [] then (ledger, [])
    else
      var (before, newly) := Detect(ledger, run, fs[..|fs| - 1], at);
      var f := fs[|fs| - 1];
      if IsNew(before, run, f) then (before + [DetectionOf(run, f, at)], newly + [f]) else (before, newly)
  }

  /** The constraints of the tables: the run must exist as soon as a row refers to it. */
  predicate Accepted(db: Db, run: string, fs: seq<Report>, hasBaseline: bool) {
    && (fs != [] ==> run in db.runs && FitsTable(fs))
    && (hasBaseline ==> run in db.runs)
  }

  function SaveTx(db: Db, run: string, fs: seq<Report>, hasBaseline: bool, at: int): Result<(Db, seq<Report>), Error> {
    if !Accepted(db, run, fs, hasBaseline) then Err(IntegrityError)
    else
      var (ledger, newly) := Detect(db.ledger, run, fs, at);
      Ok((Db(if run in db.runs then db.runs[run := Evaluated] else db.runs,
             db.findings[run := fs],
             ledger,
             if hasBaseline then db.evaluations + [Snapshot(run, at, fs)] else db.evaluations),
          newly))
  }

  /** A save succeeds exactly if the run is registered, unless there is nothing to store, every
    * finding has its six required columns, and no two findings share a control. */
  lemma SavesExactly(db: Db, run: string, fs: seq<Report>, hasBaseline: bool, at: int)
    ensures SaveTx(db, run, fs, hasBaseline, at).Ok? <==>
            && (run in db.runs || (fs == [] && !hasBaseline))
            && (forall f :: f in fs ==> None !in {f.control, f.framework, f.title, f.status, f.severity} && f.riskScore != None)
            && (forall i, j :: 0 <= i < |fs| && 0 <= j < |fs| && fs[i].control == fs[j].control ==> i == j)
  {
    forall f | f in fs
      ensures Filled(f) <==> None !in {f.control, f.framework, f.title, f.status, f.severity} && f.riskScore != None {}
  }

  // ---------------------------------------------------------------------- the tables

  class Tables {
    var runs: map<string, Status>
    var findings: map<string, seq<Report>>
    var ledger: seq<Event>
    var evaluations: seq<Snapshot>

    constructor ()
      ensures State() == EMPTY
    {
      runs, findings, ledger, evaluations := map[], map[], [], [];
    }

    ghost function State(): Db
      reads this
    {
      Db(runs, findings, ledger, evaluations)
    }

    /** One transaction: it either does everything or leaves the tables as they were. */
    method SaveFindings(run: string, fs: seq<Report>, hasBaseline: bool, at: int) returns (r: Result<seq<Report>, Error>)
      modifies this
      ensures match SaveTx(old(State()), run, fs, hasBaseline, at)
              case Ok(saved) => State() == saved.0 && r == Ok(saved.1)
              case Err(e) => State() == old(State()) && r == Err(e)
    {
      if (fs != [] || hasBaseline) && run !in runs {
        return Err(IntegrityError);
      }
      var fits := CheckRows(fs);
      if !fits {
        return Err(IntegrityError);
      }
      findings := findings[run := fs];
      var newly := RecordDetections(run, fs, at);
      if hasBaseline {
        evaluations := evaluations + [Snapshot(run, at, fs)];
      }
      if run in runs {
        runs := runs[run := Evaluated];
      }
      r := Ok(newly);
    }

    method RecordDetections(run: string, fs: seq<Report>, at: int) returns (newly: seq<Report>)
      modifies this`ledger
      ensures (ledger, newly) == Detect(old(ledger), run, fs, at)
    {
      newly := [];
      for i := 0 to |fs|
        invariant (ledger, newly) == Detect(old(ledger), run, fs[..i], at)
      {
        assert fs[..i + 1][..i] == fs[..i];
        if !IsTracked(fs[i]) { continue; }
        var known := Exists(ledger, PairOf(run, fs[i]));
        if !known {
          ledger := ledger + [DetectionOf(run, fs[i], at)];
          newly := newly + [fs[i]];
        }
      }
      assert fs[..|fs|] == fs;
    }
  }

  /** The rows pass the column and primary key constraints. */
  method CheckRows(fs: seq<Report>) returns (ok: bool)
    ensures ok <==> FitsTable(fs)
  {
    var seen: set<Option<string>> := {};
    for i := 0 to |fs|
      invariant FitsTable(fs[..i])
      invariant seen == set j | 0 <= j < i :: fs[j].control
    {
      if !Filled(fs[i]) || fs[i].control in seen {
        return false;
      }
      seen := seen + {fs[i].control};
    }
    assert fs[..|fs|] == fs;
    return true;
  }

  method Exists(ledger: seq<Event>, p: Pair) returns (found: bool)
    ensures found <==> p in DetectedPairs(ledger)
  {
    for i := 0 to |ledger|
      invariant p !in DetectedPairs(ledger[..i])
    {
      if ledger[i].kind == Detected && ledger[i].about == p {
        assert ledger[i] in ledger;
        return true;
      }
    }
    assert ledger[..|ledger|] == ledger;
    return false;
  }

  const EMPTY: Db := Db(map[], map[], [], [])
}
